/** Object members in the order section 3.2.3 of RFC 8785 asks for: by their keys' UTF-16. */
module MemberOrder {
  import opened Numerals
  import opened JsonStrings

  datatype Entry<+T> = Entry(key: Text, value: T)

  /** Bytes compared as Python compares them. */
  predicate LexLe(a: seq<int>, b: seq<int>) {
    a == [] || (b != [] && (a[0] < b[0] || (a[0] == b[0] && LexLe(a[1..], b[1..]))))
  }

  lemma {:induction false} LexLeIsTotal(a: seq<int>, b: seq<int>)
    ensures LexLe(a, b) || LexLe(b, a)
    ensures LexLe(a, b) && LexLe(b, a) ==> a == b
    decreases |a|
  {
    if a != [] && b != [] && a[0] == b[0] {
      LexLeIsTotal(a[1..], b[1..]);
      assert a == [a[0]] + a[1..] && b == [b[0]] + b[1..];
    }
  }

  lemma {:induction false} LexLeComposes(a: seq<int>, b: seq<int>, c: seq<int>)
    requires LexLe(a, b) && LexLe(b, c)
    ensures LexLe(a, c)
    decreases |a|
  {
    if a != [] && a[0] == b[0] && b[0] == c[0] {
      LexLeComposes(a[1..], b[1..], c[1..]);
    }
  }

  predicate KeyLe(a: Text, b: Text) {
    LexLe(SortKey(a), SortKey(b))
  }

  /** At the first place where the two differ a's item is the smaller, or a ends there. */
  ghost predicate ComesFirst(a: seq<int>, b: seq<int>) {
    exists k: nat | k <= |a| && k <= |b| :: a[..k] == b[..k] && (k == |a| || (k < |b| && a[k] < b[k]))
  }

  lemma {:induction false} LexLeIsItemByItem(a: seq<int>, b: seq<int>)
    ensures LexLe(a, b) <==> ComesFirst(a, b)
    decreases |a|
  {
    if a == [] {
      assert a[..0] == b[..0];
    } else if b == [] {
    } else if a[0] != b[0] {
      forall k: nat | 0 < k <= |a| && k <= |b| ensures a[..k] != b[..k] {
        assert a[..k][0] != b[..k][0];
      }
      if a[0] < b[0] {
        assert a[..0] == b[..0];
      }
    } else {
      var (s, t) := (a[1..], b[1..]);
      LexLeIsItemByItem(s, t);
      if ComesFirst(s, t) {
        var k: nat :| k <= |s| && k <= |t| && s[..k] == t[..k] && (k == |s| || (k < |t| && s[k] < t[k]));
        assert a[..k + 1] == [a[0]] + s[..k] && b[..k + 1] == [b[0]] + t[..k];
      }
      if ComesFirst(a, b) {
        var k: nat :| k <= |a| && k <= |b| && a[..k] == b[..k] && (k == |a| || (k < |b| && a[k] < b[k]));
        assert k > 0;
        assert s[..k - 1] == a[..k][1..] && t[..k - 1] == b[..k][1..];
      }
    }
  }

  lemma {:induction false} BytesOrderAsUnits(u: seq<int>, v: seq<int>)
    requires forall i | 0 <= i < |u| :: 0 <= u[i] < 0x10000
    requires forall i | 0 <= i < |v| :: 0 <= v[i] < 0x10000
    ensures LexLe(UnitBytes(u), UnitBytes(v)) <==> LexLe(u, v)
    decreases |u|
  {
    if u != [] && v != [] {
      BytesOrderAsUnits(u[1..], v[1..]);
      var (x, y) := (UnitBytes(u), UnitBytes(v));
      assert x[0] == u[0] / 256 && x[1] == u[0] % 256 && y[0] == v[0] / 256 && y[1] == v[0] % 256;
      assert x[1..][1..] == UnitBytes(u[1..]) && y[1..][1..] == UnitBytes(v[1..]);
    }
  }

  /** Members are ordered as section 3.2.3 of RFC 8785 asks: by the UTF-16 code units of their keys,
      compared as numbers. */
  lemma {:induction false} KeysCompareByCodeUnits(a: Text, b: Text)
    requires CodePoints(a) && CodePoints(b)
    ensures KeyLe(a, b) <==> ComesFirst(CodeUnits(a), CodeUnits(b))
  {
    SortKeyIsUnits(a);
    SortKeyIsUnits(b);
    BytesOrderAsUnits(CodeUnits(a), CodeUnits(b));
    LexLeIsItemByItem(CodeUnits(a), CodeUnits(b));
  }

  /** Each key's code units come before the next's, and are not the same. */
  ghost predicate RisesByCodeUnits<T>(s: seq<Entry<T>>) {
    forall i, k | 0 <= i < k < |s| ::
      ComesFirst(CodeUnits(s[i].key), CodeUnits(s[k].key)) && CodeUnits(s[i].key) != CodeUnits(s[k].key)
  }

  function Insert<T>(e: Entry<T>, s: seq<Entry<T>>): seq<Entry<T>> {
    if s == [] then [e]
    else if KeyLe(e.key, s[0].key) then [e] + s
    else [s[0]] + Insert(e, s[1..])
  }

  /** `sorted(keys, key=_sort_key)`, each key with what stands under it: a stable sort. */
  function Sort<T>(s: seq<Entry<T>>): seq<Entry<T>> {
    if s == [] then [] else Insert(s[0], Sort(s[1..]))
  }

  ghost predicate Ordered<T>(s: seq<Entry<T>>) {
    forall i, k | 0 <= i < k < |s| :: KeyLe(s[i].key, s[k].key)
  }

  predicate Distinct<T>(s: seq<Entry<T>>) {
    forall i, k | 0 <= i < k < |s| :: s[i].key != s[k].key
  }

  /** The same entries, in whatever order. */
  ghost predicate SameEntries<T>(s: seq<Entry<T>>, t: seq<Entry<T>>) {
    && |s| == |t|
    && (forall i | 0 <= i < |s| :: s[i] in t)
    && (forall i | 0 <= i < |t| :: t[i] in s)
  }

  lemma {:induction false} InsertHas<T>(e: Entry<T>, s: seq<Entry<T>>)
    ensures |Insert(e, s)| == |s| + 1
    ensures e in Insert(e, s) && forall i | 0 <= i < |s| :: s[i] in Insert(e, s)
    ensures forall i | 0 <= i < |s| + 1 :: Insert(e, s)[i] == e || Insert(e, s)[i] in s
    decreases |s|
  {
    if s != [] && !KeyLe(e.key, s[0].key) {
      InsertHas(e, s[1..]);
      assert s == [s[0]] + s[1..];
    }
  }

  lemma {:induction false} InsertOrders<T>(e: Entry<T>, s: seq<Entry<T>>)
    requires Ordered(s)
    ensures Ordered(Insert(e, s))
    decreases |s|
  {
    hide LexLe, SortKey;
    if s != [] {
      LexLeIsTotal(SortKey(e.key), SortKey(s[0].key));
      if KeyLe(e.key, s[0].key) {
        forall k | 0 < k < |s| ensures KeyLe(e.key, s[k].key) {
          LexLeComposes(SortKey(e.key), SortKey(s[0].key), SortKey(s[k].key));
        }
      } else {
        InsertOrders(e, s[1..]);
        InsertHas(e, s[1..]);
        hide Insert;
        var t := Insert(e, s[1..]);
        forall k | 0 <= k < |t| ensures KeyLe(s[0].key, t[k].key) {
          if t[k] != e {
            var j :| 0 <= j < |s[1..]| && s[1..][j] == t[k];
            assert s[j + 1] == t[k];
          }
        }
        Headed(s[0], t);
      }
    }
  }

  lemma Headed<T>(e: Entry<T>, t: seq<Entry<T>>)
    requires Ordered(t) && forall k | 0 <= k < |t| :: KeyLe(e.key, t[k].key)
    ensures Ordered([e] + t)
  {
  }

  lemma {:induction false} InsertKeepsDistinct<T>(e: Entry<T>, s: seq<Entry<T>>)
    requires Distinct(s) && forall i | 0 <= i < |s| :: s[i].key != e.key
    ensures Distinct(Insert(e, s))
    decreases |s|
  {
    hide KeyLe;
    if s != [] && !KeyLe(e.key, s[0].key) {
      InsertKeepsDistinct(e, s[1..]);
      InsertHas(e, s[1..]);
      var t := Insert(e, s[1..]);
      forall k | 0 <= k < |t| ensures t[k].key != s[0].key {
        if t[k] != e {
          var j :| 0 <= j < |s[1..]| && s[1..][j] == t[k];
          assert s[j + 1] == t[k];
        }
      }
    }
  }

  /** The sort gives back the same entries, in order. */
  lemma {:induction false} SortSorts<T>(s: seq<Entry<T>>)
    ensures SameEntries(Sort(s), s)
    ensures Ordered(Sort(s))
    decreases |s|
  {
    hide Insert, Ordered;
    if s == [] {
      NothingIsOrdered<T>();
    } else {
      SortSorts(s[1..]);
      InsertHas(s[0], Sort(s[1..]));
      InsertOrders(s[0], Sort(s[1..]));
      OneMoreEntry(s, Sort(s[1..]), Sort(s));
    }
  }

  lemma OneMoreEntry<T>(s: seq<Entry<T>>, rest: seq<Entry<T>>, all: seq<Entry<T>>)
    requires s != [] && SameEntries(rest, s[1..]) && |all| == |s|
    requires s[0] in all && forall i | 0 <= i < |rest| :: rest[i] in all
    requires forall i | 0 <= i < |all| :: all[i] == s[0] || all[i] in rest
    ensures SameEntries(all, s)
  {
    forall i | 0 <= i < |s| ensures s[i] in all {
      if i > 0 {
        assert s[1..][i - 1] in rest;
      }
    }
    forall i | 0 <= i < |all| ensures all[i] in s {
      if all[i] != s[0] {
        var j :| 0 <= j < |rest| && rest[j] == all[i];
        assert rest[j] in s[1..];
      }
    }
  }

  lemma {:induction false} SortKeepsDistinct<T>(s: seq<Entry<T>>)
    requires Distinct(s)
    ensures Distinct(Sort(s))
    decreases |s|
  {
    hide Insert, Ordered;
    if s != [] {
      SortKeepsDistinct(s[1..]);
      SortSorts(s[1..]);
      var rest := Sort(s[1..]);
      forall i | 0 <= i < |rest| ensures rest[i].key != s[0].key {
        var j :| 0 <= j < |s[1..]| && s[1..][j] == rest[i];
        assert s[j + 1] == rest[i];
      }
      InsertKeepsDistinct(s[0], rest);
    }
  }

  lemma NothingIsOrdered<T>()
    ensures Ordered<T>([])
  {
  }

  lemma {:induction false} SortedStays<T>(s: seq<Entry<T>>)
    requires Ordered(s)
    ensures Sort(s) == s
    decreases |s|
  {
    if s != [] {
      SortedStays(s[1..]);
      assert s == [s[0]] + s[1..];
    }
  }

  function Mapped<T, U>(s: seq<Entry<T>>, f: T -> U): (r: seq<Entry<U>>)
    ensures |r| == |s| && forall i | 0 <= i < |s| :: r[i] == Entry(s[i].key, f(s[i].value))
  {
    seq(|s|, i requires 0 <= i < |s| => Entry(s[i].key, f(s[i].value)))
  }

  /** Sorted, entries under different well-formed keys rise by their keys' code units. */
  lemma {:induction false} SortRisesByCodeUnits<T>(s: seq<Entry<T>>)
    requires Distinct(s) && KeysAreStrings(s)
    ensures RisesByCodeUnits(Sort(s))
  {
    hide LexLe, KeyLe, CodePoints, Encodable, CodeUnits, ComesFirst, SortKey, UnitBytes;
    SortSorts(s);
    SortKeepsDistinct(s);
    var sorted := Sort(s);
    forall i, k | 0 <= i < k < |sorted|
      ensures ComesFirst(CodeUnits(sorted[i].key), CodeUnits(sorted[k].key))
      ensures CodeUnits(sorted[i].key) != CodeUnits(sorted[k].key)
    {
      assert sorted[i] in s && sorted[k] in s;
      KeysCompareByCodeUnits(sorted[i].key, sorted[k].key);
      SortKeyIsUnits(sorted[i].key);
      SortKeyIsUnits(sorted[k].key);
      if SortKey(sorted[i].key) == SortKey(sorted[k].key) {
        SortKeyTells(sorted[i].key, sorted[k].key);
      }
    }
  }

  lemma {:induction false} InsertMapped<T, U>(e: Entry<T>, s: seq<Entry<T>>, f: T -> U)
    ensures Insert(Entry(e.key, f(e.value)), Mapped(s, f)) == Mapped(Insert(e, s), f)
    decreases |s|
  {
    if s != [] && !KeyLe(e.key, s[0].key) {
      InsertMapped(e, s[1..], f);
      assert Mapped(s, f)[1..] == Mapped(s[1..], f);
    }
  }

  /** The order is the keys' alone. */
  lemma {:induction false} SortMapped<T, U>(s: seq<Entry<T>>, f: T -> U)
    ensures Sort(Mapped(s, f)) == Mapped(Sort(s), f)
    decreases |s|
  {
    if s != [] {
      SortMapped(s[1..], f);
      assert Mapped(s, f)[1..] == Mapped(s[1..], f);
      InsertMapped(s[0], Sort(s[1..]), f);
    }
  }

  ghost predicate KeysAreStrings<T>(s: seq<Entry<T>>) {
    forall i | 0 <= i < |s| :: CodePoints(s[i].key) && Encodable(s[i].key)
  }

  lemma {:induction false} FirstsAgree<T>(s: seq<Entry<T>>, t: seq<Entry<T>>)
    requires s != [] && t != [] && Ordered(s) && Ordered(t) && Distinct(s)
    requires KeysAreStrings(s) && KeysAreStrings(t) && SameEntries(s, t)
    ensures s[0] == t[0]
  {
    hide LexLe, SortKey, CodePoints, Encodable;
    var i :| 0 <= i < |t| && t[i] == s[0];
    var k :| 0 <= k < |s| && s[k] == t[0];
    LexLeIsTotal(SortKey(s[0].key), SortKey(t[0].key));
    LexLeIsTotal(SortKey(s[0].key), SortKey(s[0].key));
    SortKeyTells(s[0].key, t[0].key);
  }

  lemma {:induction false} TailsSame<T>(s: seq<Entry<T>>, t: seq<Entry<T>>)
    requires s != [] && t != [] && s[0] == t[0] && Distinct(s) && Distinct(t) && SameEntries(s, t)
    ensures SameEntries(s[1..], t[1..])
  {
    forall i | 0 <= i < |s[1..]| ensures s[1..][i] in t[1..] {
      var j :| 0 <= j < |t| && t[j] == s[i + 1];
      assert t[1..][j - 1] == s[1..][i];
    }
    forall i | 0 <= i < |t[1..]| ensures t[1..][i] in s[1..] {
      var j :| 0 <= j < |s| && s[j] == t[i + 1];
      assert s[1..][j - 1] == t[1..][i];
    }
  }

  /** Entries under different, well-formed keys come out in one order whatever order they were
      in: two sorted lists of the same entries are the same list. */
  lemma {:induction false} OneOrder<T>(s: seq<Entry<T>>, t: seq<Entry<T>>)
    requires Ordered(s) && Ordered(t) && Distinct(s) && Distinct(t)
    requires KeysAreStrings(s) && KeysAreStrings(t) && SameEntries(s, t)
    ensures s == t
    decreases |s|
  {
    hide KeyLe, CodePoints, Encodable;
    if s != [] {
      FirstsAgree(s, t);
      TailsSame(s, t);
      OneOrder(s[1..], t[1..]);
      assert s == [s[0]] + s[1..] && t == [t[0]] + t[1..];
    }
  }
}
