/** `_serialize` and the duplicate-key hook as the loops they are, and what their texts can be
    encoded as. */
module Serializer {
  import opened Basics
  import opened Numerals
  import opened Numbers
  import opened JsonStrings
  import opened MemberOrder
  import opened Canonical

  /** The text of one more part. */
  lemma {:induction false} JoinedGrows(parts: seq<Text>, part: Text)
    ensures Joined(parts + [part]) == Joined(parts) + (if parts == [] then [] else [COMMA]) + part
    decreases |parts|
  {
    if parts == [] {
      assert parts + [part] == [part];
    } else {
      assert (parts + [part])[1..] == parts[1..] + [part];
      JoinedGrows(parts[1..], part);
    }
  }

  function RenderEach(a: Doubles, items: seq<Json>): (r: seq<Text>)
    ensures |r| == |items| && forall i | 0 <= i < |items| :: r[i] == Render(a, items[i])
  {
    seq(|items|, i requires 0 <= i < |items| => Render(a, items[i]))
  }

  function PairEach(a: Doubles, members: seq<Entry<Json>>): (r: seq<Text>)
    ensures |r| == |members|
    ensures forall i | 0 <= i < |members| ::
              r[i] == Pair(Entry(members[i].key, Render(a, members[i].value)))
  {
    Pairs(Mapped(members, v => Render(a, v)))
  }

  /** Between two texts an object's members were written, between braces and with commas: each once,
      and of any two the one whose key's UTF-16 code units come before the other's is the first. */
  ghost predicate WrittenInOrder(a: Doubles, members: seq<Entry<Json>>, before: Text, after: Text) {
    exists sorted: seq<Entry<Json>> ::
      && SameEntries(sorted, members) && RisesByCodeUnits(sorted)
      && after == before + [LBRACE] + Joined(PairEach(a, sorted)) + [RBRACE]
  }

  /** `_serialize`: it goes through exactly when the value is accepted at its depth, and then has
      appended the value's canonical text. */
  method Serialize(a: Doubles, value: Json, written: Text, depth: nat) returns (out: Option<Text>)
    ensures out.Some? <==> Accepts(a, value, depth)
    ensures out.Some? ==> out.value == written + Render(a, value)
    ensures out.Some? && value.Obj? && Distinct(value.members) && KeysAreStrings(value.members) ==>
              WrittenInOrder(a, value.members, written, out.value)
    decreases value, 1
  {
    if depth > MAX_DEPTH {
      return None;
    }
    match value
    case Null =>
      out := Some(written + NULL_TEXT);
    case Bool(b) =>
      out := Some(written + if b then TRUE_TEXT else FALSE_TEXT);
    case Str(s) =>
      if exists i | 0 <= i < |s| :: Surrogate(s[i]) {
        return None;
      }
      var literal := DumpsString(s);
      out := Some(written + literal);
    case Num(x) =>
      var text := a.DumpsNumber(x);
      out := if text.Some? then Some(written + text.value) else None;
    case Arr(items) =>
      out := SerializeItems(a, value, written, depth);
    case Obj(members) =>
      out := SerializeMembers(a, value, written, depth);
  }

  lemma NoParts(text: Text, parts: seq<Text>)
    ensures parts[..0] == [] && text + Joined(parts[..0]) == text
  {
  }

  lemma OneMorePart(text: Text, parts: seq<Text>, i: nat, grown: Text)
    requires i < |parts|
    requires grown == text + Joined(parts[..i]) + (if i > 0 then [COMMA] else []) + parts[i]
    ensures grown == text + Joined(parts[..i + 1])
  {
    JoinedGrows(parts[..i], parts[i]);
    assert parts[..i + 1] == parts[..i] + [parts[i]];
  }

  method SerializeItems(a: Doubles, value: Json, written: Text, depth: nat) returns (out: Option<Text>)
    requires value.Arr? && depth <= MAX_DEPTH
    ensures out.Some? <==> Accepts(a, value, depth)
    ensures out.Some? ==> out.value == written + Render(a, value)
    decreases value, 0
  {
    hide Joined;
    var items := value.items;
    ghost var parts := RenderEach(a, items);
    var text := written + [LBRACKET];
    NoParts(text, parts);
    for i := 0 to |items|
      invariant text == written + [LBRACKET] + Joined(parts[..i])
      invariant forall k | 0 <= k < i :: Accepts(a, items[k], depth + 1)
    {
      if i > 0 {
        text := text + [COMMA];
      }
      var next := Serialize(a, items[i], text, depth + 1);
      if next.None? {
        return None;
      }
      text := next.value;
      OneMorePart(written + [LBRACKET], parts, i, text);
    }
    assert parts[..|items|] == parts;
    out := Some(text + [RBRACKET]);
    assert Render(a, value) == [LBRACKET] + Joined(parts) + [RBRACKET];
  }

  method SerializeMembers(a: Doubles, value: Json, written: Text, depth: nat) returns (out: Option<Text>)
    requires value.Obj? && depth <= MAX_DEPTH
    ensures out.Some? <==> Accepts(a, value, depth)
    ensures out.Some? ==> out.value == written + Render(a, value)
    ensures out.Some? && Distinct(value.members) && KeysAreStrings(value.members) ==>
              WrittenInOrder(a, value.members, written, out.value)
    decreases value, 0
  {
    hide Pair, KeyLe, Joined, Render, Quoted, Distinct, KeysAreStrings, WrittenInOrder, Sort, Ordered;
    var members := value.members;
    var sorted := Sort(members);
    SortSorts(members);
    RendersSorted(a, members);
    ghost var parts := PairEach(a, sorted);
    var text := written + [LBRACE];
    NoParts(text, parts);
    for i := 0 to |sorted|
      invariant text == written + [LBRACE] + Joined(parts[..i])
      invariant forall k | 0 <= k < i :: Accepts(a, sorted[k].value, depth + 1)
    {
      if i > 0 {
        text := text + [COMMA];
      }
      ghost var j := Found(members, sorted[i]);
      assert members[j].value < value;
      var key := DumpsString(sorted[i].key);
      var next := Serialize(a, sorted[i].value, text + key + [COLON], depth + 1);
      if next.None? {
        return None;
      }
      Appended(a, sorted[i], text);
      text := next.value;
      OneMorePart(written + [LBRACE], parts, i, text);
    }
    assert parts[..|sorted|] == parts;
    out := Some(text + [RBRACE]);
    if Distinct(members) && KeysAreStrings(members) {
      SortedAreInOrder(a, members, written);
    }
    forall j | 0 <= j < |members| ensures Accepts(a, members[j].value, depth + 1) {
      var k := Found(sorted, members[j]);
    }
  }

  lemma SortedAreInOrder(a: Doubles, members: seq<Entry<Json>>, before: Text)
    requires Distinct(members) && KeysAreStrings(members)
    ensures WrittenInOrder(a, members, before,
                           before + [LBRACE] + Joined(PairEach(a, Sort(members))) + [RBRACE])
  {
    hide RisesByCodeUnits, Joined, PairEach, Distinct, KeysAreStrings;
    SortSorts(members);
    SortRisesByCodeUnits(members);
  }

  lemma Appended(a: Doubles, e: Entry<Json>, text: Text)
    ensures text + Quoted(e.key) + [COLON] + Render(a, e.value)
            == text + Pair(Entry(e.key, Render(a, e.value)))
  {
  }

  lemma {:induction false} RendersSorted(a: Doubles, members: seq<Entry<Json>>)
    ensures Render(a, Obj(members)) == [LBRACE] + Joined(PairEach(a, Sort(members))) + [RBRACE]
  {
    SortMapped(members, v => Render(a, v));
    assert seq(|members|, i requires 0 <= i < |members| => Entry(members[i].key, Render(a, members[i].value)))
        == Mapped(members, v => Render(a, v));
  }

  /** `_reject_duplicates`. */
  method RejectDuplicates<T>(pairs: seq<Entry<T>>) returns (unique: bool)
    ensures unique <==> Distinct(pairs)
  {
    var seen: set<Text> := {};
    for i := 0 to |pairs|
      invariant seen == set k | 0 <= k < i :: pairs[k].key
      invariant Distinct(pairs[..i])
    {
      if pairs[i].key in seen {
        return false;
      }
      seen := seen + {pairs[i].key};
    }
    assert pairs[..|pairs|] == pairs;
    return true;
  }

  // ------------------------------------------------------------------ what can be encoded

  lemma {:induction false} JoinedEncodable(parts: seq<Text>)
    ensures Encodable(Joined(parts)) <==> forall i | 0 <= i < |parts| :: Encodable(parts[i])
    decreases |parts|
  {
    if |parts| > 1 {
      JoinedEncodable(parts[1..]);
      EncodableParts(parts[0] + [COMMA], Joined(parts[1..]));
      EncodableParts(parts[0], [COMMA]);
      assert forall i | 1 <= i < |parts| :: parts[i] == parts[1..][i - 1];
    }
  }

  lemma {:induction false} QuotedEncodable(s: Text)
    requires CodePoints(s)
    ensures Encodable(Quoted(s)) <==> Encodable(s)
  {
    EscapingKeepsEncodable(s);
    EncodableParts([QUOTE] + Body(s), [QUOTE]);
    EncodableParts([QUOTE], Body(s));
  }

  lemma {:induction false} PairEncodable(e: Entry<Text>)
    requires CodePoints(e.key)
    ensures Encodable(Pair(e)) <==> Encodable(e.key) && Encodable(e.value)
  {
    QuotedEncodable(e.key);
    EncodableParts(Quoted(e.key) + [COLON], e.value);
    EncodableParts(Quoted(e.key), [COLON]);
  }

  lemma {:induction false} NumberEncodable(a: Doubles, x: Number)
    requires a.Ieee() && a.Held(x) && a.DumpsNumber(x).Some?
    ensures Encodable(a.DumpsNumber(x).value)
  {
    a.PrintsTheDouble(x);
    DigitsEncodable(a.Value(x).value);
  }

  lemma {:induction false} DigitsEncodable(d: Dec)
    ensures Encodable(DoubleText(d))
  {
    if d.m > 0 {
      hide NatText, RStrip, NatOf, Pow10, Unsigned;
      var all := NatText(d.m);
      StrippedDigits(d.m);
      UnsignedEncodable(RStrip(all), |all| + d.e);
      EncodableParts(if d.neg then [MINUS] else [], Unsigned(RStrip(all), |all| + d.e));
    }
  }

  lemma {:induction false} UnsignedEncodable(digits: Text, n: int)
    requires digits != [] && AllDigits(digits)
    ensures Encodable(Unsigned(digits, n))
  {
    hide NatText;
    var k := |digits|;
    if k <= n <= 21 {
      EncodableParts(digits, Zeros(n - k));
    } else if 0 < n <= 21 {
      EncodableParts(digits[..n] + [DOT], digits[n..]);
      EncodableParts(digits[..n], [DOT]);
    } else if -6 < n <= 0 {
      EncodableParts([ZERO, DOT] + Zeros(-n), digits);
      EncodableParts([ZERO, DOT], Zeros(-n));
    } else {
      var mantissa := if k == 1 then digits else [digits[0], DOT] + digits[1..];
      EncodableParts([digits[0], DOT], digits[1..]);
      var sign := [LOWER_E, if n - 1 >= 0 then PLUS else MINUS];
      EncodableParts(mantissa, sign);
      EncodableParts(mantissa + sign, NatText(if n - 1 >= 0 then n - 1 else -(n - 1)));
    }
  }

  /** A document `_serialize` lets through can be encoded - and so hashed - exactly when none of
      its keys has a lone surrogate: its string values have been checked, its keys have not. */
  lemma {:induction false} EncodableIffKeysAre(a: Doubles, v: Json, depth: nat)
    requires a.Ieee() && Parsed(a, v) && Accepts(a, v, depth)
    ensures Encodable(Render(a, v)) <==> KeysEncodable(v)
    decreases v
  {
    hide DoubleText, Quoted, Encodable;
    match v
    case Str(s) =>
      QuotedEncodable(s);
    case Num(x) =>
      NumberEncodable(a, x);
    case Arr(items) =>
      forall i | 0 <= i < |items| ensures Encodable(Render(a, items[i])) <==> KeysEncodable(items[i]) {
        EncodableIffKeysAre(a, items[i], depth + 1);
      }
      ArrayEncodable(a, items);
    case Obj(members) =>
      forall i | 0 <= i < |members|
        ensures Encodable(Render(a, members[i].value)) <==> KeysEncodable(members[i].value)
      {
        EncodableIffKeysAre(a, members[i].value, depth + 1);
      }
      ObjectEncodable(a, members);
    case _ =>
      WordsEncodable();
  }

  lemma WordsEncodable()
    ensures Encodable(NULL_TEXT) && Encodable(TRUE_TEXT) && Encodable(FALSE_TEXT)
  {
  }

  lemma Bracketed(open: int, inner: Text, close: int)
    requires !Surrogate(open) && !Surrogate(close)
    ensures Encodable([open] + inner + [close]) <==> Encodable(inner)
  {
    EncodableParts([open] + inner, [close]);
    EncodableParts([open], inner);
  }

  lemma {:induction false} ArrayEncodable(a: Doubles, items: seq<Json>)
    requires forall i | 0 <= i < |items| :: Encodable(Render(a, items[i])) <==> KeysEncodable(items[i])
    ensures Encodable(Render(a, Arr(items))) <==> KeysEncodable(Arr(items))
  {
    hide Encodable;
    var parts := RenderEach(a, items);
    JoinedEncodable(parts);
    Bracketed(LBRACKET, Joined(parts), RBRACKET);
    assert Render(a, Arr(items)) == [LBRACKET] + Joined(parts) + [RBRACKET];
    assert forall i | 0 <= i < |items| :: parts[i] == Render(a, items[i]);
  }

  lemma {:induction false} ObjectEncodable(a: Doubles, members: seq<Entry<Json>>)
    requires forall i | 0 <= i < |members| :: CodePoints(members[i].key)
    requires forall i | 0 <= i < |members| ::
               Encodable(Render(a, members[i].value)) <==> KeysEncodable(members[i].value)
    ensures Encodable(Render(a, Obj(members))) <==> KeysEncodable(Obj(members))
  {
    hide Encodable, CodePoints, KeyLe, Pair, Render, Joined;
    var sorted := Sort(members);
    SortSorts(members);
    RendersSorted(a, members);
    var parts := PairEach(a, sorted);
    JoinedEncodable(parts);
    Bracketed(LBRACE, Joined(parts), RBRACE);
    forall k | 0 <= k < |sorted|
      ensures Encodable(parts[k]) <==> Encodable(sorted[k].key) && KeysEncodable(sorted[k].value)
    {
      var i := Found(members, sorted[k]);
      PairEncodable(Entry(sorted[k].key, Render(a, sorted[k].value)));
    }
    if Encodable(Render(a, Obj(members))) {
      forall i | 0 <= i < |members| ensures Encodable(members[i].key) && KeysEncodable(members[i].value) {
        var k := Found(sorted, members[i]);
      }
    }
    if KeysEncodable(Obj(members)) {
      forall k | 0 <= k < |sorted| ensures Encodable(parts[k]) {
        var i := Found(members, sorted[k]);
      }
    }
  }

  /** Keys made of lone surrogates can share a sort key, and then the order they came in decides:
      one document, two texts. Neither can be encoded. */
  lemma {:induction false} LoneSurrogatesKeepTheirOrder(a: Doubles) returns (v: Json, w: Json)
    ensures Same(a, v, w) && Accepts(a, v, 0) && Accepts(a, w, 0)
    ensures Parsed(a, v) && Parsed(a, w)
    ensures Render(a, v) != Render(a, w)
  {
    var pair := Entry([0xD83D, 0xDE00], Bool(true));
    var smile := Entry([0x1F600], Bool(false));
    v, w := Obj([pair, smile]), Obj([smile, pair]);
    hide Render;
    SameEitherWay(a, pair, smile);
    LoneSurrogatesCollide();
    LexLeIsTotal(SortKey(pair.key), SortKey(smile.key));
    StaysPut(pair, smile);
    StaysPut(smile, pair);
    StartsWithKey(a, pair, smile);
    StartsWithKey(a, smile, pair);
  }

  lemma {:induction false} SameEitherWay(a: Doubles, e: Entry<Json>, f: Entry<Json>)
    requires Same(a, e.value, e.value) && Same(a, f.value, f.value)
    ensures Same(a, Obj([e, f]), Obj([f, e]))
  {
    var v, w := Obj([e, f]), Obj([f, e]);
    assert w.members[1] == e && w.members[0] == f;
    forall i | 0 <= i < 2 ensures HasTwin(a, v, i, w) && IsTwin(a, v, w, i) {
      assert v.members[i].key == w.members[1 - i].key
          && Same(a, v.members[i].value, w.members[1 - i].value);
      assert v.members[1 - i].key == w.members[i].key
          && Same(a, v.members[1 - i].value, w.members[i].value);
    }
  }

  lemma {:induction false} StaysPut(e: Entry<Json>, f: Entry<Json>)
    requires KeyLe(e.key, f.key)
    ensures Sort([e, f]) == [e, f]
  {
    assert [f][1..] == [];
    assert Sort([f]) == [f];
    assert [e, f][1..] == [f];
  }

  lemma {:induction false} StartsWithKey(a: Doubles, e: Entry<Json>, f: Entry<Json>)
    requires Sort([e, f]) == [e, f] && e.key != [] && e.key[0] >= 128
    ensures |Render(a, Obj([e, f]))| > 2 && Render(a, Obj([e, f]))[2] == e.key[0]
  {
    RendersSorted(a, [e, f]);
    BodyFromTheFront(e.key);
    var parts := PairEach(a, [e, f]);
    assert parts[0][1] == e.key[0];
    assert Joined(parts)[1] == e.key[0];
  }
}
