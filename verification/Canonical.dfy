/** RFC 8785 over parsed documents, and the strict parser whose documents it is meant for. */
module Canonical {
  import opened Basics
  import opened Numerals
  import opened Numbers
  import opened JsonStrings
  import opened MemberOrder

  const COMMA := 44
  const COLON := 58
  const LBRACKET := 91
  const RBRACKET := 93
  const LBRACE := 123
  const RBRACE := 125
  const NULL_TEXT := [110, 117, 108, 108]
  const TRUE_TEXT := [116, 114, 117, 101]
  const FALSE_TEXT := [102, 97, 108, 115, 101]
  const MAX_DEPTH := 100

  /** A parsed document. A dict keeps its members in the order they came, under different keys. */
  datatype Json =
    | Null
    | Bool(b: bool)
    | Str(s: Text)
    | Num(x: Number)
    | Arr(items: seq<Json>)
    | Obj(members: seq<Entry<Json>>)

  // ------------------------------------------------------------------ writing

  /** What `_serialize` lets through at a depth: not too deep, no lone surrogate in a string
      value - keys are not looked at - and only numbers that are finite doubles. */
  predicate Accepts(a: Doubles, v: Json, depth: nat)
    decreases v
  {
    && depth <= MAX_DEPTH
    && match v
       case Str(s) => Encodable(s)
       case Num(x) => a.DumpsNumber(x).Some?
       case Arr(items) => forall i | 0 <= i < |items| :: Accepts(a, items[i], depth + 1)
       case Obj(members) => forall i | 0 <= i < |members| :: Accepts(a, members[i].value, depth + 1)
       case _ => true
  }

  function Joined(parts: seq<Text>): Text {
    if parts == [] then []
    else if |parts| == 1 then parts[0]
    else parts[0] + [COMMA] + Joined(parts[1..])
  }

  function Pair(e: Entry<Text>): Text {
    Quoted(e.key) + [COLON] + e.value
  }

  function Pairs(s: seq<Entry<Text>>): (r: seq<Text>)
    ensures |r| == |s| && forall i | 0 <= i < |s| :: r[i] == Pair(s[i])
  {
    seq(|s|, i requires 0 <= i < |s| => Pair(s[i]))
  }

  /** The canonical text. */
  function Render(a: Doubles, v: Json): Text
    decreases v
  {
    match v
    case Null => NULL_TEXT
    case Bool(b) => if b then TRUE_TEXT else FALSE_TEXT
    case Str(s) => Quoted(s)
    case Num(x) => if a.DumpsNumber(x).Some? then a.DumpsNumber(x).value else []
    case Arr(items) =>
      [LBRACKET] + Joined(seq(|items|, i requires 0 <= i < |items| => Render(a, items[i]))) + [RBRACKET]
    case Obj(members) =>
      var texts := seq(|members|, i requires 0 <= i < |members| =>
                         Entry(members[i].key, Render(a, members[i].value)));
      [LBRACE] + Joined(Pairs(Sort(texts))) + [RBRACE]
  }

  /** The document its canonical text stands for: members in order, every number its double. */
  function Norm(a: Doubles, v: Json): Json
    decreases v
  {
    match v
    case Num(x) => if a.Value(x).Some? then Num(ReadNumber(a.Value(x).value)) else v
    case Arr(items) => Arr(seq(|items|, i requires 0 <= i < |items| => Norm(a, items[i])))
    case Obj(members) =>
      Obj(Sort(seq(|members|, i requires 0 <= i < |members| =>
                     Entry(members[i].key, Norm(a, members[i].value)))))
    case _ => v
  }

  /** What Python's types and the parser guarantee of a document: code points are code points,
      a float is a double, and the keys of a dict are different. */
  ghost predicate Parsed(a: Doubles, v: Json)
    decreases v
  {
    match v
    case Str(s) => CodePoints(s)
    case Num(x) => a.Held(x)
    case Arr(items) => forall i | 0 <= i < |items| :: Parsed(a, items[i])
    case Obj(members) =>
      && Distinct(members)
      && (forall i | 0 <= i < |members| :: CodePoints(members[i].key))
      && (forall i | 0 <= i < |members| :: Parsed(a, members[i].value))
    case _ => true
  }

  // ------------------------------------------------------------------ reading

  function Skip(s: Text): (r: Text)
    ensures |r| <= |s|
  {
    if s != [] && s[0] in {32, 9, 10, 13} then Skip(s[1..]) else s
  }

  /** One value, with duplicate keys refused; NaN and the infinities begin no value. */
  function ScanValue(a: Doubles, s: Text): (r: Option<(Json, Text)>)
    ensures r.Some? ==> |r.value.1| < |s|
    decreases |s|, 1
  {
    if s == [] then None
    else if s[0] == QUOTE then
      match ScanBody(s[1..])
      case None => None
      case Some((cs, rest)) => Some((Str(cs), rest))
    else if s[0] == LBRACE then
      var t := Skip(s[1..]);
      if t != [] && t[0] == RBRACE then Some((Obj([]), t[1..]))
      else
        match ScanMembers(a, t)
        case None => None
        case Some((members, rest)) => if Distinct(members) then Some((Obj(members), rest)) else None
    else if s[0] == LBRACKET then
      var t := Skip(s[1..]);
      if t != [] && t[0] == RBRACKET then Some((Arr([]), t[1..]))
      else
        match ScanItems(a, t)
        case None => None
        case Some((items, rest)) => Some((Arr(items), rest))
    else if NULL_TEXT <= s then Some((Null, s[4..]))
    else if TRUE_TEXT <= s then Some((Bool(true), s[4..]))
    else if FALSE_TEXT <= s then Some((Bool(false), s[5..]))
    else
      match ScanNumber(s)
      case None => None
      case Some((token, rest)) => Some((Num(a.Read(token)), rest))
  }

  function ScanItems(a: Doubles, s: Text): (r: Option<(seq<Json>, Text)>)
    ensures r.Some? ==> |r.value.1| < |s|
    decreases |s|, 2
  {
    match ScanValue(a, s)
    case None => None
    case Some((v, u)) =>
      var t := Skip(u);
      if t == [] then None
      else if t[0] == RBRACKET then Some(([v], t[1..]))
      else if t[0] != COMMA then None
      else
        match ScanItems(a, Skip(t[1..]))
        case None => None
        case Some((vs, rest)) => Some(([v] + vs, rest))
  }

  /** A key, its colon and its value. */
  function ScanMember(a: Doubles, s: Text): (r: Option<(Entry<Json>, Text)>)
    ensures r.Some? ==> |r.value.1| < |s|
    decreases |s|, 2
  {
    if s == [] || s[0] != QUOTE then None
    else
      match ScanBody(s[1..])
      case None => None
      case Some((key, u)) =>
        var t := Skip(u);
        if t == [] || t[0] != COLON then None
        else
          match ScanValue(a, Skip(t[1..]))
          case None => None
          case Some((v, rest)) => Some((Entry(key, v), rest))
  }

  function ScanMembers(a: Doubles, s: Text): (r: Option<(seq<Entry<Json>>, Text)>)
    ensures r.Some? ==> |r.value.1| < |s|
    decreases |s|, 3
  {
    match ScanMember(a, s)
    case None => None
    case Some((e, u)) =>
      var t := Skip(u);
      if t == [] then None
      else if t[0] == RBRACE then Some(([e], t[1..]))
      else if t[0] != COMMA then None
      else
        match ScanMembers(a, Skip(t[1..]))
        case None => None
        case Some((es, rest)) => Some(([e] + es, rest))
  }

  /** `parse_strict`. */
  function ParseStrict(a: Doubles, text: Text): Option<Json> {
    match ScanValue(a, Skip(text))
    case None => None
    case Some((v, rest)) => if Skip(rest) == [] then Some(v) else None
  }

  // ------------------------------------------------------------------ there and back

  /** What may stand after a value. */
  predicate Closes(rest: Text) {
    rest == [] || rest[0] in {COMMA, RBRACKET, RBRACE}
  }

  /** Where a value's text begins. */
  predicate Opens(s: Text) {
    && s != []
    && (s[0] in {QUOTE, LBRACE, LBRACKET, MINUS, 110, 116, 102} || IsDigit(s[0]))
  }

  lemma {:induction false} NumberBack(a: Doubles, x: Number, rest: Text)
    requires a.Ieee() && a.Held(x) && a.DumpsNumber(x).Some? && Closes(rest)
    ensures a.Value(x).Some?
    ensures var text := a.DumpsNumber(x).value;
            && text != [] && (text[0] == MINUS || IsDigit(text[0]))
            && ScanNumber(text + rest).Some?
            && ScanNumber(text + rest).value.1 == rest
            && a.Read(ScanNumber(text + rest).value.0) == ReadNumber(a.Value(x).value)
  {
    hide ScanNumber, DoubleText, ReadNumber;
    hide Doubles.Value, Doubles.DumpsNumber, Doubles.Read;
    var token := a.ReadsBack(x, rest);
    TextStarts(a.Value(x).value);
  }

  /** Followed by anything that may follow a value, the text is read as exactly this one. */
  ghost predicate ReadsAs(a: Doubles, text: Text, v: Json) {
    Opens(text) && forall rest | Closes(rest) :: ScanValue(a, text + rest) == Some((v, rest))
  }

  lemma OpensHere(text: Text, rest: Text)
    requires Opens(text)
    ensures Skip(text + rest) == text + rest && text + rest != []
    ensures (text + rest)[0] == text[0] && (text + rest)[0] !in {RBRACKET, RBRACE}
  {
  }

  lemma {:induction false} ItemsBack(a: Doubles, parts: seq<Text>, vs: seq<Json>, rest: Text)
    requires |parts| == |vs| > 0 && forall i | 0 <= i < |parts| :: ReadsAs(a, parts[i], vs[i])
    ensures Opens(Joined(parts))
    ensures ScanItems(a, Joined(parts) + ([RBRACKET] + rest)) == Some((vs, rest))
    decreases |parts|
  {
    hide ScanValue;
    var close := [RBRACKET] + rest;
    if |parts| == 1 {
      assert ScanValue(a, parts[0] + close) == Some((vs[0], close));
      assert Skip(close) == close && close[1..] == rest;
      assert [vs[0]] == vs;
    } else {
      ItemsBack(a, parts[1..], vs[1..], rest);
      var after := [COMMA] + (Joined(parts[1..]) + close);
      assert Joined(parts) + close == parts[0] + after;
      assert ScanValue(a, parts[0] + after) == Some((vs[0], after));
      assert Skip(after) == after && after[1..] == Joined(parts[1..]) + close;
      OpensHere(Joined(parts[1..]), close);
      assert [vs[0]] + vs[1..] == vs;
    }
  }

  lemma {:induction false} MemberBack(a: Doubles, e: Entry<Text>, n: Entry<Json>, rest: Text)
    requires e.key == n.key && CodePoints(e.key) && ReadsAs(a, e.value, n.value) && Closes(rest)
    ensures Opens(Pair(e)) && ScanMember(a, Pair(e) + rest) == Some((n, rest))
  {
    hide ScanValue, Body;
    var s := Pair(e) + rest;
    var value := e.value + rest;
    var colon := [COLON] + value;
    assert s[1..] == Body(e.key) + ([QUOTE] + colon);
    StringReadsBack(e.key, colon);
    assert Skip(colon) == colon && colon[1..] == value;
    OpensHere(e.value, rest);
    assert ScanValue(a, value) == Some((n.value, rest));
  }

  lemma {:induction false} MembersBack(a: Doubles, es: seq<Entry<Text>>, ns: seq<Entry<Json>>, rest: Text)
    requires |es| == |ns| > 0
    requires forall i | 0 <= i < |es| ::
               es[i].key == ns[i].key && CodePoints(es[i].key) && ReadsAs(a, es[i].value, ns[i].value)
    ensures Opens(Joined(Pairs(es)))
    ensures ScanMembers(a, Joined(Pairs(es)) + ([RBRACE] + rest)) == Some((ns, rest))
    decreases |es|
  {
    hide ScanMember, ReadsAs, Pair, CodePoints;
    var (parts, close) := (Pairs(es), [RBRACE] + rest);
    if |es| == 1 {
      MemberBack(a, es[0], ns[0], close);
      assert Skip(close) == close && close[1..] == rest;
      assert [ns[0]] == ns;
    } else {
      MembersBack(a, es[1..], ns[1..], rest);
      assert parts[1..] == Pairs(es[1..]);
      var after := [COMMA] + (Joined(parts[1..]) + close);
      MemberBack(a, es[0], ns[0], after);
      assert Joined(parts) + close == parts[0] + after;
      assert Skip(after) == after && after[1..] == Joined(parts[1..]) + close;
      OpensHere(Joined(parts[1..]), close);
      assert [ns[0]] + ns[1..] == ns;
    }
  }

  /** A list's text, from its items'. */
  lemma {:induction false} ArrayBack(a: Doubles, parts: seq<Text>, vs: seq<Json>, rest: Text)
    requires |parts| == |vs| && forall i | 0 <= i < |parts| :: ReadsAs(a, parts[i], vs[i])
    ensures ScanValue(a, [LBRACKET] + Joined(parts) + [RBRACKET] + rest) == Some((Arr(vs), rest))
  {
    hide ScanItems, ReadsAs;
    var close := [RBRACKET] + rest;
    var s := [LBRACKET] + Joined(parts) + [RBRACKET] + rest;
    assert s[1..] == Joined(parts) + close;
    if parts == [] {
      assert s[1..] == close && close[1..] == rest;
    } else {
      ItemsBack(a, parts, vs, rest);
      OpensHere(Joined(parts), close);
    }
  }

  lemma {:induction false} ObjectBack(a: Doubles, es: seq<Entry<Text>>, ns: seq<Entry<Json>>, rest: Text)
    requires |es| == |ns| && Distinct(ns)
    requires forall i | 0 <= i < |es| ::
               es[i].key == ns[i].key && CodePoints(es[i].key) && ReadsAs(a, es[i].value, ns[i].value)
    ensures ScanValue(a, [LBRACE] + Joined(Pairs(es)) + [RBRACE] + rest) == Some((Obj(ns), rest))
  {
    hide ScanMembers, ReadsAs, CodePoints;
    var close := [RBRACE] + rest;
    var s := [LBRACE] + Joined(Pairs(es)) + [RBRACE] + rest;
    assert s[1..] == Joined(Pairs(es)) + close;
    if es == [] {
      assert s[1..] == close && close[1..] == rest;
    } else {
      MembersBack(a, es, ns, rest);
      OpensHere(Joined(Pairs(es)), close);
    }
  }

  /** A dict's members as its text and its normal form have them. */
  lemma {:induction false} MembersOf(a: Doubles, members: seq<Entry<Json>>)
    returns (sorted: seq<Entry<Json>>)
    requires Distinct(members)
    ensures SameEntries(sorted, members) && Distinct(sorted) && Ordered(sorted)
    ensures Render(a, Obj(members))
            == [LBRACE] + Joined(Pairs(Mapped(sorted, v => Render(a, v)))) + [RBRACE]
    ensures Norm(a, Obj(members)) == Obj(Mapped(sorted, v => Norm(a, v)))
  {
    sorted := Sort(members);
    SortSorts(members);
    SortKeepsDistinct(members);
    var (f, g) := (v => Render(a, v), v => Norm(a, v));
    SortMapped(members, f);
    SortMapped(members, g);
    assert seq(|members|, i requires 0 <= i < |members| => Entry(members[i].key, Render(a, members[i].value)))
        == Mapped(members, f);
    assert seq(|members|, i requires 0 <= i < |members| => Entry(members[i].key, Norm(a, members[i].value)))
        == Mapped(members, g);
  }

  /** The text of an accepted document reads back, whatever may follow it, as that document with
      its members in order and every number its double. */
  lemma {:induction false} RendersBack(a: Doubles, v: Json, depth: nat, rest: Text)
    requires a.Ieee() && Parsed(a, v) && Accepts(a, v, depth) && Closes(rest)
    ensures Opens(Render(a, v)) && ScanValue(a, Render(a, v) + rest) == Some((Norm(a, v), rest))
    decreases v
  {
    hide ScanValue, ReadsAs;
    match v
    case Arr(items) =>
      var parts := seq(|items|, i requires 0 <= i < |items| => Render(a, items[i]));
      var vs := seq(|items|, i requires 0 <= i < |items| => Norm(a, items[i]));
      forall i | 0 <= i < |items| ensures ReadsAs(a, parts[i], vs[i]) {
        RendersBack(a, items[i], depth + 1, []);
        forall r | Closes(r) ensures ScanValue(a, parts[i] + r) == Some((vs[i], r)) {
          RendersBack(a, items[i], depth + 1, r);
        }
        AsRead(a, parts[i], vs[i]);
      }
      ArrayBack(a, parts, vs, rest);
    case Obj(members) =>
      forall i | 0 <= i < |members|
        ensures ReadsAs(a, Render(a, members[i].value), Norm(a, members[i].value))
      {
        RendersBack(a, members[i].value, depth + 1, []);
        forall r | Closes(r)
          ensures ScanValue(a, Render(a, members[i].value) + r) == Some((Norm(a, members[i].value), r))
        {
          RendersBack(a, members[i].value, depth + 1, r);
        }
        AsRead(a, Render(a, members[i].value), Norm(a, members[i].value));
      }
      ObjectRendersBack(a, members, rest);
    case _ =>
      ScalarBack(a, v, depth, rest);
  }

  lemma AsRead(a: Doubles, text: Text, v: Json)
    requires Opens(text) && forall rest | Closes(rest) :: ScanValue(a, text + rest) == Some((v, rest))
    ensures ReadsAs(a, text, v)
  {
    hide ScanValue;
  }

  lemma {:induction false} ScalarBack(a: Doubles, v: Json, depth: nat, rest: Text)
    requires a.Ieee() && Parsed(a, v) && Accepts(a, v, depth) && Closes(rest)
    requires !v.Arr? && !v.Obj?
    ensures Opens(Render(a, v)) && ScanValue(a, Render(a, v) + rest) == Some((Norm(a, v), rest))
  {
    hide ScanValue, Doubles.DumpsNumber, Doubles.Value, ReadNumber, Body;
    match v
    case Str(cs) => StringBack(a, cs, rest);
    case Num(x) => NumBack(a, x, rest);
    case Null => WordBack(a, v, rest);
    case Bool(b) => WordBack(a, v, rest);
    case _ =>
  }

  lemma {:induction false} WordBack(a: Doubles, v: Json, rest: Text)
    requires v.Null? || v.Bool?
    ensures Opens(Render(a, v)) && ScanValue(a, Render(a, v) + rest) == Some((v, rest))
  {
    hide ScanNumber, ScanBody, ScanItems, ScanMembers;
    var word := Render(a, v);
    var s := word + rest;
    assert s[..|word|] == word && s[|word|..] == rest;
    assert s[0] == word[0];
  }

  lemma {:induction false} NumBack(a: Doubles, x: Number, rest: Text)
    requires a.Ieee() && a.Held(x) && a.DumpsNumber(x).Some? && Closes(rest)
    ensures Opens(Render(a, Num(x)))
    ensures ScanValue(a, Render(a, Num(x)) + rest) == Some((Norm(a, Num(x)), rest))
  {
    hide Doubles.DumpsNumber, Doubles.Read, Doubles.Value, ReadNumber, ScanNumber;
    hide ScanBody, ScanItems, ScanMembers;
    NumberBack(a, x, rest);
    var s := Render(a, Num(x)) + rest;
    assert s[0] == Render(a, Num(x))[0];
  }

  lemma {:induction false} StringBack(a: Doubles, cs: Text, rest: Text)
    requires CodePoints(cs)
    ensures Opens(Quoted(cs)) && ScanValue(a, Quoted(cs) + rest) == Some((Str(cs), rest))
  {
    hide Body, CodePoints, ScanBody;
    assert (Quoted(cs) + rest)[1..] == Body(cs) + ([QUOTE] + rest);
    StringReadsBack(cs, rest);
  }

  lemma {:induction false} ObjectRendersBack(a: Doubles, members: seq<Entry<Json>>, rest: Text)
    requires Distinct(members) && forall i | 0 <= i < |members| :: CodePoints(members[i].key)
    requires forall i | 0 <= i < |members| ::
               ReadsAs(a, Render(a, members[i].value), Norm(a, members[i].value))
    ensures Opens(Render(a, Obj(members)))
    ensures ScanValue(a, Render(a, Obj(members)) + rest) == Some((Norm(a, Obj(members)), rest))
  {
    hide ScanValue, ReadsAs, CodePoints, Render, Norm;
    var sorted := MembersOf(a, members);
    ObjectBack(a, Mapped(sorted, v => Render(a, v)), Mapped(sorted, v => Norm(a, v)), rest);
  }

  // ------------------------------------------------------------------ one document, one text

  /** The same JSON document: members under the same keys, in whatever order, and numbers that
      are the same double. */
  ghost predicate Same(a: Doubles, v: Json, w: Json)
    decreases v, 1
  {
    match (v, w)
    case (Num(x), Num(y)) => a.Value(x) == a.Value(y)
    case (Arr(xs), Arr(ys)) => |xs| == |ys| && forall i | 0 <= i < |xs| :: Same(a, xs[i], ys[i])
    case (Obj(ms), Obj(ns)) =>
      && |ms| == |ns|
      && (forall i | 0 <= i < |ms| :: HasTwin(a, v, i, w))
      && (forall j | 0 <= j < |ns| :: IsTwin(a, v, w, j))
    case _ => v == w
  }

  /** A member of the one is a member of the other. */
  ghost predicate HasTwin(a: Doubles, v: Json, i: nat, w: Json)
    requires v.Obj? && w.Obj? && i < |v.members|
    decreases v, 0
  {
    exists j | 0 <= j < |w.members| ::
      v.members[i].key == w.members[j].key && Same(a, v.members[i].value, w.members[j].value)
  }

  ghost predicate IsTwin(a: Doubles, v: Json, w: Json, j: nat)
    requires v.Obj? && w.Obj? && j < |w.members|
    decreases v, 0
  {
    exists i | 0 <= i < |v.members| ::
      v.members[i].key == w.members[j].key && Same(a, v.members[i].value, w.members[j].value)
  }

  /** No key anywhere has a lone surrogate. */
  predicate KeysEncodable(v: Json)
    decreases v
  {
    match v
    case Arr(items) => forall i | 0 <= i < |items| :: KeysEncodable(items[i])
    case Obj(members) =>
      && (forall i | 0 <= i < |members| :: Encodable(members[i].key))
      && (forall i | 0 <= i < |members| :: KeysEncodable(members[i].value))
    case _ => true
  }

  lemma {:induction false} NumberKept(a: Doubles, x: Number)
    requires a.Ieee() && a.Held(x) && a.DumpsNumber(x).Some?
    ensures a.Value(x).Some?
    ensures var y := ReadNumber(a.Value(x).value);
            a.Held(y) && a.Value(y) == a.Value(x) && a.DumpsNumber(y) == a.DumpsNumber(x)
  {
    hide ScanNumber, DoubleText, Doubles.DumpsNumber;
    var token := a.ReadsBack(x, []);
    a.PrintsTheDouble(x);
    a.PrintsTheDouble(ReadNumber(a.Value(x).value));
  }

  ghost predicate Agree(a: Doubles, v: Json, w: Json) {
    Norm(a, v) == Norm(a, w) <==> Same(a, v, w)
  }

  /** Two accepted documents with well-formed keys have one normal form exactly when they are the
      same document. */
  lemma {:induction false} NormTells(a: Doubles, v: Json, w: Json, depth: nat, other: nat)
    requires a.Ieee() && Parsed(a, v) && Parsed(a, w) && KeysEncodable(v) && KeysEncodable(w)
    requires Accepts(a, v, depth) && Accepts(a, w, other)
    ensures Agree(a, v, w)
    decreases v
  {
    match (v, w)
    case (Num(x), Num(y)) =>
      NumberKept(a, x);
      NumberKept(a, y);
    case (Arr(xs), Arr(ys)) =>
      if |xs| == |ys| {
        forall i | 0 <= i < |xs| ensures Agree(a, xs[i], ys[i]) {
          NormTells(a, xs[i], ys[i], depth + 1, other + 1);
        }
        ArraysTell(a, xs, ys);
      } else {
        assert |Norm(a, v).items| != |Norm(a, w).items|;
      }
    case (Obj(ms), Obj(ns)) =>
      forall i, j | 0 <= i < |ms| && 0 <= j < |ns| ensures Agree(a, ms[i].value, ns[j].value) {
        NormTells(a, ms[i].value, ns[j].value, depth + 1, other + 1);
      }
      ObjectsTell(a, ms, ns);
    case _ =>
  }

  lemma {:induction false} ArraysTell(a: Doubles, xs: seq<Json>, ys: seq<Json>)
    requires |xs| == |ys| && forall i | 0 <= i < |xs| :: Agree(a, xs[i], ys[i])
    ensures Agree(a, Arr(xs), Arr(ys))
  {
    var (p, q) := (Norm(a, Arr(xs)).items, Norm(a, Arr(ys)).items);
    if p == q {
      forall i | 0 <= i < |xs| ensures Same(a, xs[i], ys[i]) {
        assert p[i] == q[i];
      }
    }
  }

  ghost predicate AllAgree(a: Doubles, ms: seq<Entry<Json>>, ns: seq<Entry<Json>>) {
    forall i, j | 0 <= i < |ms| && 0 <= j < |ns| :: Agree(a, ms[i].value, ns[j].value)
  }

  lemma {:induction false} Found<T>(s: seq<T>, x: T) returns (i: nat)
    requires x in s
    ensures i < |s| && s[i] == x
  {
    i :| 0 <= i < |s| && s[i] == x;
  }

  /** Two dicts' members with the same normal forms in the same order are each other's twins. */
  lemma {:induction false} EqualNormsMatch(
      a: Doubles, ms: seq<Entry<Json>>, ns: seq<Entry<Json>>, sm: seq<Entry<Json>>, sn: seq<Entry<Json>>)
    requires AllAgree(a, ms, ns) && SameEntries(sm, ms) && SameEntries(sn, ns)
    requires Mapped(sm, v => Norm(a, v)) == Mapped(sn, v => Norm(a, v))
    ensures Same(a, Obj(ms), Obj(ns))
  {
    hide Norm;
    var (p, q) := (Mapped(sm, v => Norm(a, v)), Mapped(sn, v => Norm(a, v)));
    assert |p| == |q|;
    forall i | 0 <= i < |ms| ensures HasTwin(a, Obj(ms), i, Obj(ns)) {
      var k := Found(sm, ms[i]);
      assert p[k] == q[k];
      var j := Found(ns, sn[k]);
      assert Agree(a, ms[i].value, ns[j].value);
    }
    forall j | 0 <= j < |ns| ensures IsTwin(a, Obj(ms), Obj(ns), j) {
      var k := Found(sn, ns[j]);
      assert p[k] == q[k];
      var i := Found(ms, sm[k]);
      assert Agree(a, ms[i].value, ns[j].value);
    }
  }

  /** Twins' normal forms are the same entries. */
  lemma {:induction false} MatchedNormsEqual(
      a: Doubles, ms: seq<Entry<Json>>, ns: seq<Entry<Json>>, sm: seq<Entry<Json>>, sn: seq<Entry<Json>>)
    requires AllAgree(a, ms, ns) && SameEntries(sm, ms) && SameEntries(sn, ns)
    requires Same(a, Obj(ms), Obj(ns))
    ensures SameEntries(Mapped(sm, v => Norm(a, v)), Mapped(sn, v => Norm(a, v)))
  {
    hide Norm;
    var (p, q) := (Mapped(sm, v => Norm(a, v)), Mapped(sn, v => Norm(a, v)));
    forall k | 0 <= k < |p| ensures p[k] in q {
      var i := Found(ms, sm[k]);
      assert HasTwin(a, Obj(ms), i, Obj(ns));
      var j: nat :| j < |ns| && ms[i].key == ns[j].key && Same(a, ms[i].value, ns[j].value);
      assert Agree(a, ms[i].value, ns[j].value);
      var l := Found(sn, ns[j]);
      assert q[l] == p[k];
    }
    forall k | 0 <= k < |q| ensures q[k] in p {
      var j := Found(ns, sn[k]);
      assert IsTwin(a, Obj(ms), Obj(ns), j);
      var i: nat :| i < |ms| && ms[i].key == ns[j].key && Same(a, ms[i].value, ns[j].value);
      assert Agree(a, ms[i].value, ns[j].value);
      var l := Found(sm, ms[i]);
      assert p[l] == q[k];
    }
  }

  lemma {:induction false} ObjectsTell(a: Doubles, ms: seq<Entry<Json>>, ns: seq<Entry<Json>>)
    requires Distinct(ms) && Distinct(ns) && KeysAreStrings(ms) && KeysAreStrings(ns)
    requires AllAgree(a, ms, ns)
    ensures Agree(a, Obj(ms), Obj(ns))
  {
    hide Norm, Same, Render, AllAgree, KeysAreStrings, Ordered;
    var sm := MembersOf(a, ms);
    var sn := MembersOf(a, ns);
    if Norm(a, Obj(ms)) == Norm(a, Obj(ns)) {
      EqualNormsMatch(a, ms, ns, sm, sn);
    }
    if Same(a, Obj(ms), Obj(ns)) {
      MatchedNormsEqual(a, ms, ns, sm, sn);
      MappedInOrder(ms, sm, v => Norm(a, v));
      MappedInOrder(ns, sn, v => Norm(a, v));
      OneOrder(Mapped(sm, v => Norm(a, v)), Mapped(sn, v => Norm(a, v)));
    }
  }

  lemma MappedInOrder(s: seq<Entry<Json>>, t: seq<Entry<Json>>, f: Json -> Json)
    requires KeysAreStrings(s) && SameEntries(t, s) && Ordered(t) && Distinct(t)
    ensures KeysAreStrings(Mapped(t, f)) && Ordered(Mapped(t, f)) && Distinct(Mapped(t, f))
  {
    hide KeyLe, CodePoints, Encodable;
    StringsInBoth(s, t);
  }

  lemma StringsInBoth(s: seq<Entry<Json>>, t: seq<Entry<Json>>)
    requires KeysAreStrings(s) && SameEntries(t, s)
    ensures KeysAreStrings(t)
  {
    hide CodePoints, Encodable;
    forall k | 0 <= k < |t| ensures CodePoints(t[k].key) && Encodable(t[k].key) {
      var i :| 0 <= i < |s| && s[i] == t[k];
    }
  }

  // ------------------------------------------------------------------ the theorems

  /** Canonical text reads back as the document it was made from, members in order and every
      number its double. */
  lemma {:induction false} RoundTrip(a: Doubles, v: Json)
    requires a.Ieee() && Parsed(a, v) && Accepts(a, v, 0)
    ensures ParseStrict(a, Render(a, v)) == Some(Norm(a, v))
  {
    hide ScanValue, Render, Norm;
    RendersBack(a, v, 0, []);
    OpensHere(Render(a, v), []);
    assert Render(a, v) + [] == Render(a, v);
  }

  /** Canonicalising again changes nothing: the normal form has the same text. */
  lemma {:induction false} NormRendersSame(a: Doubles, v: Json, depth: nat)
    requires a.Ieee() && Parsed(a, v) && Accepts(a, v, depth)
    ensures Render(a, Norm(a, v)) == Render(a, v)
    ensures Parsed(a, Norm(a, v)) && Accepts(a, Norm(a, v), depth)
    decreases v
  {
    match v
    case Num(x) =>
      NumberKept(a, x);
    case Arr(items) =>
      forall i | 0 <= i < |items|
        ensures Render(a, Norm(a, items[i])) == Render(a, items[i])
        ensures Parsed(a, Norm(a, items[i])) && Accepts(a, Norm(a, items[i]), depth + 1)
      {
        NormRendersSame(a, items[i], depth + 1);
      }
      var ns := Norm(a, v).items;
      assert seq(|ns|, i requires 0 <= i < |ns| => Render(a, ns[i]))
          == seq(|items|, i requires 0 <= i < |items| => Render(a, items[i]));
    case Obj(members) =>
      forall i | 0 <= i < |members|
        ensures Render(a, Norm(a, members[i].value)) == Render(a, members[i].value)
        ensures Parsed(a, Norm(a, members[i].value)) && Accepts(a, Norm(a, members[i].value), depth + 1)
      {
        NormRendersSame(a, members[i].value, depth + 1);
      }
      ObjectRendersSame(a, members, depth);
    case _ =>
  }

  lemma {:induction false} ObjectRendersSame(a: Doubles, members: seq<Entry<Json>>, depth: nat)
    requires Distinct(members) && forall i | 0 <= i < |members| :: CodePoints(members[i].key)
    requires depth <= MAX_DEPTH
    requires forall i | 0 <= i < |members| ::
               && Render(a, Norm(a, members[i].value)) == Render(a, members[i].value)
               && Parsed(a, Norm(a, members[i].value)) && Accepts(a, Norm(a, members[i].value), depth + 1)
    ensures var n := Norm(a, Obj(members));
            Render(a, n) == Render(a, Obj(members)) && Parsed(a, n) && Accepts(a, n, depth)
  {
    hide Render, Norm, CodePoints, KeyLe;
    var sorted := MembersOf(a, members);
    var ns := Mapped(sorted, v => Norm(a, v));
    forall k | 0 <= k < |sorted|
      ensures Render(a, ns[k].value) == Render(a, sorted[k].value)
      ensures Parsed(a, ns[k].value) && Accepts(a, ns[k].value, depth + 1) && CodePoints(ns[k].key)
    {
      var i :| 0 <= i < |members| && members[i] == sorted[k];
    }
    SortedStays(ns);
    RendersInOrder(a, ns);
    assert Mapped(ns, v => Render(a, v)) == Mapped(sorted, v => Render(a, v));
  }

  lemma {:induction false} RendersInOrder(a: Doubles, ns: seq<Entry<Json>>)
    requires Sort(ns) == ns
    ensures Render(a, Obj(ns)) == [LBRACE] + Joined(Pairs(Mapped(ns, v => Render(a, v)))) + [RBRACE]
  {
    SortMapped(ns, v => Render(a, v));
    assert seq(|ns|, i requires 0 <= i < |ns| => Entry(ns[i].key, Render(a, ns[i].value)))
        == Mapped(ns, v => Render(a, v));
  }

  /** Two accepted documents with well-formed keys have the same canonical text exactly when they
      are the same JSON document. */
  lemma {:induction false} OneDocumentOneText(a: Doubles, v: Json, w: Json)
    requires a.Ieee() && Parsed(a, v) && Parsed(a, w)
    requires Accepts(a, v, 0) && Accepts(a, w, 0) && KeysEncodable(v) && KeysEncodable(w)
    ensures Render(a, v) == Render(a, w) <==> Same(a, v, w)
  {
    hide Render, Norm, Same, ParseStrict, Accepts, Parsed, KeysEncodable;
    RoundTrip(a, v);
    RoundTrip(a, w);
    NormTells(a, v, w, 0, 0);
    NormRendersSame(a, v, 0);
    NormRendersSame(a, w, 0);
  }
}
