/** What the strict parser lets through, and the canonical form as a form of texts. */
module Strictness {
  import opened Basics
  import opened Numerals
  import opened Numbers
  import opened JsonStrings
  import opened MemberOrder
  import opened Canonical

  lemma {:induction false} BodyIsCodePoints(s: Text)
    requires CodePoints(s) && ScanBody(s).Some?
    ensures CodePoints(ScanBody(s).value.0) && CodePoints(ScanBody(s).value.1)
    decreases |s|
  {
    if s[0] != QUOTE {
      var t := if s[0] == BACKSLASH then ScanEscape(s).value.1 else s[1..];
      if s[0] == BACKSLASH {
        EscapeIsCodePoint(s);
      }
      BodyIsCodePoints(t);
    }
  }

  lemma {:induction false} EscapeIsCodePoint(s: Text)
    requires CodePoints(s) && s != [] && s[0] == BACKSLASH && ScanEscape(s).Some?
    ensures 0 <= ScanEscape(s).value.0 <= 0x10FFFF && CodePoints(ScanEscape(s).value.1)
  {
    hide Hex4;
  }

  lemma SkipKeeps(s: Text)
    requires CodePoints(s)
    ensures CodePoints(Skip(s))
    decreases |s|
  {
  }

  lemma PartsRest(s: Text)
    requires CodePoints(s)
    ensures CodePoints(ScanFraction(s).1) && CodePoints(ScanExponent(s).1)
    ensures ScanWhole(s).Some? ==> CodePoints(ScanWhole(s).value.1)
  {
    hide Span;
  }

  lemma {:induction false} NumberRest(s: Text)
    requires CodePoints(s) && ScanNumber(s).Some?
    ensures CodePoints(ScanNumber(s).value.1)
  {
    hide CodePoints, ScanFraction, ScanExponent, ScanWhole;
    TailIsCodePoints(s);
    var t := if s != [] && s[0] == MINUS then s[1..] else s;
    PartsRest(t);
    var u := ScanWhole(t).value.1;
    PartsRest(u);
    PartsRest(ScanFraction(u).1);
  }

  lemma ReadIsHeld(a: Doubles, token: Token)
    requires a.Ieee() && token.Wf()
    ensures a.Held(a.Read(token))
  {
    hide Normal, NatOf;
  }

  /** Whatever is accepted has different keys in every object, floats that are doubles, and code
      points that are code points: duplicates and non-finite constants never get through. */
  lemma {:induction false} ScansParsed(a: Doubles, s: Text)
    requires a.Ieee() && CodePoints(s) && ScanValue(a, s).Some?
    ensures Parsed(a, ScanValue(a, s).value.0) && CodePoints(ScanValue(a, s).value.1)
    decreases |s|, 1
  {
    hide CodePoints, Normal, ScanNumber, ScanBody;
    TailIsCodePoints(s);
    if s[0] == QUOTE {
      BodyIsCodePoints(s[1..]);
    } else if s[0] == LBRACE || s[0] == LBRACKET {
      var t := Skip(s[1..]);
      SkipKeeps(s[1..]);
      TailIsCodePoints(t);
      if s[0] == LBRACE && !(t != [] && t[0] == RBRACE) {
        MembersParsed(a, t);
      } else if s[0] == LBRACKET && !(t != [] && t[0] == RBRACKET) {
        ItemsParsed(a, t);
      }
    } else if NULL_TEXT <= s || TRUE_TEXT <= s || FALSE_TEXT <= s {
    } else {
      NumberRest(s);
      ReadIsHeld(a, ScanNumber(s).value.0);
    }
  }

  lemma TailIsCodePoints(s: Text)
    requires CodePoints(s)
    ensures forall k | 0 <= k <= |s| :: CodePoints(s[k..])
  {
  }

  lemma {:induction false} ItemsParsed(a: Doubles, s: Text)
    requires a.Ieee() && CodePoints(s) && ScanItems(a, s).Some?
    ensures forall i | 0 <= i < |ScanItems(a, s).value.0| :: Parsed(a, ScanItems(a, s).value.0[i])
    ensures CodePoints(ScanItems(a, s).value.1)
    decreases |s|, 2
  {
    hide CodePoints, Parsed;
    ScansParsed(a, s);
    var u := ScanValue(a, s).value.1;
    SkipKeeps(u);
    var t := Skip(u);
    TailIsCodePoints(t);
    if t[0] == COMMA {
      SkipKeeps(t[1..]);
      ItemsParsed(a, Skip(t[1..]));
    }
  }

  lemma {:induction false} MemberParsed(a: Doubles, s: Text)
    requires a.Ieee() && CodePoints(s) && ScanMember(a, s).Some?
    ensures CodePoints(ScanMember(a, s).value.0.key) && Parsed(a, ScanMember(a, s).value.0.value)
    ensures CodePoints(ScanMember(a, s).value.1)
    decreases |s|, 2
  {
    hide CodePoints, Parsed, ScanBody, ScanValue;
    TailIsCodePoints(s);
    BodyIsCodePoints(s[1..]);
    var u := ScanBody(s[1..]).value.1;
    SkipKeeps(u);
    var t := Skip(u);
    TailIsCodePoints(t);
    SkipKeeps(t[1..]);
    ScansParsed(a, Skip(t[1..]));
  }

  lemma {:induction false} MembersParsed(a: Doubles, s: Text)
    requires a.Ieee() && CodePoints(s) && ScanMembers(a, s).Some?
    ensures var es := ScanMembers(a, s).value.0;
            forall i | 0 <= i < |es| :: CodePoints(es[i].key) && Parsed(a, es[i].value)
    ensures CodePoints(ScanMembers(a, s).value.1)
    decreases |s|, 3
  {
    hide CodePoints, Parsed, ScanMember;
    MemberParsed(a, s);
    var u := ScanMember(a, s).value.1;
    SkipKeeps(u);
    var t := Skip(u);
    TailIsCodePoints(t);
    if t[0] == COMMA {
      SkipKeeps(t[1..]);
      MembersParsed(a, Skip(t[1..]));
    }
  }

  lemma {:induction false} ParsesParsed(a: Doubles, text: Text)
    requires a.Ieee() && CodePoints(text) && ParseStrict(a, text).Some?
    ensures Parsed(a, ParseStrict(a, text).value)
  {
    hide CodePoints, ScanValue, Parsed;
    SkipKeeps(text);
    ScansParsed(a, Skip(text));
  }

  // ------------------------------------------------------------------ spelled out

  ghost predicate Blank(s: Text) {
    forall i | 0 <= i < |s| :: s[i] in {' ' as int, '\t' as int, '\n' as int, '\r' as int}
  }

  /** What is skipped is the longest blank beginning. */
  lemma {:induction false} SkipsBlanks(s: Text) returns (k: nat)
    ensures k <= |s| && Skip(s) == s[k..] && Blank(s[..k])
    ensures Skip(s) == [] || !Blank(Skip(s)[..1])
    decreases |s|
  {
    k := 0;
    if s != [] && Blank(s[..1]) {
      var j := SkipsBlanks(s[1..]);
      k := j + 1;
      assert s[1..][j..] == s[k..];
      assert forall i | 1 <= i < k :: s[..k][i] == s[1..][..j][i - 1];
      assert s[..k][0] == s[..1][0];
    }
  }

  /** A text is accepted exactly when it is one value with nothing but blanks around it. */
  lemma {:induction false} WholeTextIsRead(a: Doubles, text: Text, v: Json)
    ensures ParseStrict(a, text) == Some(v) <==>
            exists rest: Text :: ScanValue(a, Skip(text)) == Some((v, rest)) && Blank(rest)
  {
    hide ScanValue, Blank;
    var scan := ScanValue(a, Skip(text));
    if scan.Some? {
      var rest := scan.value.1;
      var k := SkipsBlanks(rest);
      BlankOrNot(rest, k);
    }
  }

  lemma BlankOrNot(s: Text, k: nat)
    requires k <= |s| && Skip(s) == s[k..] && Blank(s[..k]) && (Skip(s) == [] || !Blank(Skip(s)[..1]))
    ensures Skip(s) == [] <==> Blank(s)
  {
    if k < |s| {
      assert Skip(s)[..1][0] == s[k];
    } else {
      assert s[..k] == s;
    }
  }

  /** The words and the marks of the canonical form, spelled out. */
  lemma {:induction false} WordsAre(a: Doubles, s: Text, depth: nat)
    ensures Render(a, Null) == Chars("null")
    ensures Render(a, Bool(true)) == Chars("true") && Render(a, Bool(false)) == Chars("false")
    ensures Render(a, Str(s)) == Chars("\"") + Body(s) + Chars("\"")
    ensures Accepts(a, Null, depth) <==> depth <= 100
  {
  }

  lemma {:induction false} ListMarksAre(a: Doubles)
    ensures Render(a, Arr([])) == Chars("[]") && Render(a, Arr([Null, Null])) == Chars("[null,null]")
  {
    var two := [Null, Null];
    var parts := seq(2, i requires 0 <= i < 2 => Render(a, two[i]));
    assert parts == [NULL_TEXT, NULL_TEXT] && parts[1..] == [NULL_TEXT];
    assert Render(a, Arr(two)) == [LBRACKET] + Joined(parts) + [RBRACKET];
    assert Joined(parts) == NULL_TEXT + [COMMA] + NULL_TEXT;
  }

  lemma {:induction false} ObjectMarksAre(a: Doubles, s: Text)
    ensures Render(a, Obj([])) == Chars("{}")
    ensures Render(a, Obj([Entry(s, Null)])) == Chars("{") + Quoted(s) + Chars(":null}")
  {
    hide Quoted;
    var one := [Entry(s, Null)];
    var texts := seq(1, i requires 0 <= i < 1 => Entry(one[i].key, Render(a, one[i].value)));
    assert texts == [Entry(s, NULL_TEXT)] && texts[1..] == [];
    assert Sort(texts) == texts;
    assert Pairs(texts) == [Quoted(s) + [COLON] + NULL_TEXT];
    assert Render(a, Obj(one)) == [LBRACE] + (Quoted(s) + [COLON] + NULL_TEXT) + [RBRACE];
    assert [COLON] + NULL_TEXT + [RBRACE] == Chars(":null}");
  }

  /** The canonical form of texts: of any two documents the strict parser takes and the canonical
      form takes and can encode, the canonical texts are equal exactly when the documents are the
      same; and a canonical text is its own canonical text. */
  lemma {:induction false} CanonicalFormOfTexts(a: Doubles, t: Text, u: Text)
    requires a.Ieee() && CodePoints(t) && CodePoints(u)
    requires ParseStrict(a, t).Some? && ParseStrict(a, u).Some?
    requires var (v, w) := (ParseStrict(a, t).value, ParseStrict(a, u).value);
             Accepts(a, v, 0) && Accepts(a, w, 0) && KeysEncodable(v) && KeysEncodable(w)
    ensures var (v, w) := (ParseStrict(a, t).value, ParseStrict(a, u).value);
            && (Render(a, v) == Render(a, w) <==> Same(a, v, w))
            && ParseStrict(a, Render(a, v)).Some?
            && Render(a, ParseStrict(a, Render(a, v)).value) == Render(a, v)
  {
    hide CodePoints, ParseStrict, Parsed, Render, Same, Accepts, KeysEncodable;
    ParsesParsed(a, t);
    ParsesParsed(a, u);
    var (v, w) := (ParseStrict(a, t).value, ParseStrict(a, u).value);
    OneDocumentOneText(a, v, w);
    RoundTrip(a, v);
    NormRendersSame(a, v, 0);
  }
}
