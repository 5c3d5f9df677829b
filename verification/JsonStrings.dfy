/** String literals: the escapes the canonical form uses, and those a reader undoes. */
module JsonStrings {
  import opened Basics
  import opened Numerals

  const QUOTE := 34
  const SLASH := 47
  const BACKSLASH := 92
  const LOWER_U := 117

  /** The letter of a character's short escape. */
  function ShortEscape(c: int): Option<int> {
    if c == QUOTE || c == BACKSLASH then Some(c)
    else if c == 8 then Some('b' as int)
    else if c == 12 then Some('f' as int)
    else if c == 10 then Some('n' as int)
    else if c == 13 then Some('r' as int)
    else if c == 9 then Some('t' as int)
    else None
  }

  function HexDigit(h: int): int
    requires 0 <= h < 16
  {
    if h < 10 then ZERO + h else 'a' as int + h - 10
  }

  function Escaped(c: int): Text {
    match ShortEscape(c)
    case Some(letter) => [BACKSLASH, letter]
    case None =>
      if 0 <= c < 32 then [BACKSLASH, LOWER_U, ZERO, ZERO, HexDigit(c / 16), HexDigit(c % 16)]
      else [c]
  }

  /** The escapes, spelled out: a quote and a backslash by themselves, five control characters by
      their letters, the others by their number in four lower-case hex digits, and nothing else. */
  lemma EscapesAre(c: int)
    ensures Escaped('"' as int) == Chars("\\\"") && Escaped('\\' as int) == Chars("\\\\")
    ensures Escaped(8) == Chars("\\b") && Escaped(12) == Chars("\\f") && Escaped(10) == Chars("\\n")
    ensures Escaped(13) == Chars("\\r") && Escaped(9) == Chars("\\t")
    ensures 0 <= c < 32 && c !in {8, 9, 10, 12, 13} ==>
              && |Escaped(c)| == 6 && Escaped(c)[..4] == Chars("\\u00")
              && Escaped(c)[4] == (if c < 16 then '0' else '1') as int
              && Escaped(c)[5] == "0123456789abcdef"[c % 16] as int
    ensures c >= 32 && c != '"' as int && c != '\\' as int ==> Escaped(c) == [c]
  {
    assert Escaped(8) == Chars("\\b") && Escaped(12) == Chars("\\f") && Escaped(10) == Chars("\\n");
    if 0 <= c < 32 && c !in {8, 9, 10, 12, 13} {
      assert Escaped(c)[..4] == Chars("\\u00");
      HexDigitsAre(c % 16);
    }
  }

  lemma HexDigitsAre(h: int)
    requires 0 <= h < 16
    ensures HexDigit(h) == "0123456789abcdef"[h] as int
  {
    assert "0123456789abcdef"[10..] == "abcdef";
  }

  function Body(s: Text): Text {
    if s == [] then [] else Body(s[..|s| - 1]) + Escaped(s[|s| - 1])
  }

  /** A string literal. */
  function Quoted(s: Text): Text {
    [QUOTE] + Body(s) + [QUOTE]
  }

  /** `_dumps_string`. */
  method DumpsString(value: Text) returns (text: Text)
    ensures text == Quoted(value)
  {
    text := [QUOTE];
    for i := 0 to |value|
      invariant text == [QUOTE] + Body(value[..i])
    {
      assert value[..i + 1][..i] == value[..i];
      var escape := ShortEscape(value[i]);
      if escape.Some? {
        text := text + [BACKSLASH, escape.value];
      } else if 0 <= value[i] < 32 {
        text := text + [BACKSLASH, LOWER_U, ZERO, ZERO, HexDigit(value[i] / 16), HexDigit(value[i] % 16)];
      } else {
        text := text + [value[i]];
      }
    }
    assert value[..|value|] == value;
    text := text + [QUOTE];
  }

  // ------------------------------------------------------------------ reading

  function HexValue(c: int): (r: Option<nat>)
    ensures r.Some? ==> r.value < 16
  {
    if IsDigit(c) then Some(c - ZERO)
    else if 'a' as int <= c <= 'f' as int then Some(c - 'a' as int + 10)
    else if 'A' as int <= c <= 'F' as int then Some(c - 'A' as int + 10)
    else None
  }

  /** The four hex digits a text starts with. */
  function Hex4(s: Text): (r: Option<nat>)
    ensures r.Some? ==> |s| >= 4 && r.value < 0x10000
  {
    if |s| < 4 then None
    else
      match (HexValue(s[0]), HexValue(s[1]), HexValue(s[2]), HexValue(s[3]))
      case (Some(a), Some(b), Some(c), Some(d)) => Some(((a * 16 + b) * 16 + c) * 16 + d)
      case _ => None
  }

  function Unescaped(letter: int): Option<int> {
    if letter in {QUOTE, BACKSLASH, SLASH} then Some(letter)
    else if letter == 'b' as int then Some(8)
    else if letter == 'f' as int then Some(12)
    else if letter == 'n' as int then Some(10)
    else if letter == 'r' as int then Some(13)
    else if letter == 't' as int then Some(9)
    else None
  }

  predicate High(c: int) {
    0xD800 <= c <= 0xDBFF
  }

  predicate Low(c: int) {
    0xDC00 <= c <= 0xDFFF
  }

  /** The character or surrogate pair a backslash escape stands for. */
  function ScanEscape(s: Text): (r: Option<(int, Text)>)
    requires s != [] && s[0] == BACKSLASH
    ensures r.Some? ==> |r.value.1| < |s|
  {
    if |s| < 2 then None
    else if s[1] != LOWER_U then
      var c := Unescaped(s[1]);
      if c.Some? then Some((c.value, s[2..])) else None
    else
      match Hex4(s[2..])
      case None => None
      case Some(x) =>
        var t := s[6..];
        if High(x) && |t| >= 2 && t[0] == BACKSLASH && t[1] == LOWER_U
           && Hex4(t[2..]).Some? && Low(Hex4(t[2..]).value) then
          Some((0x10000 + (x - 0xD800) * 0x400 + (Hex4(t[2..]).value - 0xDC00), t[6..]))
        else
          Some((x, t))
  }

  /** A string literal's characters, from after its opening quote. */
  function ScanBody(s: Text): (r: Option<(Text, Text)>)
    ensures r.Some? ==> |r.value.1| < |s|
    decreases |s|
  {
    if s == [] || s[0] < 32 then None
    else if s[0] == QUOTE then Some(([], s[1..]))
    else
      match if s[0] == BACKSLASH then ScanEscape(s) else Some((s[0], s[1..]))
      case None => None
      case Some((c, t)) =>
        match ScanBody(t)
        case None => None
        case Some((cs, rest)) => Some(([c] + cs, rest))
  }

  /** What a backslash and a letter stand for, whichever of them the writer uses. */
  lemma ShortEscapesAreRead(letter: int)
    ensures Unescaped(letter) ==
            if letter in Chars("\"\\/") then Some(letter)
            else if letter == 'b' as int then Some(8) else if letter == 'f' as int then Some(12)
            else if letter == 'n' as int then Some(10) else if letter == 'r' as int then Some(13)
            else if letter == 't' as int then Some(9) else None
  {
    assert Chars("\"\\/") == ['"' as int, '\\' as int, '/' as int];
  }

  /** A hex digit of either case. */
  lemma HexValuesAre(c: int, v: nat)
    ensures HexValue(c) == Some(v) <==>
            v < 16 && (c == "0123456789abcdef"[v] as int || c == "0123456789ABCDEF"[v] as int)
  {
    assert "0123456789abcdef"[10..] == "abcdef" && "0123456789ABCDEF"[10..] == "ABCDEF";
  }

  /** A u and four hex digits are the code unit with that number; a high one and a low one right after
      it are the character they make, and one that stands alone stays as it is. */
  lemma {:induction false} UnicodeEscapesAreRead(s: Text, a: nat, b: nat, c: nat, d: nat)
    requires |s| >= 6 && s[..2] == Chars("\\u")
    requires HexValue(s[2]) == Some(a) && HexValue(s[3]) == Some(b)
             && HexValue(s[4]) == Some(c) && HexValue(s[5]) == Some(d)
    ensures var x := 4096 * a + 256 * b + 16 * c + d;
            && (x < 0xD800 || x >= 0xDC00 ==> ScanEscape(s) == Some((x, s[6..])))
            && (0xD800 <= x < 0xDC00 ==>
                  ScanEscape(s) ==
                  if |s| >= 12 && s[6..8] == Chars("\\u") && Hex4(s[8..]).Some?
                     && 0xDC00 <= Hex4(s[8..]).value < 0xE000
                  then Some((0x10000 + (x - 0xD800) * 0x400 + (Hex4(s[8..]).value - 0xDC00), s[12..]))
                  else Some((x, s[6..])))
  {
    hide HexValue;
    assert s[1] == s[..2][1] && s[0] == s[..2][0];
    assert s[2..][..4] == [s[2], s[3], s[4], s[5]];
    var t := s[6..];
    if |t| >= 2 {
      assert t[..2] == s[6..8] && t[2..] == s[8..];
      assert s[6..8] == Chars("\\u") <==> t[0] == BACKSLASH && t[1] == LOWER_U by {
        if t[0] == BACKSLASH && t[1] == LOWER_U {
          assert s[6..8] == Chars("\\u");
        } else {
          assert s[6..8][0] == t[0] && s[6..8][1] == t[1];
        }
      }
      if |t| >= 6 {
        assert t[6..] == s[12..];
      }
    }
  }

  lemma {:induction false} ReadsEscaped(c: int, rest: Text)
    requires c >= 0
    ensures Escaped(c)[0] != QUOTE && Escaped(c)[0] >= 32
    ensures if Escaped(c)[0] == BACKSLASH then ScanEscape(Escaped(c) + rest) == Some((c, rest))
            else Escaped(c) == [c]
  {
    var e := Escaped(c);
    if ShortEscape(c).Some? {
      assert (e + rest)[2..] == rest;
    } else if c < 32 {
      var t := (e + rest)[2..];
      assert t == [ZERO, ZERO, HexDigit(c / 16), HexDigit(c % 16)] + rest;
      assert Hex4(t) == Some(c);
      assert (e + rest)[6..] == rest;
    }
  }

  lemma {:induction false} BodyFromTheFront(s: Text)
    requires s != []
    ensures Body(s) == Escaped(s[0]) + Body(s[1..])
    decreases |s|
  {
    if |s| > 1 {
      var init := s[..|s| - 1];
      BodyFromTheFront(init);
      assert s[1..][..|s| - 2] == init[1..];
    } else {
      assert s[..0] == [] && s[1..] == [];
    }
  }

  ghost predicate CodePoints(s: Text) {
    forall i | 0 <= i < |s| :: 0 <= s[i] <= 0x10FFFF
  }

  lemma {:induction false} ReadsOne(s: Text, c: int, t: Text, cs: Text, rest: Text)
    requires s != [] && s[0] >= 32 && s[0] != QUOTE
    requires if s[0] == BACKSLASH then ScanEscape(s) == Some((c, t)) else s == [c] + t
    requires ScanBody(t) == Some((cs, rest))
    ensures ScanBody(s) == Some(([c] + cs, rest))
  {
    if s[0] != BACKSLASH {
      assert s[1..] == t;
    }
  }

  lemma Regrouped(a: Text, b: Text, c: Text)
    ensures a + b + c == a + (b + c)
  {
  }

  /** Every string, lone surrogates included, reads back from its literal. */
  lemma {:induction false} StringReadsBack(s: Text, rest: Text)
    requires CodePoints(s)
    ensures ScanBody(Body(s) + ([QUOTE] + rest)) == Some((s, rest))
    decreases |s|
  {
    var close := [QUOTE] + rest;
    if s == [] {
      assert Body(s) + close == close && close[1..] == rest;
    } else {
      hide ScanEscape, Escaped, ScanBody, Body;
      var (c, t) := (s[0], Body(s[1..]) + close);
      BodyFromTheFront(s);
      ReadsEscaped(c, t);
      StringReadsBack(s[1..], rest);
      Regrouped(Escaped(c), Body(s[1..]), close);
      ReadsOne(Escaped(c) + t, c, t, s[1..], rest);
      assert [c] + s[1..] == s;
    }
  }

  // ------------------------------------------------------------------ UTF-8 and UTF-16

  predicate Surrogate(c: int) {
    0xD800 <= c <= 0xDFFF
  }

  lemma SurrogatesAre(c: int)
    ensures Surrogate(c) <==> High(c) || Low(c)
    ensures Surrogate(c) <==> 0xD800 <= c < 0xE000
  {
  }

  /** Whether a text can be encoded as UTF-8. */
  predicate Encodable(s: Text) {
    forall i | 0 <= i < |s| :: !Surrogate(s[i])
  }

  lemma {:induction false} EscapingKeepsEncodable(s: Text)
    requires CodePoints(s)
    ensures Encodable(Body(s)) <==> Encodable(s)
    decreases |s|
  {
    if s != [] {
      var (init, c) := (s[..|s| - 1], s[|s| - 1]);
      EscapingKeepsEncodable(init);
      assert Encodable(Escaped(c)) <==> !Surrogate(c) by {
        if Surrogate(c) {
          assert Escaped(c)[0] == c;
        }
      }
      EncodableParts(Body(init), Escaped(c));
      assert s == init + [c];
      EncodableParts(init, [c]);
      assert [c][0] == c;
    }
  }

  lemma EncodableParts(a: Text, b: Text)
    ensures Encodable(a + b) <==> Encodable(a) && Encodable(b)
  {
    if Encodable(a + b) {
      assert forall i | 0 <= i < |a| :: a[i] == (a + b)[i];
      assert forall i | 0 <= i < |b| :: b[i] == (a + b)[|a| + i];
    }
  }

  /** The big-endian bytes of a code point's UTF-16 code units. */
  function Utf16Bytes(c: int): seq<int> {
    if c < 0x10000 then [c / 256, c % 256]
    else
      var (hi, lo) := (0xD800 + (c - 0x10000) / 0x400, 0xDC00 + (c - 0x10000) % 0x400);
      [hi / 256, hi % 256, lo / 256, lo % 256]
  }

  /** `_sort_key`. */
  function SortKey(s: Text): seq<int> {
    if s == [] then [] else Utf16Bytes(s[0]) + SortKey(s[1..])
  }

  /** The UTF-16 code units of a text: a code point beyond the basic plane is two. */
  ghost function CodeUnits(s: Text): (units: seq<int>)
    ensures CodePoints(s) ==> forall i | 0 <= i < |units| :: 0 <= units[i] < 0x10000
  {
    if s == [] then []
    else
      (if s[0] < 0x10000 then [s[0]]
       else [0xD800 + (s[0] - 0x10000) / 0x400, 0xDC00 + (s[0] - 0x10000) % 0x400])
      + CodeUnits(s[1..])
  }

  /** Two big-endian bytes for each. */
  ghost function UnitBytes(units: seq<int>): seq<int> {
    if units == [] then [] else [units[0] / 256, units[0] % 256] + UnitBytes(units[1..])
  }

  lemma {:induction false} UnitBytesJoin(u: seq<int>, v: seq<int>)
    ensures UnitBytes(u + v) == UnitBytes(u) + UnitBytes(v)
    decreases |u|
  {
    if u == [] {
      assert u + v == v;
    } else {
      assert (u + v)[1..] == u[1..] + v;
      UnitBytesJoin(u[1..], v);
    }
  }

  lemma UnitBytesOf(x: int, y: int)
    ensures UnitBytes([x]) == [x / 256, x % 256] && UnitBytes([x, y]) == [x / 256, x % 256, y / 256, y % 256]
  {
    assert [x][1..] == [] && [x, y][1..] == [y] && [y][1..] == [];
  }

  lemma {:induction false} SortKeyIsUnits(s: Text)
    ensures SortKey(s) == UnitBytes(CodeUnits(s))
    decreases |s|
  {
    if s != [] {
      hide UnitBytes;
      SortKeyIsUnits(s[1..]);
      var (hi, lo) := (0xD800 + (s[0] - 0x10000) / 0x400, 0xDC00 + (s[0] - 0x10000) % 0x400);
      UnitBytesOf(s[0], 0);
      UnitBytesOf(hi, lo);
      UnitBytesJoin(if s[0] < 0x10000 then [s[0]] else [hi, lo], CodeUnits(s[1..]));
    } else {
      assert UnitBytes([]) == [];
    }
  }

  /** Keys that are well-formed strings have different sort keys unless they are the same. */
  lemma {:induction false} SortKeyTells(a: Text, b: Text)
    requires CodePoints(a) && CodePoints(b) && Encodable(a) && Encodable(b)
    requires SortKey(a) == SortKey(b)
    ensures a == b
    decreases |a|
  {
    if a != [] && b != [] {
      var x, y := Utf16Bytes(a[0]), Utf16Bytes(b[0]);
      assert SortKey(a)[0] == x[0] && SortKey(b)[0] == y[0];
      assert SortKey(a)[1] == x[1] && SortKey(b)[1] == y[1];
      assert !Surrogate(a[0]) && !Surrogate(b[0]);
      if |x| == 4 && |y| == 4 {
        assert SortKey(a)[2] == x[2] && SortKey(b)[2] == y[2];
        assert SortKey(a)[3] == x[3] && SortKey(b)[3] == y[3];
      }
      assert a[0] == b[0];
      assert SortKey(a)[|x|..] == SortKey(a[1..]);
      assert SortKey(b)[|x|..] == SortKey(b[1..]);
      SortKeyTells(a[1..], b[1..]);
      assert a == [a[0]] + a[1..] && b == [b[0]] + b[1..];
    }
  }

  /** Two surrogates that are code points of their own share the key of the character they would
      make together: there a document's order decides, which is why lone ones are left out. */
  lemma LoneSurrogatesCollide()
    ensures SortKey([0xD83D, 0xDE00]) == SortKey([0x1F600])
  {
    assert [0xD83D, 0xDE00][1..] == [0xDE00] && [0xDE00][1..] == [] && [0x1F600][1..] == [];
  }
}
