/** Numbers as section 3.2.2.3 of RFC 8785 writes them, and as a JSON parser reads them back.

    A double is known here by the digits `repr` gives it: a decimal m * 10^e. */
module Numerals {
  import opened Basics

  /** Code points, lone surrogates included. */
  type Text = seq<int>

  /** A text spelled out. */
  ghost function Chars(s: string): (t: Text)
    ensures |t| == |s| && forall i | 0 <= i < |s| :: t[i] == s[i] as int
  {
    seq(|s|, i requires 0 <= i < |s| => s[i] as int)
  }

  const PLUS := 43
  const MINUS := 45
  const DOT := 46
  const ZERO := 48
  const NINE := 57
  const UPPER_E := 69
  const LOWER_E := 101

  predicate IsDigit(c: int) {
    ZERO <= c <= NINE
  }

  predicate AllDigits(s: Text) {
    forall i | 0 <= i < |s| :: IsDigit(s[i])
  }

  function Pow10(k: nat): (p: nat)
    ensures p > 0
  {
    if k == 0 then 1 else 10 * Pow10(k - 1)
  }

  lemma TimesTen(m: nat, k: nat)
    requires k > 0
    ensures m * Pow10(k) == 10 * (m * Pow10(k - 1))
  {
  }

  function Zeros(k: nat): (s: Text)
    ensures |s| == k && forall i | 0 <= i < k :: s[i] == ZERO
  {
    seq(k, i => ZERO)
  }

  /** Python's str() of a non-negative int. */
  function NatText(n: nat): (s: Text)
    ensures s != [] && AllDigits(s) && (n > 0 ==> s[0] != ZERO)
  {
    if n < 10 then [ZERO + n] else NatText(n / 10) + [ZERO + n % 10]
  }

  function IntText(v: int): Text {
    if v < 0 then [MINUS] + NatText(-v) else NatText(v)
  }

  function NatOf(s: Text): nat
    requires AllDigits(s)
  {
    if s == [] then 0 else 10 * NatOf(s[..|s| - 1]) + (s[|s| - 1] - ZERO)
  }

  lemma {:induction false} NatTextReads(n: nat)
    ensures NatOf(NatText(n)) == n
  {
    if n >= 10 {
      NatTextReads(n / 10);
      assert NatText(n)[..|NatText(n)| - 1] == NatText(n / 10);
    }
  }

  lemma {:induction false} NatOfJoined(a: Text, b: Text)
    requires AllDigits(a) && AllDigits(b)
    ensures NatOf(a + b) == NatOf(a) * Pow10(|b|) + NatOf(b)
    decreases |b|
  {
    if b == [] {
      assert a + b == a;
    } else {
      var init := b[..|b| - 1];
      assert (a + b)[..|a + b| - 1] == a + init;
      NatOfJoined(a, init);
      TimesTen(NatOf(a), |b|);
      hide Pow10;
    }
  }

  lemma {:induction false} NatOfZeros(k: nat)
    ensures NatOf(Zeros(k)) == 0
  {
    if k > 0 {
      assert Zeros(k)[..k - 1] == Zeros(k - 1);
      NatOfZeros(k - 1);
    }
  }

  lemma NatOfPadded(digits: Text, k: nat)
    requires AllDigits(digits)
    ensures NatOf(Zeros(k) + digits) == NatOf(digits)
    ensures NatOf(digits + Zeros(k)) == NatOf(digits) * Pow10(k)
  {
    NatOfZeros(k);
    NatOfJoined(Zeros(k), digits);
    NatOfJoined(digits, Zeros(k));
  }

  // ------------------------------------------------------------------ decimals

  /** The number m * 10^e, or its negative. */
  datatype Dec = Dec(neg: bool, m: nat, e: int)

  /** The one spelling of a decimal without trailing zeros, and of zero without a sign. */
  function Normal(d: Dec): (r: Dec)
    ensures r.m == 0 ==> d.m == 0 && r == Dec(false, 0, 0)
    ensures r.m > 0 ==> r.neg == d.neg && r.m % 10 != 0 && d.m > 0
    decreases d.m
  {
    if d.m == 0 then Dec(false, 0, 0)
    else if d.m % 10 == 0 then Normal(Dec(d.neg, d.m / 10, d.e + 1))
    else d
  }

  lemma Tenfold(d: Dec)
    ensures Normal(Dec(d.neg, 10 * d.m, d.e - 1)) == Normal(d)
  {
  }

  lemma {:induction false} NormalScaled(d: Dec, k: nat)
    ensures Normal(Dec(d.neg, d.m * Pow10(k), d.e - k)) == Normal(d)
    decreases k
  {
    hide Normal;
    if k > 0 {
      TimesTen(d.m, k);
      Tenfold(Dec(d.neg, d.m * Pow10(k - 1), d.e - (k - 1)));
      NormalScaled(d, k - 1);
    }
  }

  /** Both denote the same number. */
  ghost predicate Equal(a: Dec, b: Dec) {
    var low := Min(a.e, b.e);
    && a.m * Pow10(a.e - low) == b.m * Pow10(b.e - low)
    && (a.m > 0 ==> a.neg == b.neg)
  }

  /** Two decimals denote the same number exactly when they have the same normal form. */
  lemma {:induction false} NormalDecides(a: Dec, b: Dec)
    ensures Equal(a, b) <==> Normal(a) == Normal(b)
  {
    hide Pow10, Normal;
    var low := Min(a.e, b.e);
    var x, y := Dec(a.neg, a.m * Pow10(a.e - low), low), Dec(b.neg, b.m * Pow10(b.e - low), low);
    NormalScaled(a, a.e - low);
    NormalScaled(b, b.e - low);
    Unscaled(a.m, a.e - low);
    Unscaled(b.m, b.e - low);
    NormalKeeps(x);
    NormalKeeps(y);
    NormalOfZero(x);
    NormalOfZero(y);
  }

  lemma Unscaled(m: nat, k: nat)
    ensures m * Pow10(k) >= m && (m == 0 ==> m * Pow10(k) == 0)
  {
  }

  lemma NormalOfZero(d: Dec)
    ensures d.m == 0 ==> Normal(d) == Dec(false, 0, 0)
  {
  }

  lemma {:induction false} NormalKeeps(d: Dec)
    ensures d.m > 0 ==>
              Normal(d).e >= d.e && d.m == Normal(d).m * Pow10(Normal(d).e - d.e)
    decreases d.m
  {
    if d.m > 0 && d.m % 10 == 0 {
      NormalKeeps(Dec(d.neg, d.m / 10, d.e + 1));
    }
  }

  // ------------------------------------------------------------------ printing

  function RStrip(digits: Text): Text {
    if digits != [] && digits[|digits| - 1] == ZERO then RStrip(digits[..|digits| - 1]) else digits
  }

  /** The four layouts of 0.digits * 10^n. */
  function Unsigned(digits: Text, n: int): Text
    requires digits != []
  {
    var k := |digits|;
    if k <= n <= 21 then
      digits + Zeros(n - k)
    else if 0 < n <= 21 then
      digits[..n] + [DOT] + digits[n..]
    else if -6 < n <= 0 then
      [ZERO, DOT] + Zeros(-n) + digits
    else
      var mantissa := if k == 1 then digits else [digits[0], DOT] + digits[1..];
      var e := n - 1;
      mantissa + [LOWER_E, if e >= 0 then PLUS else MINUS] + NatText(if e >= 0 then e else -e)
  }

  function Layout(neg: bool, digits: Text, n: int): Text
    requires digits != []
  {
    (if neg then [MINUS] else []) + Unsigned(digits, n)
  }

  // Which layout a number gets. 0.digits * 10^n is at least 10^(n - 1) and below 10^n.

  /** From 1 and below 10^21: the digits, with zeros after them or a point among them. */
  lemma {:induction false} PlainLayout(digits: Text, n: int)
    requires digits != [] && AllDigits(digits) && 0 < n <= 21
    ensures var text := Unsigned(digits, n);
            if n < |digits| then
              |text| == |digits| + 1 && text[..n] == digits[..n] && text[n] == '.' as int
              && text[n + 1..] == digits[n..]
            else
              |text| == n && text[..|digits|] == digits
              && forall i | |digits| <= i < n :: text[i] == '0' as int
  {
  }

  /** From 10^-6 and below 1: a zero, a point, zeros, and the digits. */
  lemma {:induction false} SmallLayout(digits: Text, n: int)
    requires digits != [] && AllDigits(digits) && -6 < n <= 0
    ensures var text := Unsigned(digits, n);
            && |text| == 2 - n + |digits| && text[0] == '0' as int && text[1] == '.' as int
            && (forall i | 2 <= i < 2 - n :: text[i] == '0' as int)
            && text[2 - n..] == digits
  {
    assert Unsigned(digits, n)[2 - n..] == digits;
  }

  /** Any other: the first digit, a point and the others when there are any, an e, the exponent's
      sign, and the exponent without leading zeros. */
  lemma {:induction false} ScientificLayout(digits: Text, n: int)
    requires digits != [] && AllDigits(digits) && (n <= -6 || 21 < n)
    ensures var text := Unsigned(digits, n);
            var at := if |digits| == 1 then 1 else |digits| + 1;
            && at + 2 < |text| && text[0] == digits[0]
            && (|digits| > 1 ==> text[1] == '.' as int && text[2..at] == digits[1..])
            && text[at] == 'e' as int && text[at + 1] == (if n > 0 then '+' else '-') as int
            && text[at + 2] != '0' as int && AllDigits(text[at + 2..])
            && NatOf(text[at + 2..]) == if n > 0 then n - 1 else 1 - n
  {
    hide NatText, NatOf;
    var e := if n > 0 then n - 1 else 1 - n;
    var at := if |digits| == 1 then 1 else |digits| + 1;
    var text := Unsigned(digits, n);
    NatTextReads(e);
    assert text[at + 2..] == NatText(e);
    assert text[at] == 'e' as int;
    if |digits| > 1 {
      assert text[2..at] == digits[1..];
    }
  }

  lemma {:induction false} RStripScales(digits: Text)
    requires AllDigits(digits)
    ensures RStrip(digits) <= digits
    ensures NatOf(digits) == NatOf(RStrip(digits)) * Pow10(|digits| - |RStrip(digits)|)
    ensures NatOf(digits) > 0 ==> RStrip(digits) != [] && NatOf(RStrip(digits)) % 10 != 0
    decreases |digits|
  {
    if digits != [] && digits[|digits| - 1] == ZERO {
      RStripScales(digits[..|digits| - 1]);
      TimesTen(NatOf(RStrip(digits)), |digits| - |RStrip(digits)|);
    }
  }

  /** What `dumps_number` prints for a finite double with these digits. */
  function DoubleText(d: Dec): Text {
    if d.m == 0 then [ZERO]
    else
      var all := NatText(d.m);
      NatTextReads(d.m);
      RStripScales(all);
      Layout(d.neg, RStrip(all), |all| + d.e)
  }

  /** Trailing zeros make no difference to what is printed. */
  lemma {:induction false} PrintsNormalForm(d: Dec)
    ensures DoubleText(d) == DoubleText(Normal(d))
    decreases d.m
  {
    hide Layout, NatOf;
    if d.m > 0 && d.m % 10 == 0 {
      var all := NatText(d.m);
      assert all == NatText(d.m / 10) + [ZERO];
      assert all[..|all| - 1] == NatText(d.m / 10);
      PrintsNormalForm(Dec(d.neg, d.m / 10, d.e + 1));
    }
  }

  // ------------------------------------------------------------------ reading

  /** How many digits a text starts with. */
  function Span(s: Text): (k: nat)
    ensures k <= |s| && AllDigits(s[..k]) && (k < |s| ==> !IsDigit(s[k]))
  {
    if s != [] && IsDigit(s[0]) then 1 + Span(s[1..]) else 0
  }

  lemma {:induction false} SpanIs(digits: Text, rest: Text)
    requires AllDigits(digits) && (rest == [] || !IsDigit(rest[0]))
    ensures Span(digits + rest) == |digits|
  {
    if digits == [] {
      assert digits + rest == rest;
    } else {
      assert (digits + rest)[1..] == digits[1..] + rest;
      SpanIs(digits[1..], rest);
    }
  }

  /** A number token: its integer digits, and its fraction and exponent when it has them. */
  datatype Token = Token(neg: bool, whole: Text, fraction: Option<Text>, exponent: Option<int>) {
    predicate Wf() {
      AllDigits(whole) && (fraction.Some? ==> AllDigits(fraction.value))
    }

    /** The number it denotes. */
    function Exact(): Dec
      requires Wf()
    {
      var frac := if fraction.Some? then fraction.value else [];
      Dec(neg, NatOf(whole + frac), (if exponent.Some? then exponent.value else 0) - |frac|)
    }

    predicate Integral() {
      fraction.None? && exponent.None?
    }
  }

  /** `(\.[0-9]+)?` */
  function ScanFraction(s: Text): (r: (Option<Text>, Text))
    ensures r.0.Some? ==> AllDigits(r.0.value)
    ensures |r.1| <= |s|
  {
    if s != [] && s[0] == DOT && Span(s[1..]) > 0 then
      (Some(s[1..][..Span(s[1..])]), s[1..][Span(s[1..])..])
    else
      (None, s)
  }

  /** `([eE][-+]?[0-9]+)?` */
  function ScanExponent(s: Text): (r: (Option<int>, Text))
    ensures |r.1| <= |s|
  {
    if s != [] && s[0] in {LOWER_E, UPPER_E} then
      var signed := |s| > 1 && s[1] in {PLUS, MINUS};
      var digits := s[if signed then 2 else 1..];
      var k := Span(digits);
      if k > 0 then
        var x: int := NatOf(digits[..k]);
        (Some(if signed && s[1] == MINUS then -x else x), digits[k..])
      else
        (None, s)
    else
      (None, s)
  }

  /** `(?:0|[1-9][0-9]*)` */
  function ScanWhole(s: Text): (r: Option<(Text, Text)>)
    ensures r.Some? ==> AllDigits(r.value.0) && |r.value.1| < |s|
  {
    var k := Span(s);
    if k == 0 then None
    else
      var j := if s[0] == ZERO then 1 else k;
      Some((s[..j], s[j..]))
  }

  function ScanNumber(s: Text): (r: Option<(Token, Text)>)
    ensures r.Some? ==> r.value.0.Wf() && |r.value.1| < |s|
  {
    var neg := s != [] && s[0] == MINUS;
    match ScanWhole(if neg then s[1..] else s)
    case None => None
    case Some((whole, t)) =>
      var (fraction, u) := ScanFraction(t);
      var (exponent, rest) := ScanExponent(u);
      Some((Token(neg, whole, fraction, exponent), rest))
  }

  /** Which numbers are read: a point needs a digit after it, an e or an E needs one after its sign
      if it has one, and nothing comes after a leading zero. */
  lemma {:induction false} NumberGrammar(s: Text)
    ensures ScanFraction(s).0.Some? <==> |s| > 1 && s[0] == '.' as int && '0' as int <= s[1] <= '9' as int
    ensures ScanExponent(s).0.Some? <==>
            && |s| > 1 && (s[0] == 'e' as int || s[0] == 'E' as int)
            && (IsDigit(s[1]) || (|s| > 2 && (s[1] == '+' as int || s[1] == '-' as int) && IsDigit(s[2])))
    ensures ScanWhole(s).Some? <==> s != [] && '0' as int <= s[0] <= '9' as int
    ensures ScanWhole(s).Some? && s[0] == '0' as int ==> ScanWhole(s) == Some(([ZERO], s[1..]))
    ensures ScanNumber(s).Some? <==>
            s != [] && (IsDigit(s[0]) || (|s| > 1 && s[0] == '-' as int && IsDigit(s[1])))
  {
    if s != [] && s[0] == ZERO {
      assert s[..1] == [ZERO];
    }
    if |s| > 1 {
      assert s[1..][0] == s[1];
    }
    if |s| > 2 {
      assert s[2..][0] == s[2];
    }
    hide NatOf;
  }

  /** What is read is the longest run of digits, and the exponent's sign is its own. */
  lemma {:induction false} ExponentIsRead(s: Text)
    requires ScanExponent(s).0.Some?
    ensures var at := if s[1] == '+' as int || s[1] == '-' as int then 2 else 1;
            var k := Span(s[at..]);
            && AllDigits(s[at..][..k]) && (at + k < |s| ==> !IsDigit(s[at + k]))
            && ScanExponent(s) == (Some((if s[1] == '-' as int then -1 else 1) * NatOf(s[at..][..k])), s[at + k..])
  {
    var at := if s[1] == '+' as int || s[1] == '-' as int then 2 else 1;
    assert s[at..][Span(s[at..])..] == s[at + Span(s[at..])..];
  }

  /** What follows a number in a document never carries it on. */
  predicate Ends(rest: Text) {
    rest == [] || !(IsDigit(rest[0]) || rest[0] in {DOT, LOWER_E, UPPER_E})
  }

  ghost predicate Leading(digits: Text) {
    digits != [] && AllDigits(digits) && digits[0] != ZERO
  }

  /** A number token spelled out. */
  function Spelled(neg: bool, whole: Text, fraction: Option<Text>, tail: Text): Text {
    (if neg then [MINUS] else [])
    + (whole + ((if fraction.Some? then [DOT] + fraction.value else []) + tail))
  }

  lemma {:induction false} ReadsWhole(whole: Text, rest: Text)
    requires AllDigits(whole) && whole != [] && (whole[0] != ZERO || whole == [ZERO])
    requires rest == [] || !IsDigit(rest[0])
    ensures ScanWhole(whole + rest) == Some((whole, rest))
  {
    SpanIs(whole, rest);
    assert (whole + rest)[..|whole|] == whole && (whole + rest)[|whole|..] == rest;
  }

  lemma {:induction false} ReadsFraction(fraction: Option<Text>, tail: Text)
    requires fraction.Some? ==> AllDigits(fraction.value) && fraction.value != []
    requires tail == [] || !(IsDigit(tail[0]) || tail[0] == DOT)
    ensures ScanFraction((if fraction.Some? then [DOT] + fraction.value else []) + tail) == (fraction, tail)
  {
    if fraction.Some? {
      var digits := fraction.value;
      assert ([DOT] + digits + tail)[1..] == digits + tail;
      SpanIs(digits, tail);
      assert (digits + tail)[..|digits|] == digits && (digits + tail)[|digits|..] == tail;
    } else {
      assert [] + tail == tail;
    }
  }

  lemma {:induction false} ReadsSpelled(
      neg: bool, whole: Text, fraction: Option<Text>, exponent: Option<int>, tail: Text, rest: Text)
    requires AllDigits(whole) && whole != [] && (whole[0] != ZERO || whole == [ZERO])
    requires fraction.Some? ==> AllDigits(fraction.value) && fraction.value != []
    requires Ends(tail) || tail[0] == LOWER_E
    requires ScanExponent(tail) == (exponent, rest)
    ensures ScanNumber(Spelled(neg, whole, fraction, tail))
            == Some((Token(neg, whole, fraction, exponent), rest))
  {
    hide ScanExponent, ScanWhole, ScanFraction;
    var frac := (if fraction.Some? then [DOT] + fraction.value else []) + tail;
    ReadsWhole(whole, frac);
    ReadsFraction(fraction, tail);
    var s := Spelled(neg, whole, fraction, tail);
    assert (if neg then s[1..] else s) == whole + frac;
  }

  lemma {:induction false} ReadsExponent(x: int, rest: Text)
    requires Ends(rest)
    ensures ScanExponent(ExponentText(x) + rest) == (Some(x), rest)
  {
    var digits := NatText(if x >= 0 then x else -x);
    var s := [LOWER_E, if x >= 0 then PLUS else MINUS] + digits + rest;
    assert s[2..] == digits + rest;
    SpanIs(digits, rest);
    NatTextReads(if x >= 0 then x else -x);
    assert (digits + rest)[..|digits|] == digits && (digits + rest)[|digits|..] == rest;
  }

  /** The token a layout spells, and what stands after its fraction. */
  function LaidOut(neg: bool, digits: Text, n: int): (r: (Token, Text))
    requires Leading(digits)
    ensures r.0.Wf() && r.0.neg == neg && (r.0.Integral() <==> |digits| <= n <= 21)
  {
    var k := |digits|;
    if k <= n <= 21 then (Token(neg, digits + Zeros(n - k), None, None), [])
    else if 0 < n <= 21 then (Token(neg, digits[..n], Some(digits[n..]), None), [])
    else if -6 < n <= 0 then (Token(neg, [ZERO], Some(Zeros(-n) + digits), None), [])
    else
      (Token(neg, [digits[0]], if k == 1 then None else Some(digits[1..]), Some(n - 1)),
       ExponentText(n - 1))
  }

  function ExponentText(x: int): Text {
    [LOWER_E, if x >= 0 then PLUS else MINUS] + NatText(if x >= 0 then x else -x)
  }

  lemma {:induction false} LayoutSpells(neg: bool, digits: Text, n: int, rest: Text)
    requires Leading(digits)
    ensures var (token, tail) := LaidOut(neg, digits, n);
            Layout(neg, digits, n) + rest == Spelled(neg, token.whole, token.fraction, tail + rest)
  {
    hide NatText, Unsigned, LaidOut;
    var (token, tail) := LaidOut(neg, digits, n);
    var frac := if token.fraction.Some? then [DOT] + token.fraction.value else [];
    UnsignedSpells(neg, digits, n);
    Regrouped(if neg then [MINUS] else [], token.whole, frac, tail, rest);
  }

  lemma UnsignedSpells(neg: bool, digits: Text, n: int)
    requires Leading(digits)
    ensures var (token, tail) := LaidOut(neg, digits, n);
            Unsigned(digits, n)
            == token.whole + (if token.fraction.Some? then [DOT] + token.fraction.value else []) + tail
  {
    hide NatText, Zeros, ExponentText;
    var k := |digits|;
    Alone(Unsigned(digits, n));
    if k <= n <= 21 {
      Alone(digits + Zeros(n - k));
    } else if 0 < n <= 21 {
      Associates(digits[..n], [DOT], digits[n..]);
    } else if -6 < n <= 0 {
      Associates([ZERO, DOT], Zeros(-n), digits);
      Associates([ZERO], [DOT], Zeros(-n) + digits);
    } else {
      Scientific(digits, n - 1);
    }
  }

  lemma Scientific(digits: Text, e: int)
    requires digits != []
    ensures (if |digits| == 1 then digits else [digits[0], DOT] + digits[1..])
            + [LOWER_E, if e >= 0 then PLUS else MINUS] + NatText(if e >= 0 then e else -e)
            == [digits[0]] + (if |digits| == 1 then [] else [DOT] + digits[1..]) + ExponentText(e)
  {
    hide NatText;
    var mantissa := if |digits| == 1 then digits else [digits[0], DOT] + digits[1..];
    assert mantissa == [digits[0]] + (if |digits| == 1 then [] else [DOT] + digits[1..]);
    Associates(mantissa, [LOWER_E, if e >= 0 then PLUS else MINUS], NatText(if e >= 0 then e else -e));
  }

  lemma Alone(a: Text)
    ensures a + [] == a
  {
  }

  lemma Associates(a: Text, b: Text, c: Text)
    ensures a + b + c == a + (b + c)
  {
  }

  lemma Regrouped(a: Text, b: Text, c: Text, d: Text, e: Text)
    ensures a + (b + c + d) + e == a + (b + (c + (d + e)))
  {
  }

  lemma {:induction false} LayoutIsExact(neg: bool, digits: Text, n: int)
    requires Leading(digits)
    ensures Normal(LaidOut(neg, digits, n).0.Exact()) == Normal(Dec(neg, NatOf(digits), n - |digits|))
  {
    hide Normal, NatOf;
    var (token, k) := (LaidOut(neg, digits, n).0, |digits|);
    if k <= n <= 21 {
      NatOfPadded(digits, n - k);
      assert token.whole + [] == token.whole;
      NormalScaled(Dec(neg, NatOf(digits), n - k), n - k);
    } else if 0 < n <= 21 {
      assert digits[..n] + digits[n..] == digits;
    } else if -6 < n <= 0 {
      NatOfPadded(digits, 1 - n);
      assert [ZERO] + (Zeros(-n) + digits) == Zeros(1 - n) + digits;
    } else {
      assert [digits[0]] + (if k == 1 then [] else digits[1..]) == digits;
    }
  }

  /** Every layout is a JSON number and denotes exactly 0.digits * 10^n. A reader takes it for an
      integer exactly when it was laid out as one. */
  lemma {:induction false} LayoutDenotes(neg: bool, digits: Text, n: int, rest: Text) returns (token: Token)
    requires Leading(digits) && Ends(rest)
    ensures ScanNumber(Layout(neg, digits, n) + rest) == Some((token, rest))
    ensures token.Wf() && token.neg == neg && (token.Integral() <==> |digits| <= n <= 21)
    ensures Equal(token.Exact(), Dec(neg, NatOf(digits), n - |digits|))
  {
    hide ScanNumber, ScanExponent, Normal, Layout, NatOf;
    var spelling := LaidOut(neg, digits, n);
    token := spelling.0;
    var tail := spelling.1 + rest;
    if token.exponent.Some? {
      ReadsExponent(n - 1, rest);
      assert tail == ExponentText(n - 1) + rest;
    } else {
      NoExponent(rest);
      assert tail == rest;
    }
    LayoutSpells(neg, digits, n, rest);
    ReadsSpelled(neg, token.whole, token.fraction, token.exponent, tail, rest);
    LayoutIsExact(neg, digits, n);
    NormalDecides(token.Exact(), Dec(neg, NatOf(digits), n - |digits|));
  }

  lemma NoExponent(rest: Text)
    requires Ends(rest)
    ensures ScanExponent(rest) == (None, rest)
  {
  }
}
