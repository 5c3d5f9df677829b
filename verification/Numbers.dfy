/** The numbers of a parsed document and their one canonical text. */
module Numbers {
  import opened Basics
  import opened Numerals

  const TWO_TO_53 := 9007199254740992

  /** A parsed JSON number: Python keeps integer syntax as an int of any size, and everything
      else as a double, by its `repr` digits, or as none of the finite ones. */
  datatype Number = Int(v: int) | Float(d: Option<Dec>)

  lemma TwoToThe53()
    ensures TWO_TO_53 == 0x20_0000_0000_0000 == 2 * 67108864 * 67108864
  {
  }

  function DecOf(v: int): Dec {
    if v < 0 then Dec(true, -v, 0) else Dec(false, v, 0)
  }

  /** One double as the parser hands it back: an int when its text is one, else a float. */
  function ReadNumber(d: Dec): Number {
    if d.e >= 0 && |NatText(d.m)| + d.e <= 21 then
      var m: int := d.m * Pow10(d.e);
      Int(if d.neg then -m else m)
    else
      Float(Some(d))
  }

  /** The floating point the program runs on: the shortest decimal of the double nearest to a
      decimal, or none when that is out of range. */
  datatype Doubles = Doubles(round: Dec -> Option<Dec>) {
    /** A double's own decimal reads back as that double, and an integer up to 2^53 is one. */
    ghost predicate Ieee() {
      && (forall d | round(d).Some? ::
            round(round(d).value) == round(d) && Normal(round(d).value) == round(d).value)
      && (forall v | -TWO_TO_53 <= v <= TWO_TO_53 ::
            round(Normal(DecOf(v))) == Some(Normal(DecOf(v))))
    }

    /** A float the program holds is some double, or not finite. */
    ghost predicate Held(x: Number) {
      x.Float? && x.d.Some? ==> round(Normal(x.d.value)) == Some(Normal(x.d.value))
    }

    /** Which double a number is, by its normal decimal: none for NaN, an infinity and an
        integer out of range. */
    function Value(x: Number): Option<Dec> {
      match x
      case Int(v) => round(Normal(DecOf(v)))
      case Float(d) => if d.Some? then Some(Normal(d.value)) else None
    }

    /** `dumps_number`. */
    function DumpsNumber(x: Number): Option<Text> {
      match x
      case Int(v) =>
        if -TWO_TO_53 <= v <= TWO_TO_53 then Some(IntText(v))
        else
          var d := round(Normal(DecOf(v)));
          if d.Some? then Some(DoubleText(d.value)) else None
      case Float(d) => if d.Some? then Some(DoubleText(d.value)) else None
    }

    /** How the parser takes a number token: int() of an integer, else float(). */
    function Read(token: Token): Number
      requires token.Wf()
    {
      if token.Integral() then
        var m: int := NatOf(token.whole);
        Int(if token.neg then -m else m)
      else
        Float(var d := round(Normal(token.Exact())); d)
    }

    /** Whatever a number was parsed as, what is printed is its double's text, and nothing is
        printed exactly when it is not a finite double. */
    lemma PrintsTheDouble(x: Number)
      requires Ieee() && Held(x)
      ensures DumpsNumber(x) == match Value(x)
                                case None => None
                                case Some(d) => Some(DoubleText(d))
    {
      hide Normal, DoubleText;
      if x.Int? && -TWO_TO_53 <= x.v <= TWO_TO_53 {
        ShortcutAgrees(x.v);
        PrintsNormalForm(DecOf(x.v));
      } else if x.Float? && x.d.Some? {
        PrintsNormalForm(x.d.value);
      }
    }

    /** What is printed reads back as the same double, whether the reader takes it for an int or
        for a float. */
    lemma {:induction false} ReadsBack(x: Number, rest: Text) returns (token: Token)
      requires Ieee() && Held(x) && DumpsNumber(x).Some? && Ends(rest)
      ensures Value(x).Some? && DumpsNumber(x) == Some(DoubleText(Value(x).value))
      ensures ScanNumber(DumpsNumber(x).value + rest) == Some((token, rest)) && token.Wf()
      ensures Read(token) == ReadNumber(Value(x).value)
      ensures Value(Read(token)) == Value(x)
    {
      hide Normal, DoubleText, ScanNumber, NatOf;
      PrintsTheDouble(x);
      var d := Value(x).value;
      token := TextDenotes(d, rest);
      if token.Integral() {
        ExactOfInteger(token);
        IntegerIs(token, d);
      }
    }

    lemma ExactOfInteger(token: Token)
      requires token.Wf() && token.Integral()
      ensures Read(token).Int? && Normal(DecOf(Read(token).v)) == Normal(token.Exact())
    {
      assert token.whole + [] == token.whole;
    }

    lemma {:induction false} IntegerIs(token: Token, d: Dec)
      requires token.Wf() && token.Integral() && Normal(token.Exact()) == d
      requires d.e >= 0 && |NatText(d.m)| + d.e <= 21
      ensures Read(token) == ReadNumber(d)
    {
      hide NatText;
      assert token.whole + [] == token.whole;
      NormalKeeps(token.Exact());
    }

    /** Two numbers are printed alike exactly when they are the same double. */
    lemma {:induction false} TextTellsDoubles(x: Number, y: Number)
      requires Ieee() && Held(x) && Held(y)
      ensures DumpsNumber(x) == DumpsNumber(y) <==> Value(x) == Value(y)
    {
      hide Normal, DoubleText, ScanNumber, NatOf;
      PrintsTheDouble(x);
      PrintsTheDouble(y);
      if DumpsNumber(x).Some? && DumpsNumber(x) == DumpsNumber(y) {
        var token := ReadsBack(x, []);
        token := ReadsBack(y, []);
      }
    }
  }

  lemma {:induction false} ZeroDenotes(rest: Text) returns (token: Token)
    requires Ends(rest)
    ensures ScanNumber([ZERO] + rest) == Some((token, rest)) && token.Wf()
    ensures token.Integral() && Normal(token.Exact()) == Dec(false, 0, 0)
  {
    hide ScanNumber, ScanExponent;
    token := Token(false, [ZERO], None, None);
    NoExponent(rest);
    ReadsSpelled(false, [ZERO], None, None, rest, rest);
    assert [ZERO] + rest == Spelled(false, [ZERO], None, rest);
    assert [ZERO] + [] == [ZERO];
    assert [ZERO][..0] == [];
    assert NatOf([ZERO]) == 0;
  }

  /** The text of a normal decimal is a JSON number that denotes it. */
  lemma {:induction false} TextDenotes(d: Dec, rest: Text) returns (token: Token)
    requires Normal(d) == d && Ends(rest)
    ensures ScanNumber(DoubleText(d) + rest) == Some((token, rest)) && token.Wf()
    ensures Normal(token.Exact()) == d
    ensures token.Integral() <==> d.e >= 0 && |NatText(d.m)| + d.e <= 21
  {
    hide ScanNumber, Layout;
    if d.m == 0 {
      token := ZeroDenotes(rest);
    } else {
      var all := NatText(d.m);
      NatTextReads(d.m);
      RStripScales(all);
      NothingToStrip(d.m);
      assert DoubleText(d) == Layout(d.neg, all, |all| + d.e);
      hide DoubleText, NatText, NatOf, RStrip, Normal;
      token := LayoutDenotes(d.neg, all, |all| + d.e, rest);
      NormalDecides(token.Exact(), d);
    }
  }

  lemma UnsignedStarts(digits: Text, n: int)
    requires digits != [] && AllDigits(digits)
    ensures Unsigned(digits, n) != [] && IsDigit(Unsigned(digits, n)[0])
  {
    hide NatText;
  }

  lemma StrippedDigits(m: nat)
    requires m > 0
    ensures RStrip(NatText(m)) != [] && AllDigits(RStrip(NatText(m)))
  {
    NatTextReads(m);
    RStripScales(NatText(m));
  }

  lemma {:induction false} TextStarts(d: Dec)
    ensures DoubleText(d) != [] && (DoubleText(d)[0] == MINUS || IsDigit(DoubleText(d)[0]))
  {
    hide NatText, RStrip, NatOf, Unsigned;
    if d.m > 0 {
      var all := NatText(d.m);
      NatTextReads(d.m);
      RStripScales(all);
      UnsignedStarts(RStrip(all), |all| + d.e);
    }
  }

  lemma NothingToStrip(m: nat)
    requires m % 10 != 0
    ensures RStrip(NatText(m)) == NatText(m)
  {
  }

  // ------------------------------------------------------------------ the integer shortcut

  lemma {:induction false} NatTextLength(n: nat)
    ensures n > 0 ==> Pow10(|NatText(n)| - 1) <= n
    ensures n < Pow10(|NatText(n)|)
  {
    if n >= 10 {
      NatTextLength(n / 10);
    }
  }

  lemma {:induction false} Pow10Grows(j: nat, k: nat)
    requires j <= k
    ensures Pow10(j) <= Pow10(k)
    decreases k - j
  {
    if j < k {
      Pow10Grows(j, k - 1);
    }
  }

  lemma {:induction false} Restored(digits: Text)
    requires AllDigits(digits)
    ensures |RStrip(digits)| <= |digits|
    ensures RStrip(digits) + Zeros(|digits| - |RStrip(digits)|) == digits
    decreases |digits|
  {
    if digits != [] && digits[|digits| - 1] == ZERO {
      Restored(digits[..|digits| - 1]);
    }
  }

  lemma Sixteen()
    ensures Pow10(16) == 10000000000000000
  {
    assert Pow10(4) == 10000;
    assert Pow10(8) == 10000 * Pow10(4);
    assert Pow10(12) == 10000 * Pow10(8);
    assert Pow10(16) == 10000 * Pow10(12);
  }

  /** An integer up to 2^53 prints as the double path would print it. */
  lemma {:induction false} ShortcutAgrees(v: int)
    requires -TWO_TO_53 <= v <= TWO_TO_53
    ensures IntText(v) == DoubleText(DecOf(v))
  {
    if v != 0 {
      var m := DecOf(v).m;
      var all := NatText(m);
      NatTextReads(m);
      RStripScales(all);
      Restored(all);
      NatTextLength(m);
      Sixteen();
      Pow10Grows(16, Max(16, |all| - 1));
      assert |all| <= 16;
      assert Unsigned(RStrip(all), |all|) == all;
    }
  }

  /** Why `Ieee` may say that an integer up to 2^53 is its own shortest decimal. Take any decimal
      that reads back as the integer's double, so is within half a spacing of it, that has no
      more digits than the integer's own, and if it has as many is no further off: it is the
      integer's own. */
  lemma {:induction false} ShortestIsExact(v: nat, d: Dec)
    requires 0 < v <= TWO_TO_53
    requires Normal(d) == d && !d.neg && d.m > 0
    requires if d.e >= 0 then Within(d.m * Pow10(d.e), v) else Within(d.m, v * Pow10(-d.e))
    requires |NatText(d.m)| <= |RStrip(NatText(v))|
    requires |NatText(d.m)| == |RStrip(NatText(v))| ==> Equal(d, DecOf(v))
    ensures Normal(DecOf(v)) == d
  {
    NormalDecides(d, DecOf(v));
    Restored(NatText(v));
    if |NatText(d.m)| < |RStrip(NatText(v))| {
      if d.e < 0 {
        TooShort(v, d);
      } else {
        WholeAndNear(v, d);
      }
    }
  }

  /** |a - b| <= b / 2^53. */
  ghost predicate Within(a: int, b: int) {
    -b <= (a - b) * TWO_TO_53 <= b
  }

  lemma Scaled(v: nat, k: nat)
    ensures v <= v * Pow10(k)
  {
  }

  lemma {:induction false} TooShort(v: nat, d: Dec)
    requires v > 0 && d.e < 0 && |NatText(d.m)| < |NatText(v)|
    ensures !Within(d.m, v * Pow10(-d.e))
  {
    NatTextLength(d.m);
    NatTextLength(v);
    Pow10Grows(|NatText(d.m)|, |NatText(v)| - 1);
    TimesTen(v, -d.e);
    Scaled(v, -d.e - 1);
    NotWithin(d.m, v * Pow10(-d.e - 1));
  }

  lemma NotWithin(a: int, b: int)
    requires 0 <= a < b
    ensures !Within(a, 10 * b)
  {
  }

  lemma {:induction false} SixteenDigits(n: nat)
    requires 1000000000000000 <= n < 10000000000000000
    ensures |NatText(n)| == 16
  {
    Sixteen();
    TimesTen(1, 16);
    NatTextLength(n);
    if |NatText(n)| < 16 {
      Pow10Grows(|NatText(n)|, 15);
    } else if |NatText(n)| > 16 {
      Pow10Grows(16, |NatText(n)| - 1);
    }
  }

  lemma {:induction false} WholeAndNear(v: nat, d: Dec)
    requires 0 < v <= TWO_TO_53 && !d.neg && d.e >= 0 && d.m % 10 != 0
    requires Within(d.m * Pow10(d.e), v)
    requires |NatText(d.m)| < |NatText(v)|
    ensures Equal(d, DecOf(v))
  {
    hide NatText;
    var y := d.m * Pow10(d.e);
    assert v - 1 <= y <= v + 1;
    if y != v {
      assert v == TWO_TO_53;
      if d.e > 0 {
        TimesTen(d.m, d.e);
      }
      assert d.m == y;
      SixteenDigits(v);
      SixteenDigits(y);
      assert false;
    }
    assert Pow10(0) == 1;
  }
}
