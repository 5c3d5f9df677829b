/** Positional notation, most significant digit first, in the two bases `did:key` needs. */
module Digits {
  type Base = b: nat | b == 58 || b == 256 witness 58

  function Times(b: Base, x: nat): nat {
    if b == 58 then 58 * x else 256 * x
  }

  function Quotient(b: Base, n: nat): (q: nat)
    ensures n > 0 ==> q < n
  {
    if b == 58 then n / 58 else n / 256
  }

  function Remainder(b: Base, n: nat): (r: nat)
    ensures r < b && n == Times(b, Quotient(b, n)) + r
  {
    if b == 58 then n % 58 else n % 256
  }

  function Pow(b: Base, k: nat): (p: nat)
    ensures p > 0
  {
    if k == 0 then 1 else Times(b, Pow(b, k - 1))
  }

  ghost predicate Digital(b: nat, s: seq<nat>) {
    forall i | 0 <= i < |s| :: s[i] < b
  }

  function FromDigits(b: Base, s: seq<nat>): nat {
    if s == [] then 0 else Times(b, FromDigits(b, s[..|s| - 1])) + s[|s| - 1]
  }

  function ToDigits(b: Base, n: nat): seq<nat>
    decreases n
  {
    if n == 0 then [] else ToDigits(b, Quotient(b, n)) + [Remainder(b, n)]
  }

  function Zeros(k: nat): (s: seq<nat>)
    ensures |s| == k && forall i | 0 <= i < k :: s[i] == 0
  {
    seq(k, i => 0)
  }

  lemma OneMoreDigit(b: Base, s: seq<nat>, r: nat)
    ensures FromDigits(b, s + [r]) == Times(b, FromDigits(b, s)) + r
  {
    assert (s + [r])[..|s|] == s;
  }

  lemma QuotientOf(b: Base, q: nat, r: nat)
    requires r < b
    ensures Quotient(b, Times(b, q) + r) == q && Remainder(b, Times(b, q) + r) == r
  {
  }

  lemma {:induction false} ToDigitsReads(b: Base, n: nat)
    ensures FromDigits(b, ToDigits(b, n)) == n && Digital(b, ToDigits(b, n))
    ensures n > 0 ==> ToDigits(b, n) != [] && ToDigits(b, n)[0] > 0
    decreases n
  {
    if n > 0 {
      hide FromDigits, Quotient, Remainder;
      var q, r := Quotient(b, n), Remainder(b, n);
      ToDigitsReads(b, q);
      OneMoreDigit(b, ToDigits(b, q), r);
      if q == 0 {
        assert ToDigits(b, 0) == [];
      }
    } else {
      assert ToDigits(b, 0) == [];
    }
  }

  /** Written without leading zeros, a number is written one way. */
  lemma {:induction false} FromDigitsWrites(b: Base, s: seq<nat>)
    requires Digital(b, s) && (s != [] ==> s[0] > 0)
    ensures ToDigits(b, FromDigits(b, s)) == s
    ensures s != [] ==> FromDigits(b, s) > 0
    decreases |s|
  {
    if s != [] {
      hide Quotient, Remainder;
      var init, last := s[..|s| - 1], s[|s| - 1];
      FromDigitsWrites(b, init);
      QuotientOf(b, FromDigits(b, init), last);
      assert s == init + [last];
    }
  }

  lemma {:induction false} LeadingZeros(b: Base, k: nat, s: seq<nat>)
    ensures FromDigits(b, Zeros(k) + s) == FromDigits(b, s)
    decreases |s|, k
  {
    var t := Zeros(k) + s;
    if s != [] {
      assert t[..|t| - 1] == Zeros(k) + s[..|s| - 1];
      LeadingZeros(b, k, s[..|s| - 1]);
    } else if k > 0 {
      assert t[..|t| - 1] == Zeros(k - 1) + [];
      LeadingZeros(b, k - 1, []);
      assert t[|t| - 1] == 0;
    }
  }

  lemma {:induction false} Below(b: Base, s: seq<nat>)
    requires Digital(b, s)
    ensures FromDigits(b, s) < Pow(b, |s|)
    decreases |s|
  {
    if s != [] {
      Below(b, s[..|s| - 1]);
    }
  }

  lemma {:induction false} AtLeast(b: Base, s: seq<nat>)
    requires s != [] && s[0] > 0
    ensures Pow(b, |s| - 1) <= FromDigits(b, s)
    decreases |s|
  {
    if |s| > 1 {
      AtLeast(b, s[..|s| - 1]);
    } else {
      assert s[..0] == [];
    }
  }

  lemma TimesMoves(b: Base, x: nat, p: nat)
    ensures x * Times(b, p) == Times(b, x * p)
  {
  }

  lemma {:induction false} Joined(b: Base, s: seq<nat>, t: seq<nat>)
    ensures FromDigits(b, s + t) == FromDigits(b, s) * Pow(b, |t|) + FromDigits(b, t)
    decreases |t|
  {
    if t == [] {
      assert s + t == s;
    } else {
      var init := t[..|t| - 1];
      assert (s + t)[..|s + t| - 1] == s + init;
      Joined(b, s, init);
      TimesMoves(b, FromDigits(b, s), Pow(b, |init|));
    }
  }

  lemma {:induction false} PowAdds(b: Base, j: nat, k: nat)
    ensures Pow(b, j + k) == Pow(b, j) * Pow(b, k)
    decreases k
  {
    if k > 0 {
      PowAdds(b, j, k - 1);
      TimesMoves(b, Pow(b, j), Pow(b, k - 1));
    }
  }

  lemma {:induction false} PowGrows(b: Base, j: nat, k: nat)
    requires j <= k
    ensures Pow(b, j) <= Pow(b, k)
    decreases k - j
  {
    if j < k {
      PowGrows(b, j, k - 1);
    }
  }

  /** How long a number is. */
  lemma {:induction false} LengthIs(b: Base, n: nat, k: nat)
    requires k > 0 && Pow(b, k - 1) <= n < Pow(b, k)
    ensures |ToDigits(b, n)| == k
  {
    hide FromDigits, ToDigits, Pow;
    var s := ToDigits(b, n);
    ToDigitsReads(b, n);
    Below(b, s);
    AtLeast(b, s);
    if |s| < k {
      PowGrows(b, |s|, k - 1);
    } else if |s| > k {
      PowGrows(b, k, |s| - 1);
    }
  }

  /** The digits that lead a number. */
  lemma {:induction false} Leads(b: Base, n: nat, k: nat, q: nat)
    requires q > 0 && q * Pow(b, k) <= n < (q + 1) * Pow(b, k)
    ensures ToDigits(b, q) <= ToDigits(b, n)
    decreases k
  {
    if k == 0 {
      assert n == q;
    } else {
      TimesMoves(b, q, Pow(b, k - 1));
      TimesMoves(b, q + 1, Pow(b, k - 1));
      Shift(b, q * Pow(b, k - 1), (q + 1) * Pow(b, k - 1), n);
      AtLeastItself(q, Pow(b, k));
      Leads(b, Quotient(b, n), k - 1, q);
    }
  }

  lemma AtLeastItself(q: nat, p: nat)
    requires p > 0
    ensures q <= q * p
  {
  }

  lemma Shift(b: Base, lo: nat, hi: nat, n: nat)
    requires Times(b, lo) <= n < Times(b, hi)
    ensures lo <= Quotient(b, n) < hi
  {
  }

  /** Digits of the length the number needs have no leading zero. */
  lemma {:induction false} SameLength(b: Base, ds: seq<nat>)
    requires Digital(b, ds) && |ToDigits(b, FromDigits(b, ds))| == |ds|
    ensures ToDigits(b, FromDigits(b, ds)) == ds
  {
    hide FromDigits, ToDigits, Pow;
    if ds != [] {
      var n := FromDigits(b, ds);
      ToDigitsReads(b, n);
      if ds[0] == 0 && n > 0 {
        assert ds == Zeros(1) + ds[1..];
        LeadingZeros(b, 1, ds[1..]);
        Below(b, ds[1..]);
        AtLeast(b, ToDigits(b, n));
      }
      NoughtIsNothing(b, n);
    }
    FromDigitsWrites(b, ds);
  }

  lemma NoughtIsNothing(b: Base, n: nat)
    ensures n == 0 ==> ToDigits(b, n) == []
  {
  }
}
