/** `did:key` identifiers and the signature encoding: one spelling each. */
module DidKey {
  import opened Basics
  import opened Digits

  const PREFIX := "did:key:"
  const MULTIBASE_CHARS := 48
  const SIG_CHARS := 86
  const MULTICODEC_ED25519: seq<nat> := [0xED, 0x01]

  type Bytes = seq<nat>

  ghost predicate AreBytes(s: Bytes) {
    Digital(256, s)
  }

  datatype DidError = NotADid | BadAlphabet | BadLength | NotEd25519 | BadSignature

  // ------------------------------------------------------------------ base58btc

  /** The alphabet, which leaves out 0, O, I and l. */
  function Digit58(d: nat): (c: char)
    requires d < 58
  {
    if d < 9 then '1' + d as char
    else if d < 17 then 'A' + (d - 9) as char
    else if d < 22 then 'J' + (d - 17) as char
    else if d < 33 then 'P' + (d - 22) as char
    else if d < 44 then 'a' + (d - 33) as char
    else 'm' + (d - 44) as char
  }

  function Value58(c: char): (d: Option<nat>)
    ensures d.Some? ==> d.value < 58 && Digit58(d.value) == c
  {
    if '1' <= c <= '9' then Some((c - '1') as nat)
    else if 'A' <= c <= 'H' then Some((c - 'A') as nat + 9)
    else if 'J' <= c <= 'N' then Some((c - 'J') as nat + 17)
    else if 'P' <= c <= 'Z' then Some((c - 'P') as nat + 22)
    else if 'a' <= c <= 'k' then Some((c - 'a') as nat + 33)
    else if 'm' <= c <= 'z' then Some((c - 'm') as nat + 44)
    else None
  }

  lemma Digit58Reads(d: nat)
    requires d < 58
    ensures Value58(Digit58(d)) == Some(d)
  {
  }

  /** The alphabet is the digits and letters but 0, O, I and l, in ASCII order, and nothing else is
      read. */
  lemma AlphabetIs(c: char, d: nat, e: nat)
    ensures d < e < 58 ==> Digit58(d) < Digit58(e)
    ensures (exists k | 0 <= k < 58 :: Digit58(k) == c) <==>
            ('0' <= c <= '9' || 'A' <= c <= 'Z' || 'a' <= c <= 'z') && c !in {'0', 'O', 'I', 'l'}
    ensures Value58(c) == Some(d) <==> d < 58 && Digit58(d) == c
  {
    if d < 58 {
      Digit58Reads(d);
    }
    if Value58(c).Some? {
      assert Digit58(Value58(c).value) == c;
    }
  }

  function Chars58(ds: seq<nat>): (s: string)
    requires Digital(58, ds)
    ensures |s| == |ds| && forall i | 0 <= i < |ds| :: s[i] == Digit58(ds[i])
  {
    seq(|ds|, i requires 0 <= i < |ds| => Digit58(ds[i]))
  }

  predicate AllBase58(s: string) {
    forall i | 0 <= i < |s| :: Value58(s[i]).Some?
  }

  function Values58(s: string): (ds: seq<nat>)
    requires AllBase58(s)
    ensures |ds| == |s| && Digital(58, ds) && forall i | 0 <= i < |s| :: Value58(s[i]) == Some(ds[i])
  {
    seq(|s|, i requires 0 <= i < |s| => Value58(s[i]).value)
  }

  function LeadingZeroBytes(raw: Bytes): (k: nat)
    ensures k <= |raw| && (forall i | 0 <= i < k :: raw[i] == 0) && (k < |raw| ==> raw[k] != 0)
  {
    if raw != [] && raw[0] == 0 then 1 + LeadingZeroBytes(raw[1..]) else 0
  }

  /** What base58 of some bytes is: a '1' for each leading zero byte, then the number's digits. */
  function Encoded58(raw: Bytes): string {
    ToDigitsReads(58, FromDigits(256, raw));
    seq(LeadingZeroBytes(raw), i => '1') + Chars58(ToDigits(58, FromDigits(256, raw)))
  }

  function Decoded58(s: string): Option<Bytes> {
    if AllBase58(s) then Some(ToDigits(256, FromDigits(58, Values58(s)))) else None
  }

  /** `_b58encode`. */
  method B58Encode(raw: Bytes) returns (out: string)
    ensures out == Encoded58(raw)
  {
    hide FromDigits, ToDigits, Digit58;
    var n := FromDigits(256, raw);
    ToDigitsReads(58, n);
    ghost var all := Chars58(ToDigits(58, n));
    out := "";
    while n != 0
      invariant Digital(58, ToDigits(58, n)) && Chars58(ToDigits(58, n)) + out == all
      decreases n
    {
      var rem := Remainder(58, n);
      ToDigitsReads(58, Quotient(58, n));
      LastDigit(n);
      OneMoreChar(ToDigits(58, Quotient(58, n)), rem, out);
      n := Quotient(58, n);
      out := [Digit58(rem)] + out;
    }
    Nothing58();
    assert Chars58([]) + out == out;
    out := seq(LeadingZeroBytes(raw), i => '1') + out;
  }

  lemma LastDigit(n: nat)
    requires n > 0
    ensures ToDigits(58, n) == ToDigits(58, Quotient(58, n)) + [Remainder(58, n)]
  {
  }

  lemma Nothing58()
    ensures ToDigits(58, 0) == [] && Chars58([]) == []
  {
  }

  lemma OneMoreChar(ds: seq<nat>, r: nat, out: string)
    requires Digital(58, ds) && r < 58
    ensures Digital(58, ds + [r])
    ensures Chars58(ds + [r]) + out == Chars58(ds) + ([Digit58(r)] + out)
  {
    assert Chars58(ds + [r]) == Chars58(ds) + [Digit58(r)];
  }

  /** `_b58decode`: None for a character outside the alphabet. */
  method B58Decode(raw: string) returns (bytes: Option<Bytes>)
    ensures bytes == Decoded58(raw)
  {
    hide FromDigits, ToDigits, Value58;
    var n: nat := 0;
    Nothing256();
    for i := 0 to |raw|
      invariant AllBase58(raw[..i]) && n == FromDigits(58, Values58(raw[..i]))
    {
      var digit := Value58(raw[i]);
      if digit.None? {
        return None;
      }
      assert raw[..i + 1] == raw[..i] + [raw[i]];
      assert Values58(raw[..i + 1]) == Values58(raw[..i]) + [digit.value];
      OneMoreDigit(58, Values58(raw[..i]), digit.value);
      n := n * 58 + digit.value;
    }
    assert raw[..|raw|] == raw;
    return Some(ToDigits(256, n));
  }

  lemma Nothing256()
    ensures FromDigits(58, []) == 0 && Values58([]) == []
  {
  }

  /** What decoding gives back of any bytes: all but the leading zeros, which are written as 1s and
      read as nothing. */
  lemma {:induction false} Base58ReadsBack(raw: Bytes)
    requires AreBytes(raw)
    ensures forall i | 0 <= i < |Encoded58(raw)| && i < LeadingZeroBytes(raw) :: Encoded58(raw)[i] == '1'
    ensures LeadingZeroBytes(raw) <= |Encoded58(raw)|
    ensures Decoded58(Encoded58(raw)) == Some(raw[LeadingZeroBytes(raw)..])
  {
    hide ToDigits, FromDigits, Digit58, Value58;
    var k, n := LeadingZeroBytes(raw), FromDigits(256, raw);
    ToDigitsReads(58, n);
    var ds := ToDigits(58, n);
    OneIsNought();
    CharsRead(ds);
    var s := Encoded58(raw);
    assert s == seq(k, i => '1') + Chars58(ds);
    forall i | 0 <= i < |s| ensures Value58(s[i]) == Some((Zeros(k) + ds)[i]) {
      if i >= k {
        assert s[i] == Chars58(ds)[i - k] && Value58(Chars58(ds)[i - k]) == Some(Values58(Chars58(ds))[i - k]);
      }
    }
    assert Values58(s) == Zeros(k) + ds;
    LeadingZeros(58, k, ds);
    assert raw == Zeros(k) + raw[k..];
    LeadingZeros(256, k, raw[k..]);
    FromDigitsWrites(256, raw[k..]);
  }

  lemma OneIsNought()
    ensures Value58('1') == Some(0)
  {
  }

  // ------------------------------------------------------------------ did:key

  /** `encode_did`. */
  function EncodeDid(raw: Bytes): Result<string, DidError> {
    if |raw| != 32 then Err(BadLength) else Ok(PREFIX + "z" + Encoded58(MULTICODEC_ED25519 + raw))
  }

  /** `public_key_bytes`. */
  function PublicKeyBytes(did: string): Result<Bytes, DidError> {
    if !(PREFIX <= did) then Err(NotADid)
    else
      var mb := did[|PREFIX|..];
      if |mb| != MULTIBASE_CHARS || mb[0] != 'z' then Err(BadLength)
      else
        match Decoded58(mb[1..])
        case None => Err(BadAlphabet)
        case Some(decoded) =>
          if |decoded| != 34 || !(MULTICODEC_ED25519 <= decoded) then Err(NotEd25519)
          else Ok(decoded[2..])
  }

  // the powers that decide how long an encoding is and how it begins
  const POW_58_44 := 389790918707373377135528568990913592653094657612049369038476873218241589149696
  const POW_256_32 := 115792089237316195423570985008687907853269984665640564039457584007913129639936

  lemma Raised(b: Base, j: nat, k: nat, p: nat, q: nat)
    requires Pow(b, j) == p && Pow(b, k) == q
    ensures Pow(b, j + k) == p * q
  {
    PowAdds(b, j, k);
  }

  lemma Powers58()
    ensures Pow(58, 2) == 3364 && Pow(58, 3) == 195112 && Pow(58, 44) == POW_58_44
  {
    assert Pow(58, 1) == 58;
    hide Pow;
    Raised(58, 1, 1, 58, 58);
    Raised(58, 1, 2, 58, 3364);
    Raised(58, 2, 3, 3364, 195112);
    Raised(58, 5, 5, 656356768, 656356768);
    Raised(58, 1, 10, 58, 430804206899405824);
    Raised(58, 11, 11, 24986644000165537792, 24986644000165537792);
    Raised(58, 22, 22, 624332378391008467754527498760580235264, 624332378391008467754527498760580235264);
  }

  lemma Powers256()
    ensures Pow(256, 32) == POW_256_32
  {
    assert Pow(256, 1) == 256;
    hide Pow;
    Raised(256, 1, 1, 256, 256);
    Raised(256, 2, 2, 65536, 65536);
    Raised(256, 4, 4, 4294967296, 4294967296);
    Raised(256, 8, 8, 18446744073709551616, 18446744073709551616);
    Raised(256, 16, 16, 340282366920938463463374607431768211456, 340282366920938463463374607431768211456);
  }

  /** The number a tagged key is, and the bounds that fix its length and its first digits. */
  lemma {:induction false} TaggedKey(raw: Bytes) returns (n: nat)
    requires |raw| == 32 && AreBytes(raw)
    ensures n == FromDigits(256, MULTICODEC_ED25519 + raw)
    ensures 18023 * Pow(58, 44) <= n < 18024 * Pow(58, 44)
    ensures Pow(58, 46) <= n < Pow(58, 47)
  {
    n := FromDigits(256, MULTICODEC_ED25519 + raw);
    Joined(256, MULTICODEC_ED25519, raw);
    Tag();
    Below(256, raw);
    Powers58();
    Powers256();
    PowAdds(58, 2, 44);
    PowAdds(58, 3, 44);
  }

  lemma Tag()
    ensures FromDigits(256, MULTICODEC_ED25519) == 60673
  {
    assert MULTICODEC_ED25519[..1] == [0xED] && [0xED][..0] == [];
  }

  /** "6Mk", by its digits. */
  lemma Top()
    ensures ToDigits(58, 18023) == [5, 20, 43]
    ensures Digit58(5) == '6' && Digit58(20) == 'M' && Digit58(43) == 'k'
  {
    assert ToDigits(58, 5) == [5];
    assert ToDigits(58, 310) == [5, 20];
  }

  lemma {:induction false} DidSpelled(raw: Bytes)
    requires |raw| == 32 && AreBytes(raw)
    ensures EncodeDid(raw).Ok?
    ensures var did := EncodeDid(raw).value;
            |did| == |PREFIX| + MULTIBASE_CHARS && PREFIX + "z6Mk" <= did && AllBase58(did[|PREFIX| + 1..])
  {
    hide ToDigits, FromDigits, Pow, Digit58, Value58;
    var n := TaggedKey(raw);
    ToDigitsReads(58, n);
    LengthIs(58, n, 47);
    Leads(58, n, 44, 18023);
    Top();
    NoLeadingZeros(raw);
    var ds := ToDigits(58, n);
    var did := EncodeDid(raw).value;
    assert did == PREFIX + "z" + ([] + Chars58(ds));
    assert did[|PREFIX| + 1..] == Chars58(ds);
    forall i | 0 <= i < |ds| ensures Value58(Chars58(ds)[i]).Some? {
      Digit58Reads(ds[i]);
    }
    assert Chars58(ds)[..3] == "6Mk";
    assert did[..|PREFIX| + 4] == PREFIX + "z6Mk";
  }

  lemma PrefixIs()
    ensures |PREFIX| == 8 && PREFIX + "z6Mk" == "did:key:z6Mk"
  {
  }

  /** Every encoding is did:key: and 48 multibase characters that begin z6Mk. */
  lemma {:induction false} EveryDidBegins(raw: Bytes)
    requires |raw| == 32 && AreBytes(raw)
    ensures EncodeDid(raw).Ok?
    ensures var did := EncodeDid(raw).value;
            |did| == 56 && "did:key:z6Mk" <= did && AllBase58(did[9..])
  {
    hide EncodeDid;
    PrefixIs();
    DidSpelled(raw);
  }

  lemma NoLeadingZeros(raw: Bytes)
    ensures seq(LeadingZeroBytes(MULTICODEC_ED25519 + raw), i => '1') == []
  {
  }

  lemma CharsRead(ds: seq<nat>)
    requires Digital(58, ds)
    ensures AllBase58(Chars58(ds)) && Values58(Chars58(ds)) == ds
  {
    forall i | 0 <= i < |ds| ensures Value58(Chars58(ds)[i]) == Some(ds[i]) {
      Digit58Reads(ds[i]);
    }
  }

  /** Every key can be got back from its identifier. */
  lemma {:induction false} KeyReadsBack(raw: Bytes)
    requires |raw| == 32 && AreBytes(raw)
    ensures PublicKeyBytes(EncodeDid(raw).value) == Ok(raw)
  {
    hide ToDigits, FromDigits, Pow, Digit58, Value58;
    DidSpelled(raw);
    NoLeadingZeros(raw);
    var tagged := MULTICODEC_ED25519 + raw;
    var n := FromDigits(256, tagged);
    ToDigitsReads(58, n);
    var did := EncodeDid(raw).value;
    assert did == PREFIX + "z" + ([] + Chars58(ToDigits(58, n)));
    var mb := did[|PREFIX|..];
    assert mb[0] == 'z' && mb[1..] == Chars58(ToDigits(58, n));
    CharsRead(ToDigits(58, n));
    FromDigitsWrites(256, tagged);
    assert tagged[2..] == raw;
  }

  /** No accepted identifier has a second spelling: it is what its key encodes to. */
  lemma {:induction false} NoSecondSpelling(did: string)
    requires PublicKeyBytes(did).Ok?
    ensures |PublicKeyBytes(did).value| == 32 && AreBytes(PublicKeyBytes(did).value)
    ensures EncodeDid(PublicKeyBytes(did).value) == Ok(did) && |did| == 56 && "did:key:z6Mk" <= did
  {
    hide ToDigits, FromDigits, Pow, Digit58, Value58;
    var mb := did[|PREFIX|..];
    var ds := Values58(mb[1..]);
    var n := FromDigits(58, ds);
    var raw := PublicKeyBytes(did).value;
    ToDigitsReads(256, n);
    assert ToDigits(256, n) == MULTICODEC_ED25519 + raw;
    var m := TaggedKey(raw);
    LengthIs(58, n, 47);
    SameLength(58, ds);
    NoLeadingZeros(raw);
    assert Chars58(ds) == mb[1..] by {
      forall i | 0 <= i < |ds| ensures Chars58(ds)[i] == mb[1..][i] {
        assert Value58(mb[1..][i]) == Some(ds[i]);
      }
    }
    assert did == PREFIX + "z" + ([] + Chars58(ds));
    EveryDidBegins(raw);
  }
}
