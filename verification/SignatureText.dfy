/** Signatures as unpadded base64url (section 5 of RFC 4648), in their one canonical spelling. */
module SignatureText {
  import opened Basics
  import opened Digits
  import opened DidKey

  function Digit64(d: nat): (c: char)
    requires d < 64
  {
    if d < 26 then 'A' + d as char
    else if d < 52 then 'a' + (d - 26) as char
    else if d < 62 then '0' + (d - 52) as char
    else if d == 62 then '-'
    else '_'
  }

  function Value64(c: char): (d: Option<nat>)
    ensures d.Some? ==> d.value < 64 && Digit64(d.value) == c
  {
    if 'A' <= c <= 'Z' then Some((c - 'A') as nat)
    else if 'a' <= c <= 'z' then Some((c - 'a') as nat + 26)
    else if '0' <= c <= '9' then Some((c - '0') as nat + 52)
    else if c == '-' then Some(62)
    else if c == '_' then Some(63)
    else None
  }

  lemma Digit64Reads(d: nat)
    requires d < 64
    ensures Value64(Digit64(d)) == Some(d)
  {
  }

  /** The alphabet is A to Z, a to z, 0 to 9, - and _, and nothing else is read. */
  lemma Alphabet64Is(c: char, d: nat, e: nat)
    ensures Digit64(0) == 'A' && Digit64(25) == 'Z' && Digit64(26) == 'a' && Digit64(51) == 'z'
    ensures Digit64(52) == '0' && Digit64(61) == '9' && Digit64(62) == '-' && Digit64(63) == '_'
    ensures d < e < 26 || 26 <= d < e < 52 || 52 <= d < e < 62 ==> Digit64(d) < Digit64(e)
    ensures Value64(c) == Some(d) <==> d < 64 && Digit64(d) == c
  {
    if d < 64 {
      Digit64Reads(d);
    }
  }

  /** Three bytes as four six-bit groups. */
  function Split3(a: nat, b: nat, c: nat): (s: seq<nat>)
    ensures |s| == 4
  {
    [a / 4, a % 4 * 16 + b / 16, b % 16 * 4 + c / 64, c % 64]
  }

  function Merge4(w: nat, x: nat, y: nat, z: nat): (s: seq<nat>)
    ensures |s| == 3
  {
    [w * 4 + x / 16, x % 16 * 16 + y / 4, y % 4 * 64 + z]
  }

  lemma HighOf16(x: nat, y: nat)
    requires y < 16
    ensures (x * 16 + y) / 16 == x && (x * 16 + y) % 16 == y
  {
  }

  lemma HighOf4(x: nat, y: nat)
    requires y < 4
    ensures (x * 4 + y) / 4 == x && (x * 4 + y) % 4 == y
  {
  }

  lemma HighOf64(x: nat, y: nat)
    requires y < 64
    ensures (x * 64 + y) / 64 == x && (x * 64 + y) % 64 == y
  {
  }

  lemma SplitMerges(a: nat, b: nat, c: nat)
    requires a < 256 && b < 256 && c < 256
    ensures var s := Split3(a, b, c);
            Digital(64, s) && Merge4(s[0], s[1], s[2], s[3]) == [a, b, c]
  {
    Pieces(a);
    Pieces(b);
    Pieces(c);
    var (a1, a0, b1, b0, c1, c0) := (a / 4, a % 4, b / 16, b % 16, c / 64, c % 64);
    HighOf16(a0, b1);
    HighOf4(b0, c1);
    assert Merge4(a1, a0 * 16 + b1, b0 * 4 + c1, c0) == [a1 * 4 + a0, b1 * 16 + b0, c1 * 64 + c0];
  }

  lemma Pieces(x: nat)
    requires x < 256
    ensures x / 4 * 4 + x % 4 == x && x / 16 * 16 + x % 16 == x && x / 64 * 64 + x % 64 == x
    ensures x / 4 < 64 && x / 16 < 16 && x / 64 < 4
  {
  }

  lemma Whole(x: nat)
    ensures x / 16 * 16 + x % 16 == x && x / 4 * 4 + x % 4 == x
    ensures x < 64 ==> x / 16 < 4 && x / 4 < 16
  {
  }

  lemma MergeSplits(w: nat, x: nat, y: nat, z: nat)
    requires w < 64 && x < 64 && y < 64 && z < 64
    ensures var s := Merge4(w, x, y, z);
            Digital(256, s) && Split3(s[0], s[1], s[2]) == [w, x, y, z]
  {
    Whole(x);
    Whole(y);
    var (x1, x0, y1, y0) := (x / 16, x % 16, y / 4, y % 4);
    HighOf4(w, x1);
    HighOf16(x0, y1);
    HighOf64(y0, z);
    assert Split3(w * 4 + x1, x0 * 16 + y1, y0 * 64 + z) == [w, x1 * 16 + x0, y1 * 4 + y0, z];
  }

  /** What encoding does with bytes; one or two left over make two or three groups. */
  function Sextets(raw: Bytes): seq<nat> {
    if raw == [] then []
    else if |raw| == 1 then [raw[0] / 4, raw[0] % 4 * 16]
    else if |raw| == 2 then [raw[0] / 4, raw[0] % 4 * 16 + raw[1] / 16, raw[1] % 16 * 4]
    else Split3(raw[0], raw[1], raw[2]) + Sextets(raw[3..])
  }

  /** The decoder's way back, which drops whatever the last group's spare bits hold. */
  function Octets(v: seq<nat>): Bytes {
    if |v| < 2 then []
    else if |v| == 2 then [v[0] * 4 + v[1] / 16]
    else if |v| == 3 then [v[0] * 4 + v[1] / 16, v[1] % 16 * 16 + v[2] / 4]
    else Merge4(v[0], v[1], v[2], v[3]) + Octets(v[4..])
  }

  /** The groups are the bytes' bits, in order: every three bytes are as one number the four groups
      that stand for them, and the last byte is the last two groups, four bits up. */
  lemma {:induction false} GroupsAreBits(raw: Bytes, g: nat)
    requires |raw| % 3 == 1 && 3 * g < |raw|
    ensures var v := Sextets(raw);
            4 * g + 1 < |v|
            && if 3 * g + 1 == |raw| then |v| == 4 * g + 2 && v[4 * g] * 64 + v[4 * g + 1] == raw[3 * g] * 16
               else
                 && 4 * g + 3 < |v|
                 && v[4 * g] * 262144 + v[4 * g + 1] * 4096 + v[4 * g + 2] * 64 + v[4 * g + 3]
                    == raw[3 * g] * 65536 + raw[3 * g + 1] * 256 + raw[3 * g + 2]
    decreases |raw|
  {
    if g > 0 {
      GroupsAreBits(raw[3..], g - 1);
      var (head, rest) := (Split3(raw[0], raw[1], raw[2]), Sextets(raw[3..]));
      assert Sextets(raw) == head + rest;
      assert forall i | 4 <= i < |rest| + 4 :: Sextets(raw)[i] == rest[i - 4];
    } else if |raw| > 1 {
      var (head, rest) := (Split3(raw[0], raw[1], raw[2]), Sextets(raw[3..]));
      assert Sextets(raw) == head + rest;
      GroupsAreBits(raw[3..], 0);
    }
  }

  /** Two bytes left over are three groups, two bits up, and come back. */
  lemma TwoLeftOver(x: nat, y: nat)
    requires x < 256 && y < 256
    ensures var v := Sextets([x, y]);
            && |v| == 3 && Digital(64, v) && v[0] * 4096 + v[1] * 64 + v[2] == (x * 256 + y) * 4
            && Octets(v) == [x, y]
  {
    Pieces(x);
    Pieces(y);
    HighOf16(x % 4, y / 16);
    HighOf4(y % 16, 0);
  }

  lemma LastByte(x: nat)
    requires x < 256
    ensures Digital(64, Sextets([x])) && Octets(Sextets([x])) == [x]
    ensures |Sextets([x])| == 2 && Sextets([x])[1] % 16 == 0
  {
    HighOf16(x % 4, 0);
    Pieces(x);
  }

  /** Bytes one over a multiple of three - 64 of them, say - come back from their groups. */
  lemma {:induction false} SextetsRead(raw: Bytes)
    requires AreBytes(raw) && |raw| % 3 == 1
    ensures Digital(64, Sextets(raw)) && Octets(Sextets(raw)) == raw
    ensures 3 * |Sextets(raw)| == 4 * |raw| + 2
    ensures Sextets(raw)[|Sextets(raw)| - 1] % 16 == 0
    decreases |raw|
  {
    if |raw| == 1 {
      LastByte(raw[0]);
      assert raw == [raw[0]];
    } else {
      var (head, rest) := (Split3(raw[0], raw[1], raw[2]), Sextets(raw[3..]));
      assert Sextets(raw) == head + rest;
      hide Split3, Merge4, Sextets, Octets;
      SextetsRead(raw[3..]);
      SplitMerges(raw[0], raw[1], raw[2]);
      OctetsStep(head, rest);
      assert raw == [raw[0], raw[1], raw[2]] + raw[3..];
    }
  }

  lemma OctetsStep(head: seq<nat>, rest: seq<nat>)
    requires |head| == 4
    ensures Octets(head + rest) == Merge4(head[0], head[1], head[2], head[3]) + Octets(rest)
  {
    hide Merge4;
    assert (head + rest)[4..] == rest;
  }

  lemma {:induction false} OctetsWrite(v: seq<nat>)
    requires Digital(64, v) && |v| % 4 == 2 && v[|v| - 1] % 16 == 0
    ensures AreBytes(Octets(v)) && Sextets(Octets(v)) == v
    ensures 4 * |Octets(v)| == 3 * |v| - 2
    decreases |v|
  {
    if |v| > 2 {
      hide Split3, Merge4;
      OctetsWrite(v[4..]);
      MergeSplits(v[0], v[1], v[2], v[3]);
      var head := Merge4(v[0], v[1], v[2], v[3]);
      var r := head + Octets(v[4..]);
      assert r[3..] == Octets(v[4..]);
      assert v == [v[0], v[1], v[2], v[3]] + v[4..];
    }
  }

  function Chars64(v: seq<nat>): (s: string)
    requires Digital(64, v)
    ensures |s| == |v| && forall i | 0 <= i < |v| :: s[i] == Digit64(v[i])
  {
    seq(|v|, i requires 0 <= i < |v| => Digit64(v[i]))
  }

  /** `SIG_RE`. */
  predicate IsSignatureText(s: string) {
    && |s| == SIG_CHARS
    && (forall i | 0 <= i < |s| :: Value64(s[i]).Some?)
    && s[|s| - 1] in {'A', 'Q', 'g', 'w'}
  }

  function Values64(s: string): (v: seq<nat>)
    requires forall i | 0 <= i < |s| :: Value64(s[i]).Some?
    ensures |v| == |s| && Digital(64, v) && forall i | 0 <= i < |s| :: Value64(s[i]) == Some(v[i])
  {
    seq(|s|, i requires 0 <= i < |s| => Value64(s[i]).value)
  }

  function EncodeSignature(raw: Bytes): Result<string, DidError>
    requires AreBytes(raw)
  {
    if |raw| != 64 then Err(BadLength)
    else
      SextetsRead(raw);
      Ok(Chars64(Sextets(raw)))
  }

  function DecodeSignature(s: string): Result<Bytes, DidError> {
    if IsSignatureText(s) then Ok(Octets(Values64(s))) else Err(BadSignature)
  }

  /** Every 64 bytes have a spelling the decoder takes, and it gives them back. */
  lemma {:induction false} SignatureReadsBack(raw: Bytes)
    requires |raw| == 64 && AreBytes(raw)
    ensures EncodeSignature(raw).Ok?
    ensures DecodeSignature(EncodeSignature(raw).value) == Ok(raw)
  {
    hide Sextets, Octets, Digit64, Value64;
    SextetsRead(raw);
    var v := Sextets(raw);
    var s := Chars64(v);
    forall i | 0 <= i < |v| ensures Value64(s[i]) == Some(v[i]) {
      Digit64Reads(v[i]);
    }
    assert Values64(s) == v;
    LastOfFour(v[|v| - 1]);
  }

  lemma LastOfFour(d: nat)
    requires d < 64
    ensures d % 16 == 0 <==> Digit64(d) in {'A', 'Q', 'g', 'w'}
  {
  }

  /** The decoder takes one spelling only: whatever it takes is 64 bytes' own encoding. */
  lemma {:induction false} OneSignatureText(s: string)
    requires DecodeSignature(s).Ok?
    ensures |DecodeSignature(s).value| == 64 && AreBytes(DecodeSignature(s).value)
    ensures EncodeSignature(DecodeSignature(s).value) == Ok(s)
  {
    hide Sextets, Octets, Digit64, Value64;
    var v := Values64(s);
    LastOfFour(v[|v| - 1]);
    ValueSpells(s, v);
    OctetsWrite(v);
  }

  lemma ValueSpells(s: string, v: seq<nat>)
    requires (forall i | 0 <= i < |s| :: Value64(s[i]).Some?) && v == Values64(s)
    ensures Chars64(v) == s && (s != [] ==> Digit64(v[|v| - 1]) == s[|s| - 1])
  {
    hide Digit64;
    forall i | 0 <= i < |s| ensures Digit64(v[i]) == s[i] {
      assert Value64(s[i]) == Some(v[i]);
    }
  }
}
