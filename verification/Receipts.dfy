/** Receipts: sealed, checked one by one, and checked as a chain. */
module Receipts {
  import opened Basics
  import opened Numerals
  import opened Numbers
  import opened JsonStrings
  import opened MemberOrder
  import opened Canonical
  import Serializer

  type Members = seq<Entry<Json>>

  /** The names of fields, as code points. */
  const SIG := [115, 105, 103]
  const RECEIPT_HASH := [114, 101, 99, 101, 105, 112, 116, 95, 104, 97, 115, 104]
  const PROVIDER_DID := [112, 114, 111, 118, 105, 100, 101, 114, 95, 100, 105, 100]
  const REQUESTER_DID := [114, 101, 113, 117, 101, 115, 116, 101, 114, 95, 100, 105, 100]
  const REQUEST_HASH := [114, 101, 113, 117, 101, 115, 116, 95, 104, 97, 115, 104]
  const RESULT_HASH := [114, 101, 115, 117, 108, 116, 95, 104, 97, 115, 104]
  const JOB_ID := [106, 111, 98, 95, 105, 100]
  const CREATED_AT := [99, 114, 101, 97, 116, 101, 100, 95, 97, 116]

  const REQUIRED := [RECEIPT_HASH, SIG, PROVIDER_DID, REQUESTER_DID, REQUEST_HASH, RESULT_HASH, JOB_ID]

  /** SHA-256 and Ed25519, and Python's str() and truth of a value: functions of what they are given. `hash` and `sign`
      work on a canonical text, which stands for its UTF-8 bytes. */
  datatype Crypto = Crypto(
    hash: Text -> Text,
    isDid: Json -> bool,
    sign: (Json, Text) -> Text,
    verifyOk: (Json, Json, Text) -> bool,
    str: Json -> Text,
    truthy: Json -> bool)
  {
    /** No two texts hash alike, what a key signs verifies under its own identifier, and both give
        plain ASCII. */
    ghost predicate Sound() {
      && (forall t, u | hash(t) == hash(u) :: t == u)
      && (forall did, t | isDid(did) :: verifyOk(did, Str(sign(did, t)), t))
      && (forall t :: CodePoints(hash(t)) && Encodable(hash(t)))
      && (forall did, t :: CodePoints(sign(did, t)) && Encodable(sign(did, t)))
    }
  }

  function Get(members: Members, key: Text): Option<Json> {
    if members == [] then None
    else if members[0].key == key then Some(members[0].value)
    else Get(members[1..], key)
  }

  /** `_without`. */
  function Without(members: Members, keys: seq<Text>): Members {
    if members == [] then []
    else (if members[0].key in keys then [] else [members[0]]) + Without(members[1..], keys)
  }

  /** `canonical_bytes`: None when it raises. */
  function CanonicalBytes(a: Doubles, v: Json): Option<Text> {
    if Accepts(a, v, 0) && Encodable(Render(a, v)) then Some(Render(a, v)) else None
  }

  // ------------------------------------------------------------------ one receipt

  /** `build_receipt`, from the fields it assembles on: the hash of those, and a signature over
      those and the hash. */
  function Seal(a: Doubles, c: Crypto, did: Json, body: Members): Option<Members> {
    match CanonicalBytes(a, Obj(body))
    case None => None
    case Some(text) =>
      var hashed := body + [Entry(RECEIPT_HASH, Str(c.hash(text)))];
      match CanonicalBytes(a, Obj(hashed))
      case None => None
      case Some(payload) => Some(hashed + [Entry(SIG, Str(c.sign(did, payload)))])
  }

  datatype Problem =
    | Missing(field: Text)
    | HashMismatch
    | BadProvider
    | BadRequester
    | BadSignature
    | Duplicate(first: nat)

  function MissingFields(members: Members, fields: seq<Text>): seq<Problem> {
    if fields == [] then []
    else (if Get(members, fields[0]).None? then [Missing(fields[0])] else [])
         + MissingFields(members, fields[1..])
  }

  lemma {:induction false} NoneMissing(members: Members, fields: seq<Text>)
    ensures MissingFields(members, fields) == []
            <==> forall i | 0 <= i < |fields| :: Get(members, fields[i]).Some?
    decreases |fields|
  {
    if fields != [] {
      NoneMissing(members, fields[1..]);
      assert forall i | 1 <= i < |fields| :: fields[i] == fields[1..][i - 1];
    }
  }

  /** `verify_receipt`: its problems, or None when the canonical form raises. */
  function VerifyReceipt(a: Doubles, c: Crypto, r: Members): Option<seq<Problem>> {
    var missing := MissingFields(r, REQUIRED);
    if missing != [] then Some(missing)
    else
      NoneMissing(r, REQUIRED);
      assert REQUIRED[0] == RECEIPT_HASH && REQUIRED[1] == SIG && REQUIRED[2] == PROVIDER_DID;
      assert REQUIRED[3] == REQUESTER_DID;
      match CanonicalBytes(a, Obj(Without(r, [SIG, RECEIPT_HASH])))
      case None => None
      case Some(text) =>
        var hashed := if Get(r, RECEIPT_HASH).value == Str(c.hash(text)) then [] else [HashMismatch];
        if !c.isDid(Get(r, PROVIDER_DID).value) then Some(hashed + [BadProvider])
        else if !c.isDid(Get(r, REQUESTER_DID).value) then Some(hashed + [BadRequester])
        else
          match CanonicalBytes(a, Obj(Without(r, [SIG])))
          case None => None
          case Some(payload) =>
            Some(hashed + if c.verifyOk(Get(r, PROVIDER_DID).value, Get(r, SIG).value, payload)
                          then [] else [BadSignature])
  }

  // ------------------------------------------------------------------ what is accepted

  lemma FieldNames()
    ensures SIG == Chars("sig") && RECEIPT_HASH == Chars("receipt_hash")
    ensures PROVIDER_DID == Chars("provider_did") && REQUESTER_DID == Chars("requester_did")
    ensures REQUEST_HASH == Chars("request_hash") && RESULT_HASH == Chars("result_hash")
    ensures JOB_ID == Chars("job_id") && CREATED_AT == Chars("created_at")
  {
  }

  ghost predicate HasAllFields(r: Members) {
    && Get(r, Chars("receipt_hash")).Some? && Get(r, Chars("sig")).Some?
    && Get(r, Chars("provider_did")).Some? && Get(r, Chars("requester_did")).Some?
    && Get(r, Chars("request_hash")).Some? && Get(r, Chars("result_hash")).Some?
    && Get(r, Chars("job_id")).Some?
  }

  /** The document has a canonical form that can be encoded, and this is it. */
  ghost predicate CanonicalIs(a: Doubles, v: Json, text: Text) {
    Accepts(a, v, 0) && Encodable(Render(a, v)) && text == Render(a, v)
  }

  /** The hash is that of everything but the hash and the signature. */
  ghost predicate HashHolds(a: Doubles, c: Crypto, r: Members) {
    exists text :: CanonicalIs(a, Obj(Without(r, [Chars("sig"), Chars("receipt_hash")])), text)
                   && Get(r, Chars("receipt_hash")) == Some(Str(c.hash(text)))
  }

  /** The signature is the provider's over everything but itself. */
  ghost predicate SignatureHolds(a: Doubles, c: Crypto, r: Members)
    requires HasAllFields(r)
  {
    exists text :: CanonicalIs(a, Obj(Without(r, [Chars("sig")])), text)
                   && c.verifyOk(Get(r, Chars("provider_did")).value, Get(r, Chars("sig")).value, text)
  }

  /** A receipt that is what it says: every field there, its hash, both identifiers, its signature. */
  ghost predicate Genuine(a: Doubles, c: Crypto, r: Members) {
    && HasAllFields(r) && HashHolds(a, c, r) && SignatureHolds(a, c, r)
    && c.isDid(Get(r, Chars("provider_did")).value) && c.isDid(Get(r, Chars("requester_did")).value)
  }

  lemma {:induction false} AllFieldsAreRequired(r: Members)
    ensures MissingFields(r, REQUIRED) == [] <==> HasAllFields(r)
  {
    hide Get;
    FieldNames();
    NoneMissing(r, REQUIRED);
    assert |REQUIRED| == 7 && REQUIRED[0] == RECEIPT_HASH && REQUIRED[1] == SIG && REQUIRED[2] == PROVIDER_DID;
    assert REQUIRED[3] == REQUESTER_DID && REQUIRED[4] == REQUEST_HASH && REQUIRED[5] == RESULT_HASH;
    assert REQUIRED[6] == JOB_ID;
  }

  lemma {:induction false} CanonicalBytesIs(a: Doubles, v: Json)
    ensures CanonicalBytes(a, v).Some? <==> exists text :: CanonicalIs(a, v, text)
    ensures forall text :: CanonicalIs(a, v, text) <==> CanonicalBytes(a, v) == Some(text)
  {
    hide Accepts, Render, Encodable;
    if CanonicalBytes(a, v).Some? {
      assert CanonicalIs(a, v, Render(a, v));
    }
  }

  /** A receipt is accepted exactly when it is genuine. */
  lemma {:induction false} AcceptedExactlyWhenGenuine(a: Doubles, c: Crypto, r: Members)
    ensures VerifyReceipt(a, c, r) == Some([]) <==> Genuine(a, c, r)
  {
    hide Get, Without, MissingFields, CanonicalBytes, CanonicalIs, Chars;
    FieldNames();
    AllFieldsAreRequired(r);
    CanonicalBytesIs(a, Obj(Without(r, [SIG, RECEIPT_HASH])));
    CanonicalBytesIs(a, Obj(Without(r, [SIG])));
  }

  /** Whose signature was not made over the rest is never accepted, whatever its hash. */
  lemma {:induction false} UnsignedIsRefused(a: Doubles, c: Crypto, r: Members)
    requires HasAllFields(r) && !SignatureHolds(a, c, r)
    ensures VerifyReceipt(a, c, r) != Some([])
  {
    AcceptedExactlyWhenGenuine(a, c, r);
  }

  /** Of a receipt with every field, each problem found is there, and each that is there and was
      looked for is found; a bad identifier leaves the signature unlooked at. */
  lemma {:induction false} ProblemsAreFound(a: Doubles, c: Crypto, r: Members)
    requires HasAllFields(r) && VerifyReceipt(a, c, r).Some?
    ensures var problems := VerifyReceipt(a, c, r).value;
            var (provider, requester) :=
              (Get(r, Chars("provider_did")).value, Get(r, Chars("requester_did")).value);
            && (HashMismatch in problems <==> !HashHolds(a, c, r))
            && (BadProvider in problems <==> !c.isDid(provider))
            && (BadRequester in problems <==> c.isDid(provider) && !c.isDid(requester))
            && (BadSignature in problems <==>
                  c.isDid(provider) && c.isDid(requester) && !SignatureHolds(a, c, r))
  {
    hide Get, Without, MissingFields, CanonicalBytes, CanonicalIs, Chars;
    FieldNames();
    AllFieldsAreRequired(r);
    CanonicalBytesIs(a, Obj(Without(r, [SIG, RECEIPT_HASH])));
    CanonicalBytesIs(a, Obj(Without(r, [SIG])));
  }

  // ------------------------------------------------------------------ looking up and leaving out

  /** What is looked up is the first under that name. */
  lemma {:induction false} GetIsFirst(s: Members, key: Text, i: nat)
    requires i < |s| && s[i].key == key && forall k | 0 <= k < i :: s[k].key != key
    ensures Get(s, key) == Some(s[i].value)
    decreases |s|
  {
    if i > 0 {
      assert forall k | 0 <= k < i - 1 :: s[1..][k] == s[k + 1];
      GetIsFirst(s[1..], key, i - 1);
    }
  }

  lemma {:induction false} WithoutJoined(s: Members, t: Members, keys: seq<Text>)
    ensures Without(s + t, keys) == Without(s, keys) + Without(t, keys)
    decreases |s|
  {
    if s == [] {
      assert s + t == t;
    } else {
      assert (s + t)[1..] == s[1..] + t;
      WithoutJoined(s[1..], t, keys);
    }
  }

  lemma {:induction false} WithoutNone(s: Members, keys: seq<Text>)
    requires forall i | 0 <= i < |s| :: s[i].key !in keys
    ensures Without(s, keys) == s
    decreases |s|
  {
    if s != [] {
      WithoutNone(s[1..], keys);
      assert s == [s[0]] + s[1..];
    }
  }

  lemma {:induction false} GetJoined(s: Members, t: Members, key: Text)
    ensures Get(s + t, key) == if Get(s, key).Some? then Get(s, key) else Get(t, key)
    decreases |s|
  {
    if s == [] {
      assert s + t == t;
    } else {
      assert (s + t)[1..] == s[1..] + t;
      GetJoined(s[1..], t, key);
    }
  }

  lemma {:induction false} GetAbsent(s: Members, key: Text)
    ensures Get(s, key).None? <==> forall i | 0 <= i < |s| :: s[i].key != key
    decreases |s|
  {
    if s != [] {
      GetAbsent(s[1..], key);
      assert forall i | 1 <= i < |s| :: s[i] == s[1..][i - 1];
    }
  }

  lemma {:induction false} NothingElseIsLeftOut(s: Members, keys: seq<Text>, i: nat)
    requires i < |s| && s[i].key !in keys
    ensures s[i] in Without(s, keys)
    decreases |s|
  {
    if i > 0 {
      NothingElseIsLeftOut(s[1..], keys, i - 1);
    }
  }

  /** What is left out is left out, and the rest stays as it was. */
  lemma {:induction false} WithoutKeeps(s: Members, keys: seq<Text>)
    requires Distinct(s)
    ensures Distinct(Without(s, keys))
    ensures forall i | 0 <= i < |Without(s, keys)| :: Without(s, keys)[i] in s && Without(s, keys)[i].key !in keys
    decreases |s|
  {
    if s != [] {
      WithoutKeeps(s[1..], keys);
      var rest := Without(s[1..], keys);
      forall i | 0 <= i < |rest| ensures rest[i].key != s[0].key && rest[i] in s {
        var j := Found(s[1..], rest[i]);
        assert s[j + 1] == rest[i];
      }
    }
  }

  // ------------------------------------------------------------------ sealing

  /** The fields a receipt is assembled from, before its hash: what `build_receipt` fills in. */
  ghost predicate Assembled(c: Crypto, did: Json, body: Members) {
    && Get(body, PROVIDER_DID) == Some(did) && c.isDid(did)
    && Get(body, REQUESTER_DID).Some? && c.isDid(Get(body, REQUESTER_DID).value)
    && Get(body, REQUEST_HASH).Some? && Get(body, RESULT_HASH).Some? && Get(body, JOB_ID).Some?
    && Get(body, SIG).None? && Get(body, RECEIPT_HASH).None?
  }

  lemma NamesDiffer()
    ensures RECEIPT_HASH != SIG && PROVIDER_DID != SIG && REQUESTER_DID != SIG
    ensures PROVIDER_DID != RECEIPT_HASH && REQUESTER_DID != RECEIPT_HASH
    ensures REQUEST_HASH != SIG && RESULT_HASH != SIG && JOB_ID != SIG
    ensures REQUEST_HASH != RECEIPT_HASH && RESULT_HASH != RECEIPT_HASH && JOB_ID != RECEIPT_HASH
  {
    assert PROVIDER_DID[0] != RECEIPT_HASH[0] && REQUEST_HASH[2] != RECEIPT_HASH[2];
  }

  /** The hashed receipt can be written out whenever the fields it was made of could. */
  lemma {:induction false} HashedIsCanonical(a: Doubles, c: Crypto, body: Members, hashed: Members)
    requires a.Ieee() && c.Sound() && Parsed(a, Obj(body)) && Get(body, RECEIPT_HASH).None?
    requires CanonicalBytes(a, Obj(body)).Some?
    requires hashed == body + [Entry(RECEIPT_HASH, Str(c.hash(CanonicalBytes(a, Obj(body)).value)))]
    ensures CanonicalBytes(a, Obj(hashed)).Some?
  {
    hide Render;
    GetAbsent(body, RECEIPT_HASH);
    var h := c.hash(CanonicalBytes(a, Obj(body)).value);
    assert Accepts(a, Str(h), 1);
    assert Accepts(a, Obj(hashed), 0);
    assert CodePoints(RECEIPT_HASH) && Encodable(RECEIPT_HASH);
    assert Parsed(a, Obj(hashed));
    Serializer.EncodableIffKeysAre(a, Obj(body), 0);
    assert KeysEncodable(Obj(hashed));
    Serializer.EncodableIffKeysAre(a, Obj(hashed), 0);
  }

  /** Every receipt built with the key its provider names, for a requester with a valid DID, is
      accepted. */
  lemma {:induction false} SealedVerifies(a: Doubles, c: Crypto, did: Json, body: Members)
    requires a.Ieee() && c.Sound() && Parsed(a, Obj(body)) && Assembled(c, did, body)
    requires CanonicalBytes(a, Obj(body)).Some?
    ensures Seal(a, c, did, body).Some?
    ensures VerifyReceipt(a, c, Seal(a, c, did, body).value) == Some([])
  {
    hide CanonicalBytes, Parsed;
    var hash := Entry(RECEIPT_HASH, Str(c.hash(CanonicalBytes(a, Obj(body)).value)));
    var hashed := body + [hash];
    HashedIsCanonical(a, c, body, hashed);
    var sig := Entry(SIG, Str(c.sign(did, CanonicalBytes(a, Obj(hashed)).value)));
    var r := hashed + [sig];
    SealedFields(c, did, body, hash, sig);
    NoneMissing(r, REQUIRED);
  }

  lemma {:induction false} SealedFields(c: Crypto, did: Json, body: Members, hash: Entry<Json>, sig: Entry<Json>)
    requires Assembled(c, did, body) && hash.key == RECEIPT_HASH && sig.key == SIG
    ensures var r := body + [hash] + [sig];
            && Without(r, [SIG, RECEIPT_HASH]) == body && Without(r, [SIG]) == body + [hash]
            && Get(r, RECEIPT_HASH) == Some(hash.value) && Get(r, SIG) == Some(sig.value)
            && Get(r, PROVIDER_DID) == Some(did)
            && Get(r, REQUESTER_DID) == Get(body, REQUESTER_DID)
            && forall i | 0 <= i < |REQUIRED| :: Get(r, REQUIRED[i]).Some?
  {
    hide Get, Without;
    NamesDiffer();
    GetAbsent(body, SIG);
    GetAbsent(body, RECEIPT_HASH);
    SealedParts(body, hash, sig);
    GetSealed(body, hash, sig, RECEIPT_HASH);
    GetSealed(body, hash, sig, SIG);
    GetSealed(body, hash, sig, PROVIDER_DID);
    GetSealed(body, hash, sig, REQUESTER_DID);
    GetSealed(body, hash, sig, REQUEST_HASH);
    GetSealed(body, hash, sig, RESULT_HASH);
    GetSealed(body, hash, sig, JOB_ID);
  }

  lemma {:induction false} SealedParts(body: Members, hash: Entry<Json>, sig: Entry<Json>)
    requires hash.key == RECEIPT_HASH && sig.key == SIG
    requires forall i | 0 <= i < |body| :: body[i].key != SIG && body[i].key != RECEIPT_HASH
    ensures Without(body + [hash] + [sig], [SIG, RECEIPT_HASH]) == body
    ensures Without(body + [hash] + [sig], [SIG]) == body + [hash]
  {
    hide Without;
    NamesDiffer();
    WithoutNone(body, [SIG, RECEIPT_HASH]);
    WithoutNone(body, [SIG]);
    WithoutJoined(body, [hash], [SIG, RECEIPT_HASH]);
    WithoutJoined(body + [hash], [sig], [SIG, RECEIPT_HASH]);
    WithoutJoined(body, [hash], [SIG]);
    WithoutJoined(body + [hash], [sig], [SIG]);
    One(hash, [SIG, RECEIPT_HASH]);
    One(sig, [SIG, RECEIPT_HASH]);
    One(hash, [SIG]);
    One(sig, [SIG]);
  }

  lemma {:induction false} GetSealed(body: Members, hash: Entry<Json>, sig: Entry<Json>, key: Text)
    ensures Get(body + [hash] + [sig], key)
            == if Get(body, key).Some? then Get(body, key)
               else if hash.key == key then Some(hash.value)
               else if sig.key == key then Some(sig.value)
               else None
  {
    GetJoined(body + [hash], [sig], key);
    GetJoined(body, [hash], key);
    assert [hash][1..] == [] && [sig][1..] == [];
  }

  lemma One(e: Entry<Json>, keys: seq<Text>)
    ensures Without([e], keys) == if e.key in keys then [] else [e]
  {
    assert [e][1..] == [];
  }

  /** Two accepted receipts with one receipt_hash are the same document in every field but the
      signature. */
  lemma {:induction false} HashIsTheReceipt(a: Doubles, c: Crypto, r: Members, s: Members)
    requires a.Ieee() && c.Sound() && Parsed(a, Obj(r)) && Parsed(a, Obj(s))
    requires VerifyReceipt(a, c, r) == Some([]) && VerifyReceipt(a, c, s) == Some([])
    requires Get(r, RECEIPT_HASH) == Get(s, RECEIPT_HASH)
    ensures Same(a, Obj(Without(r, [SIG, RECEIPT_HASH])), Obj(Without(s, [SIG, RECEIPT_HASH])))
  {
    hide Same, Render, Accepts, Encodable;
    var (v, w) := (Obj(Without(r, [SIG, RECEIPT_HASH])), Obj(Without(s, [SIG, RECEIPT_HASH])));
    PartIsParsed(a, r, [SIG, RECEIPT_HASH]);
    PartIsParsed(a, s, [SIG, RECEIPT_HASH]);
    assert Render(a, v) == Render(a, w);
    Serializer.EncodableIffKeysAre(a, v, 0);
    Serializer.EncodableIffKeysAre(a, w, 0);
    OneDocumentOneText(a, v, w);
  }

  lemma {:induction false} PartIsParsed(a: Doubles, r: Members, keys: seq<Text>)
    requires Parsed(a, Obj(r))
    ensures Parsed(a, Obj(Without(r, keys)))
  {
    hide CodePoints;
    WithoutKeeps(r, keys);
    var part := Without(r, keys);
    forall i | 0 <= i < |part| ensures CodePoints(part[i].key) && Parsed(a, part[i].value) {
      var j := Found(r, part[i]);
    }
  }

  // ------------------------------------------------------------------ a chain

  /** `str(receipt.get("job_id", ""))`. */
  function JobIdOf(c: Crypto, r: Members): Text {
    var id := Get(r, JOB_ID);
    if id.None? then [] else c.str(id.value)
  }

  datatype Item = Item(jobId: Text, problems: seq<Problem>)

  datatype Report = Report(items: seq<Item>, allValid: bool, duplicates: set<Text>, chronological: bool)

  function InsertText(t: Text, s: seq<Text>): seq<Text> {
    if s == [] then [t]
    else if LexLe(t, s[0]) then [t] + s
    else [s[0]] + InsertText(t, s[1..])
  }

  /** `sorted` of strings: by their code points. */
  function SortTexts(s: seq<Text>): seq<Text> {
    if s == [] then [] else InsertText(s[0], SortTexts(s[1..]))
  }

  predicate Ascending(s: seq<Text>) {
    |s| > 1 ==> LexLe(s[0], s[1]) && Ascending(s[1..])
  }

  lemma {:induction false} AscendingThroughout(s: seq<Text>)
    ensures Ascending(s) <==> forall i, k | 0 <= i < k < |s| :: LexLe(s[i], s[k])
    decreases |s|
  {
    hide LexLe;
    if |s| > 1 {
      AscendingThroughout(s[1..]);
      var rest := s[1..];
      if Ascending(s) {
        forall k | 0 < k < |s| ensures LexLe(s[0], s[k]) {
          if k > 1 {
            assert LexLe(rest[0], rest[k - 1]);
            LexLeComposes(s[0], s[1], s[k]);
          }
        }
        forall i, k | 0 < i < k < |s| ensures LexLe(s[i], s[k]) {
          assert LexLe(rest[i - 1], rest[k - 1]);
        }
      } else if LexLe(s[0], s[1]) {
        var i, k :| 0 <= i < k < |rest| && !LexLe(rest[i], rest[k]);
        assert !LexLe(s[i + 1], s[k + 1]);
      }
    }
  }

  lemma {:induction false} InsertAscends(t: Text, s: seq<Text>)
    requires Ascending(s)
    ensures Ascending(InsertText(t, s))
    ensures InsertText(t, s)[0] == t || (s != [] && InsertText(t, s)[0] == s[0])
    decreases |s|
  {
    hide LexLe;
    if s != [] {
      LexLeIsTotal(t, s[0]);
      if !LexLe(t, s[0]) {
        InsertAscends(t, s[1..]);
      }
    }
  }

  lemma {:induction false} SortAscends(s: seq<Text>)
    ensures Ascending(SortTexts(s))
    decreases |s|
  {
    if s != [] {
      SortAscends(s[1..]);
      InsertAscends(s[0], SortTexts(s[1..]));
    }
  }

  /** A list is its own sorted self exactly when it ascends. */
  lemma {:induction false} SortedAlready(s: seq<Text>)
    ensures s == SortTexts(s) <==> Ascending(s)
    decreases |s|
  {
    hide LexLe;
    SortAscends(s);
    if Ascending(s) && s != [] {
      SortedAlready(s[1..]);
      assert s == [s[0]] + s[1..];
    }
  }

  predicate Stamped(c: Crypto, r: Members) {
    Get(r, CREATED_AT).Some? && c.truthy(Get(r, CREATED_AT).value)
  }

  function StampOf(c: Crypto, r: Members): Text {
    if Stamped(c, r) then c.str(Get(r, CREATED_AT).value) else []
  }

  function Stamps(c: Crypto, receipts: seq<Members>): seq<Text> {
    if receipts == [] then []
    else (if Stamped(c, receipts[0]) then [StampOf(c, receipts[0])] else []) + Stamps(c, receipts[1..])
  }

  /** The receipt has a timestamp that counts, and its str() is this. */
  ghost predicate DatedAs(c: Crypto, r: Members, t: Text) {
    var created := Get(r, Chars("created_at"));
    created.Some? && c.truthy(created.value) && c.str(created.value) == t
  }

  /** Of any two receipts with timestamps the earlier one's is the later's or comes first: at the
      first place where they differ its code point is the smaller, or it ends there. */
  ghost predicate NeverBackwards(c: Crypto, receipts: seq<Members>) {
    forall i, k, t, u | 0 <= i < k < |receipts| && DatedAs(c, receipts[i], t) && DatedAs(c, receipts[k], u) ::
      ComesFirst(t, u)
  }

  /** The same as `sorted` sees it. */
  ghost predicate InTimeOrder(c: Crypto, receipts: seq<Members>) {
    forall i, k | 0 <= i < k < |receipts| && Stamped(c, receipts[i]) && Stamped(c, receipts[k]) ::
      LexLe(StampOf(c, receipts[i]), StampOf(c, receipts[k]))
  }

  lemma {:induction false} StampIsHad(c: Crypto, receipts: seq<Members>, k: nat)
    requires k < |receipts| && Stamped(c, receipts[k])
    ensures StampOf(c, receipts[k]) in Stamps(c, receipts)
    decreases |receipts|
  {
    if k > 0 {
      StampIsHad(c, receipts[1..], k - 1);
    }
  }

  lemma {:induction false} StampHas(c: Crypto, receipts: seq<Members>, j: nat) returns (k: nat)
    requires j < |Stamps(c, receipts)|
    ensures k < |receipts| && Stamped(c, receipts[k]) && StampOf(c, receipts[k]) == Stamps(c, receipts)[j]
    decreases |receipts|
  {
    if Stamped(c, receipts[0]) && j == 0 {
      k := 0;
    } else {
      k := StampHas(c, receipts[1..], if Stamped(c, receipts[0]) then j - 1 else j);
      k := k + 1;
    }
  }

  /** The timestamps ascend exactly when no receipt goes back on one before it. */
  lemma {:induction false} StampsInOrder(c: Crypto, receipts: seq<Members>)
    ensures Ascending(Stamps(c, receipts)) <==> InTimeOrder(c, receipts)
    decreases |receipts|
  {
    hide LexLe, Stamped, StampOf, Ascending;
    var stamps := Stamps(c, receipts);
    AscendingThroughout(stamps);
    if receipts == [] {
    } else if !Stamped(c, receipts[0]) {
      assert stamps == Stamps(c, receipts[1..]);
      StampsInOrder(c, receipts[1..]);
      BackwardsInRest(c, receipts);
    } else {
      var rest := Stamps(c, receipts[1..]);
      assert stamps == [StampOf(c, receipts[0])] + rest;
      StampsInOrder(c, receipts[1..]);
      AscendingThroughout(rest);
      FirstAndRest(stamps);
      BackwardsInRest(c, receipts);
      EveryStamp(c, receipts[1..], stamps[0]);
      assert forall k | 0 < k < |receipts| :: receipts[k] == receipts[1..][k - 1];
    }
  }

  lemma {:induction false} TimeOrderIsByCodePoint(c: Crypto, receipts: seq<Members>)
    ensures NeverBackwards(c, receipts) <==> InTimeOrder(c, receipts)
  {
    hide LexLe, ComesFirst, Get, Chars;
    FieldNames();
    if NeverBackwards(c, receipts) {
      forall i, k | 0 <= i < k < |receipts| && Stamped(c, receipts[i]) && Stamped(c, receipts[k])
        ensures LexLe(StampOf(c, receipts[i]), StampOf(c, receipts[k]))
      {
        var (t, u) := (StampOf(c, receipts[i]), StampOf(c, receipts[k]));
        assert DatedAs(c, receipts[i], t) && DatedAs(c, receipts[k], u);
        LexLeIsItemByItem(t, u);
      }
    }
    if InTimeOrder(c, receipts) {
      forall i, k, t, u | 0 <= i < k < |receipts| && DatedAs(c, receipts[i], t) && DatedAs(c, receipts[k], u)
        ensures ComesFirst(t, u)
      {
        LexLeIsItemByItem(t, u);
      }
    }
  }

  lemma {:induction false} EveryStamp(c: Crypto, receipts: seq<Members>, least: Text)
    ensures (forall t | t in Stamps(c, receipts) :: LexLe(least, t))
            <==> forall k | 0 <= k < |receipts| && Stamped(c, receipts[k]) ::
                   LexLe(least, StampOf(c, receipts[k]))
  {
    hide LexLe, Stamped, StampOf, Stamps;
    forall k | 0 <= k < |receipts| && Stamped(c, receipts[k])
      ensures StampOf(c, receipts[k]) in Stamps(c, receipts)
    {
      StampIsHad(c, receipts, k);
    }
    forall t | t in Stamps(c, receipts)
      ensures exists k | 0 <= k < |receipts| :: Stamped(c, receipts[k]) && StampOf(c, receipts[k]) == t
    {
      var j :| 0 <= j < |Stamps(c, receipts)| && Stamps(c, receipts)[j] == t;
      var k := StampHas(c, receipts, j);
    }
  }

  lemma FirstAndRest(s: seq<Text>)
    requires s != []
    ensures (forall i, k | 0 <= i < k < |s| :: LexLe(s[i], s[k]))
            <==> (forall i, k | 0 <= i < k < |s[1..]| :: LexLe(s[1..][i], s[1..][k]))
                 && forall t | t in s[1..] :: LexLe(s[0], t)
  {
    hide LexLe;
    var rest := s[1..];
    if (forall i, k | 0 <= i < k < |rest| :: LexLe(rest[i], rest[k])) && forall t | t in rest :: LexLe(s[0], t) {
      forall i, k | 0 <= i < k < |s| ensures LexLe(s[i], s[k]) {
        assert s[k] == rest[k - 1];
        if i > 0 {
          assert s[i] == rest[i - 1];
        }
      }
    }
  }

  lemma BackwardsInRest(c: Crypto, receipts: seq<Members>)
    requires receipts != []
    ensures InTimeOrder(c, receipts) <==>
            InTimeOrder(c, receipts[1..])
            && (Stamped(c, receipts[0]) ==> forall k | 0 < k < |receipts| && Stamped(c, receipts[k]) ::
                  LexLe(StampOf(c, receipts[0]), StampOf(c, receipts[k])))
  {
    hide LexLe, Stamped, StampOf;
    var rest := receipts[1..];
    forall i, k | 0 <= i < k < |rest| ensures rest[i] == receipts[i + 1] && rest[k] == receipts[k + 1] {
    }
    if InTimeOrder(c, rest) {
      forall i, k | 0 < i < k < |receipts| && Stamped(c, receipts[i]) && Stamped(c, receipts[k])
        ensures LexLe(StampOf(c, receipts[i]), StampOf(c, receipts[k]))
      {
        assert receipts[i] == rest[i - 1] && receipts[k] == rest[k - 1];
      }
    }
  }

  /** The job id is named by an earlier receipt too. */
  ghost predicate Repeats(c: Crypto, receipts: seq<Members>, k: nat)
    requires k < |receipts|
  {
    exists i, id | 0 <= i < k && id != [] :: Names(c, receipts[i], id) && Names(c, receipts[k], id)
  }

  ghost predicate ComesTwice(c: Crypto, receipts: seq<Members>, id: Text) {
    exists k | 0 <= k < |receipts| :: Repeats(c, receipts, k) && Names(c, receipts[k], id)
  }

  /** The receipt has a job id, and its str() is this. */
  ghost predicate Names(c: Crypto, r: Members, id: Text) {
    Get(r, Chars("job_id")).Some? && c.str(Get(r, Chars("job_id")).value) == id
  }

  lemma {:induction false} NamedJob(c: Crypto, r: Members, id: Text)
    requires id != []
    ensures Names(c, r, id) <==> JobIdOf(c, r) == id
  {
    FieldNames();
  }

  /** The same as the loop sees it. */
  ghost predicate SeenBefore(c: Crypto, receipts: seq<Members>, k: nat)
    requires k < |receipts|
  {
    JobIdOf(c, receipts[k]) != []
    && exists i | 0 <= i < k :: JobIdOf(c, receipts[i]) == JobIdOf(c, receipts[k])
  }

  lemma {:induction false} RepeatsIsSeenBefore(c: Crypto, receipts: seq<Members>, k: nat)
    requires k < |receipts|
    ensures Repeats(c, receipts, k) <==> SeenBefore(c, receipts, k)
    ensures forall id | id != [] :: Names(c, receipts[k], id) <==> JobIdOf(c, receipts[k]) == id
  {
    hide JobIdOf, Names;
    forall i, id | 0 <= i < |receipts| && id != []
      ensures Names(c, receipts[i], id) <==> JobIdOf(c, receipts[i]) == id
    {
      NamedJob(c, receipts[i], id);
    }
    if Repeats(c, receipts, k) {
      var i, id :| 0 <= i < k && id != [] && Names(c, receipts[i], id) && Names(c, receipts[k], id);
      assert JobIdOf(c, receipts[i]) == id;
    }
    if SeenBefore(c, receipts, k) {
      var i :| 0 <= i < k && JobIdOf(c, receipts[i]) == JobIdOf(c, receipts[k]);
      assert Names(c, receipts[i], JobIdOf(c, receipts[k])) && Names(c, receipts[k], JobIdOf(c, receipts[k]));
    }
  }

  ghost predicate Good(a: Doubles, c: Crypto, receipts: seq<Members>, k: nat)
    requires k < |receipts|
  {
    Genuine(a, c, receipts[k]) && !Repeats(c, receipts, k)
  }

  ghost predicate Sound(a: Doubles, c: Crypto, receipts: seq<Members>, k: nat)
    requires k < |receipts|
  {
    VerifyReceipt(a, c, receipts[k]) == Some([]) && !SeenBefore(c, receipts, k)
  }

  lemma {:induction false} ChainTerms(a: Doubles, c: Crypto, receipts: seq<Members>)
    ensures forall k | 0 <= k < |receipts| :: Sound(a, c, receipts, k) <==> Good(a, c, receipts, k)
    ensures forall id ::
              ComesTwice(c, receipts, id) <==>
              exists k | 0 <= k < |receipts| :: SeenBefore(c, receipts, k) && JobIdOf(c, receipts[k]) == id
  {
    hide VerifyReceipt, Genuine, JobIdOf, Get;
    forall k | 0 <= k < |receipts| ensures Sound(a, c, receipts, k) <==> Good(a, c, receipts, k) {
      AcceptedExactlyWhenGenuine(a, c, receipts[k]);
      RepeatsIsSeenBefore(c, receipts, k);
    }
    forall id
      ensures ComesTwice(c, receipts, id) <==>
              exists k | 0 <= k < |receipts| :: SeenBefore(c, receipts, k) && JobIdOf(c, receipts[k]) == id
    {
      if k :| 0 <= k < |receipts| && SeenBefore(c, receipts, k) && JobIdOf(c, receipts[k]) == id {
        RepeatsIsSeenBefore(c, receipts, k);
        assert Names(c, receipts[k], id);
      }
      if k :| 0 <= k < |receipts| && Repeats(c, receipts, k) && Names(c, receipts[k], id) {
        RepeatsIsSeenBefore(c, receipts, k);
      }
    }
  }

  /** `verify_chain`: the chain is all valid exactly when each receipt is genuine and no job id but the
      empty one comes twice, the duplicates are exactly those that do, and the chain is
      chronological exactly when no timestamp goes back on one before it. */
  method VerifyChain(a: Doubles, c: Crypto, receipts: seq<Members>) returns (report: Option<Report>)
    ensures report.Some? <==> forall k | 0 <= k < |receipts| :: VerifyReceipt(a, c, receipts[k]).Some?
    ensures report.Some? ==>
              && |report.value.items| == |receipts|
              && (forall k | 0 <= k < |receipts| ::
                    report.value.items[k].problems == [] <==> Good(a, c, receipts, k))
              && (report.value.allValid <==> forall k | 0 <= k < |receipts| :: Good(a, c, receipts, k))
              && (forall id :: id in report.value.duplicates <==> ComesTwice(c, receipts, id))
              && (report.value.chronological <==> NeverBackwards(c, receipts))
  {
    hide VerifyReceipt, JobIdOf, Genuine, Names, Good, ComesTwice, InTimeOrder, NeverBackwards;
    var items: seq<Item> := [];
    var seen: map<Text, nat> := map[];
    var duplicates: set<Text> := {};
    for k := 0 to |receipts|
      invariant |items| == k
      invariant forall i | 0 <= i < k :: VerifyReceipt(a, c, receipts[i]).Some?
      invariant forall i | 0 <= i < k :: items[i].problems == [] <==> Sound(a, c, receipts, i)
      invariant forall id :: id in seen <==>
                  id != [] && exists i | 0 <= i < k :: JobIdOf(c, receipts[i]) == id
      invariant forall id :: id in duplicates <==>
                  exists i | 0 <= i < k :: SeenBefore(c, receipts, i) && JobIdOf(c, receipts[i]) == id
    {
      var verdict := VerifyReceipt(a, c, receipts[k]);
      if verdict.None? {
        return None;
      }
      var (problems, jobId) := (verdict.value, JobIdOf(c, receipts[k]));
      if jobId != [] {
        if jobId in seen {
          duplicates := duplicates + {jobId};
          problems := problems + [Duplicate(seen[jobId])];
        } else {
          seen := seen[jobId := k];
        }
      }
      items := items + [Item(jobId, problems)];
      assert Sound(a, c, receipts, k) <==> problems == [];
    }
    var allValid := forall i | 0 <= i < |items| :: items[i].problems == [];
    ChainTerms(a, c, receipts);
    var timestamps := Stamps(c, receipts);
    SortedAlready(timestamps);
    StampsInOrder(c, receipts);
    TimeOrderIsByCodePoint(c, receipts);
    return Some(Report(items, allValid, duplicates, timestamps == SortTexts(timestamps)));
  }
}
