/** The signer, and what the verifier says about everything it signs. */
module Signer {
  import opened Text
  import opened Json
  import opened Jcs
  import opened JcsOctets
  import opened Verifier
  import JcsCanon
  import Base64
  import VerifierGuarantees

  const RECEIPT_ID := Ascii("receipt_id")
  const VERSION_KEY := Ascii("v")
  const VERSION := Ascii("veritrail/0.1")

  datatype SignError = InvalidInput | ReceiptIdMustBeAbsent | KidRequired | InvalidPrivateKey

  datatype SignResult = Signed(jws: Str) | Refused(error: SignError)

  function Header(kid: Str): (h: seq<Member>) {
    [Member(ALG, JStr(EDDSA)), Member(KID, JStr(kid))]
  }

  function MessageOf(kid: Str, payload: seq<Member>): (msg: Bytes) {
    SigningInput(Base64.Encode(Base64.Url, JcsBytes(JObj(Header(kid)))),
                 Base64.Encode(Base64.Url, JcsBytes(JObj(payload))))
  }

  /** Frame a payload as a compact EdDSA JWS: canonical header, canonical payload, signature. */
  function CompactJws(c: Crypto, seed: Bytes, kid: Str, payload: seq<Member>): (jws: Str) {
    var headerSeg := Base64.Encode(Base64.Url, JcsBytes(JObj(Header(kid))));
    var payloadSeg := Base64.Encode(Base64.Url, JcsBytes(JObj(payload)));
    var sig := c.edSign(seed, MessageOf(kid, payload));
    Join([headerSeg, payloadSeg, Base64.Encode(Base64.Url, sig)], DOT)
  }

  /** `{ ...receipt, v: VERSION }` */
  function Stamp(receipt: seq<Member>): (payload: seq<Member>) {
    Put(receipt, VERSION_KEY, JStr(VERSION))
  }

  /** `sign`; `None` is an absent field of the input object. */
  function Sign(c: Crypto, receipt: Option<JSON>, kid: Option<JSON>, privateKey: Option<JSON>): (r: SignResult) {
    match receipt
    case Some(JObj(ms)) =>
      if HasKey(ms, RECEIPT_ID) then Refused(ReceiptIdMustBeAbsent)
      else (match kid
            case Some(JStr(k)) =>
              if k == [] then Refused(KidRequired)
              else (match privateKey
                    case Some(JStr(p)) =>
                      (match Base64.FlexibleDecode(p)
                       case Some(seed) =>
                         if |seed| != 32 then Refused(InvalidPrivateKey)
                         else Signed(CompactJws(c, seed, k, Stamp(ms)))
                       case None => Refused(InvalidPrivateKey))
                    case _ => Refused(InvalidPrivateKey))
            case _ => Refused(KidRequired))
    case _ => Refused(InvalidInput)
  }

  // ---- What the verifier reads back ----

  lemma HeaderReadsBack(kid: Str)
    ensures ValidMembers(Header(kid))
    ensures var h := JcsCanon.CanonMembers(Header(kid));
            && !CarriesKeyMaterial(h)
            && Get(h, ALG) == Some(JStr(EDDSA)) && Get(h, KID) == Some(JStr(kid))
  {
    var h := Header(kid);
    assert |ALG| == |KID| == 3 && ALG[0] == 0x61 && KID[0] == 0x6B;
    assert UniqueKeys(h);
    FindUnique(h, 0);
    FindUnique(h, 1);
    JcsCanon.CanonGet(h, ALG);
    JcsCanon.CanonGet(h, KID);
    forall k | k in FORBIDDEN_HEADER_KEYS ensures !HasKey(JcsCanon.CanonMembers(h), k) {
      assert k[0] == 0x6A || k[0] == 0x78;
      JcsCanon.CanonGet(h, k);
    }
  }

  lemma SegmentsSplit(a: Bytes, b: Bytes, s: Bytes)
    ensures var parts := [Base64.Encode(Base64.Url, a), Base64.Encode(Base64.Url, b), Base64.Encode(Base64.Url, s)];
            Split(Join(parts, DOT), DOT) == parts
  {
    SplitJoin([Base64.Encode(Base64.Url, a), Base64.Encode(Base64.Url, b), Base64.Encode(Base64.Url, s)], DOT);
  }

  /** Three encoded segments are read back as what they encode. */
  lemma FramedToken(a: Bytes, b: Bytes, sig: Bytes, header: seq<Member>, payload: seq<Member>)
    requires DecodeObject(a) == Some(header) && DecodeObject(b) == Some(payload)
    ensures var x, y := Base64.Encode(Base64.Url, a), Base64.Encode(Base64.Url, b);
            ReadToken(Join([x, y, Base64.Encode(Base64.Url, sig)], DOT))
            == Some(Token(SigningInput(x, y), header, b, payload, sig))
  {
    SegmentsSplit(a, b, sig);
    Base64.DecodeEncode(Base64.Url, a);
    Base64.DecodeEncode(Base64.Url, b);
    Base64.DecodeEncode(Base64.Url, sig);
  }

  /** The segments, the signing input and both objects survive the wire. */
  lemma TokenReadsBack(c: Crypto, seed: Bytes, kid: Str, payload: seq<Member>)
    requires ValidMembers(payload)
    ensures ReadToken(CompactJws(c, seed, kid, payload))
            == Some(Token(MessageOf(kid, payload), JcsCanon.CanonMembers(Header(kid)),
                          JcsBytes(JObj(payload)), JcsCanon.CanonMembers(payload),
                          c.edSign(seed, MessageOf(kid, payload))))
  {
    var sig := c.edSign(seed, MessageOf(kid, payload));
    HeaderReadsBack(kid);
    JcsBytesReparse(Header(kid));
    JcsBytesReparse(payload);
    FramedToken(JcsBytes(JObj(Header(kid))), JcsBytes(JObj(payload)), sig,
                JcsCanon.CanonMembers(Header(kid)), JcsCanon.CanonMembers(payload));
  }

  /** A payload keeps its claims when its members are sorted. */
  lemma ClaimsKept(payload: seq<Member>, keys: Registry, kid: Option<JSON>, policy: Policy)
    requires UniqueKeys(payload)
    ensures var canon := JcsCanon.CanonMembers(payload);
            && ResolveKey(keys, Get(canon, PERFORMER_ID), kid) == ResolveKey(keys, Get(payload, PERFORMER_ID), kid)
            && PolicyMet(policy, canon) == PolicyMet(policy, payload)
  {
    JcsCanon.CanonGet(payload, PERFORMER_ID);
    JcsCanon.CanonGet(payload, BINDING);
    JcsCanon.CanonGet(payload, METHOD);
  }

  predicate KeyAccepts(c: Crypto, jwk: Jwk, msg: Bytes, sig: Bytes) {
    match c.importKey(jwk.kty, jwk.crv, jwk.x, jwk.y)
    case None => false
    case Some(key) => c.edVerify(key, msg, sig)
  }

  /** A verdict on the claims alone: who signed, with which key, for which context. */
  function ClaimsVerdict(c: Crypto, jwk: Option<Jwk>, msg: Bytes, sig: Bytes, inContext: bool): (v: Verdict) {
    match jwk
    case None => Reject(UnknownKey)
    case Some(jwk) =>
      if jwk.status == Some(Ascii("revoked")) then Reject(RevokedKey)
      else if jwk.alg != EDDSA then Reject(AlgNotAllowed)
      else if !KeyAccepts(c, jwk, msg, sig) then Reject(BadSignature)
      else if !inContext then Reject(ContextMismatch)
      else Verdict(true, Verified)
  }

  lemma JudgeSigned(c: Crypto, t: Token, keys: Registry, policy: Policy)
    requires !CarriesKeyMaterial(t.header) && Get(t.header, ALG) == Some(JStr(EDDSA))
    requires JcsBytes(JObj(t.payload)) == t.payloadBytes
    ensures Judge(c, t, keys, policy)
            == ClaimsVerdict(c, ResolveKey(keys, Get(t.payload, PERFORMER_ID), Get(t.header, KID)),
                             t.signingInput, t.sig, PolicyMet(policy, t.payload))
  {
    assert EDDSA[0] == 0x45 && Ascii("none")[0] == 0x6E;
  }

  /**
   * Whatever is signed verifies to a verdict about the receipt alone: never malformed,
   * never carrying key material, never non-canonical.
   */
  lemma SignedVerdict(c: Crypto, seed: Bytes, kid: Str, payload: seq<Member>, keys: Registry, policy: Policy)
    requires ValidMembers(payload)
    ensures var msg := MessageOf(kid, payload);
            Verify(c, CompactJws(c, seed, kid, payload), keys, policy)
            == ClaimsVerdict(c, ResolveKey(keys, Get(payload, PERFORMER_ID), Some(JStr(kid))),
                             msg, c.edSign(seed, msg), PolicyMet(policy, payload))
  {
    var jws := CompactJws(c, seed, kid, payload);
    TokenReadsBack(c, seed, kid, payload);
    var t := ReadToken(jws).value;
    assert !CarriesKeyMaterial(t.header) && Get(t.header, ALG) == Some(JStr(EDDSA)) && Get(t.header, KID) == Some(JStr(kid)) by {
      HeaderReadsBack(kid);
    }
    assert JcsBytes(JObj(t.payload)) == t.payloadBytes by {
      JcsCanon.CanonIdempotent(JObj(payload));
      assert Canon(JObj(payload)) == JObj(t.payload);
    }
    ClaimsKept(payload, keys, Some(JStr(kid)), policy);
    JudgeSigned(c, t, keys, policy);
  }

  /** The registry key is the public half of the seed: it verifies every message the seed signs. */
  ghost predicate Matches(c: Crypto, seed: Bytes, jwk: Jwk) {
    forall msg: Bytes :: KeyAccepts(c, jwk, msg, c.edSign(seed, msg))
  }

  /** The registry holds this key for the performer the receipt names and the kid. */
  predicate Registered(receipt: seq<Member>, kid: Str, keys: Registry, jwk: Jwk) {
    match Get(receipt, Ascii("performer_id"))
    case Some(JStr(performer)) => performer in keys && kid in keys[performer] && keys[performer][kid] == jwk
    case _ => false
  }

  /**
   * Sign, then verify. With the matching key registered for the performer and the kid, the
   * signed receipt is accepted exactly when that key is not revoked, is an EdDSA key, and
   * the policy is silent or agrees with the receipt.
   */
  lemma SignThenVerify(c: Crypto, receipt: seq<Member>, kid: Str, privateKey: Str, seed: Bytes,
                       jwk: Jwk, keys: Registry, policy: Policy)
    returns (jws: Str)
    requires ValidMembers(receipt) && Get(receipt, Ascii("receipt_id")) == None
    requires kid != [] && |seed| == 32 && Base64.Spells(privateKey, seed)
    requires Registered(receipt, kid, keys, jwk) && Matches(c, seed, jwk)
    ensures Sign(c, Some(JObj(receipt)), Some(JStr(kid)), Some(JStr(privateKey))) == Signed(jws)
    ensures Verify(c, jws, keys, policy) == Verdict(true, Verified) <==>
            && jwk.status != Some(Ascii("revoked"))
            && jwk.alg == Ascii("EdDSA")
            && VerifierGuarantees.InContext(policy, receipt)
  {
    jws := CompactJws(c, seed, kid, Stamp(receipt));
    SignSucceeds(c, receipt, kid, privateKey, seed);
    StampedVerdict(c, seed, kid, receipt, jwk, keys, policy);
    VerifierGuarantees.ContextIs(policy, receipt);
  }

  lemma SignSucceeds(c: Crypto, receipt: seq<Member>, kid: Str, privateKey: Str, seed: Bytes)
    requires !HasKey(receipt, RECEIPT_ID)
    requires kid != [] && |seed| == 32 && Base64.Spells(privateKey, seed)
    ensures Sign(c, Some(JObj(receipt)), Some(JStr(kid)), Some(JStr(privateKey)))
            == Signed(CompactJws(c, seed, kid, Stamp(receipt)))
  {
    Base64.FlexibleExact(privateKey, seed);
  }

  /** The text is canonical base64 of 32 bytes, with any amount of padding after it. */
  ghost predicate IsSeedText(p: Str) {
    exists seed: Bytes :: |seed| == 32 && Base64.Spells(p, seed)
  }

  /** The signer signs exactly the objects without `receipt_id`, under a named key, with a readable seed. */
  lemma SignAcceptsExactly(c: Crypto, receipt: Option<JSON>, kid: Option<JSON>, privateKey: Option<JSON>)
    ensures Sign(c, receipt, kid, privateKey).Signed? <==>
            && receipt.Some? && receipt.value.JObj? && !HasKey(receipt.value.members, RECEIPT_ID)
            && kid.Some? && kid.value.JStr? && kid.value.s != []
            && privateKey.Some? && privateKey.value.JStr? && IsSeedText(privateKey.value.s)
  {
    if privateKey.Some? && privateKey.value.JStr? {
      SeedTextDecodes(privateKey.value.s);
    }
  }

  lemma SeedTextDecodes(p: Str)
    ensures IsSeedText(p) <==> Base64.FlexibleDecode(p).Some? && |Base64.FlexibleDecode(p).value| == 32
  {
    if Base64.FlexibleDecode(p).Some? {
      Base64.FlexibleExact(p, Base64.FlexibleDecode(p).value);
    }
    if IsSeedText(p) {
      var seed: Bytes :| |seed| == 32 && Base64.Spells(p, seed);
      Base64.FlexibleExact(p, seed);
    }
  }

  lemma StampedVerdict(c: Crypto, seed: Bytes, kid: Str, receipt: seq<Member>, jwk: Jwk, keys: Registry, policy: Policy)
    requires ValidMembers(receipt)
    requires ResolveKey(keys, Get(receipt, PERFORMER_ID), Some(JStr(kid))) == Some(jwk) && Matches(c, seed, jwk)
    ensures Verify(c, CompactJws(c, seed, kid, Stamp(receipt)), keys, policy) == Verdict(true, Verified) <==>
            && jwk.status != Some(Ascii("revoked"))
            && jwk.alg == EDDSA
            && PolicyMet(policy, receipt)
  {
    var payload := Stamp(receipt);
    PutValid(receipt, VERSION_KEY, JStr(VERSION));
    SignedVerdict(c, seed, kid, payload, keys, policy);
    StampKeepsClaims(receipt, policy);
    var msg := MessageOf(kid, payload);
    assert KeyAccepts(c, jwk, msg, c.edSign(seed, msg));
  }

  /** Stamping the version touches none of the claims the verifier reads. */
  lemma StampKeepsClaims(receipt: seq<Member>, policy: Policy)
    requires UniqueKeys(receipt)
    ensures Get(Stamp(receipt), PERFORMER_ID) == Get(receipt, PERFORMER_ID)
    ensures PolicyMet(policy, Stamp(receipt)) == PolicyMet(policy, receipt)
  {
    assert |VERSION_KEY| == 1 && |PERFORMER_ID| == 12 && |BINDING| == 7 && |METHOD| == 6;
    PutGet(receipt, VERSION_KEY, JStr(VERSION), PERFORMER_ID);
    PutGet(receipt, VERSION_KEY, JStr(VERSION), BINDING);
    PutGet(receipt, VERSION_KEY, JStr(VERSION), METHOD);
  }

  // ---- What is signed ----

  /** The token is the bytes that were signed, a dot, and the encoded signature over them. */
  lemma TokenIsSigned(c: Crypto, seed: Bytes, kid: Str, payload: seq<Member>)
    requires ValidMembers(payload)
    ensures var jws := CompactJws(c, seed, kid, payload);
            ReadToken(jws).Some? &&
            var t := ReadToken(jws).value;
            && t.sig == c.edSign(seed, t.signingInput)
            && jws == t.signingInput + ['.' as int] + Base64.Encode(Base64.Url, c.edSign(seed, t.signingInput))
            && t.payloadBytes == JcsBytes(JObj(payload))
  {
    var jws := CompactJws(c, seed, kid, payload);
    TokenReadsBack(c, seed, kid, payload);
    SignedPart(jws);
    SegmentsSplit(JcsBytes(JObj(Header(kid))), JcsBytes(JObj(payload)), c.edSign(seed, MessageOf(kid, payload)));
  }

  /** A value as it is read back: the same, its members in canonical order. */
  function ReadBack(v: Option<JSON>): (r: Option<JSON>) {
    match v
    case None => None
    case Some(w) => Some(Canon(w))
  }

  lemma HeaderHolds(kid: Str, k: Str)
    ensures UniqueKeys(Header(kid))
    ensures Get(Header(kid), k) ==
            if k == Ascii("alg") then Some(JStr(Ascii("EdDSA"))) else if k == Ascii("kid") then Some(JStr(kid)) else None
  {
    var h := Header(kid);
    assert |ALG| == |KID| == 3 && ALG[0] == 0x61 && KID[0] == 0x6B;
    assert UniqueKeys(h);
    FindUnique(h, 0);
    FindUnique(h, 1);
    if HasKey(h, k) {
      assert h[Find(h, k)].key == k;
    }
  }

  lemma StampHolds(receipt: seq<Member>, k: Str)
    requires ValidMembers(receipt)
    ensures ValidMembers(Stamp(receipt))
    ensures Get(Stamp(receipt), k) == if k == Ascii("v") then Some(JStr(Ascii("veritrail/0.1"))) else Get(receipt, k)
  {
    PutGet(receipt, VERSION_KEY, JStr(VERSION), k);
    PutValid(receipt, VERSION_KEY, JStr(VERSION));
  }

  ghost predicate HeaderSays(header: seq<Member>, kid: Str) {
    forall k :: Get(header, k) ==
                if k == Ascii("alg") then Some(JStr(Ascii("EdDSA"))) else if k == Ascii("kid") then Some(JStr(kid)) else None
  }

  ghost predicate PayloadSays(payload: seq<Member>, receipt: seq<Member>) {
    forall k :: Get(payload, k) == if k == Ascii("v") then Some(JStr(Ascii("veritrail/0.1"))) else ReadBack(Get(receipt, k))
  }

  /** What a token says under each name. */
  ghost predicate Says(t: Token, kid: Str, receipt: seq<Member>) {
    HeaderSays(t.header, kid) && PayloadSays(t.payload, receipt)
  }

  lemma CanonHeaderSays(kid: Str)
    ensures HeaderSays(JcsCanon.CanonMembers(Header(kid)), kid)
  {
    forall k
      ensures Get(JcsCanon.CanonMembers(Header(kid)), k) ==
              if k == Ascii("alg") then Some(JStr(Ascii("EdDSA"))) else if k == Ascii("kid") then Some(JStr(kid)) else None
    {
      HeaderHolds(kid, k);
      JcsCanon.CanonGet(Header(kid), k);
    }
  }

  lemma CanonStampSays(receipt: seq<Member>)
    requires ValidMembers(receipt)
    ensures ValidMembers(Stamp(receipt)) && PayloadSays(JcsCanon.CanonMembers(Stamp(receipt)), receipt)
  {
    StampHolds(receipt, []);
    forall k
      ensures Get(JcsCanon.CanonMembers(Stamp(receipt)), k) ==
              if k == Ascii("v") then Some(JStr(Ascii("veritrail/0.1"))) else ReadBack(Get(receipt, k))
    {
      StampHolds(receipt, k);
      JcsCanon.CanonGet(Stamp(receipt), k);
    }
  }

  lemma FramedSays(c: Crypto, seed: Bytes, kid: Str, receipt: seq<Member>) returns (t: Token)
    requires ValidMembers(receipt)
    ensures ReadToken(CompactJws(c, seed, kid, Stamp(receipt))) == Some(t) && Says(t, kid, receipt)
  {
    CanonHeaderSays(kid);
    CanonStampSays(receipt);
    TokenReadsBack(c, seed, kid, Stamp(receipt));
    t := ReadToken(CompactJws(c, seed, kid, Stamp(receipt))).value;
  }

  lemma SignedIsFramed(c: Crypto, receipt: seq<Member>, kid: Str, privateKey: Option<JSON>, jws: Str) returns (seed: Bytes)
    requires Sign(c, Some(JObj(receipt)), Some(JStr(kid)), privateKey) == Signed(jws)
    ensures jws == CompactJws(c, seed, kid, Stamp(receipt))
  {
    seed := Base64.FlexibleDecode(privateKey.value.s).value;
  }

  /**
   * What a signed receipt says: the header names EdDSA and the kid and nothing else; the
   * payload is the receipt with the protocol version under `v`.
   */
  lemma SignedContents(c: Crypto, receipt: seq<Member>, kid: Str, privateKey: Option<JSON>, jws: Str) returns (t: Token)
    requires ValidMembers(receipt) && Sign(c, Some(JObj(receipt)), Some(JStr(kid)), privateKey) == Signed(jws)
    ensures ReadToken(jws) == Some(t) && Says(t, kid, receipt)
  {
    var seed := SignedIsFramed(c, receipt, kid, privateKey, jws);
    t := FramedSays(c, seed, kid, receipt);
  }

  /** The one error given is the first requirement, in the documented order, that the input does not meet. */
  lemma SignRefuses(c: Crypto, receipt: Option<JSON>, kid: Option<JSON>, privateKey: Option<JSON>)
    ensures var isObject := receipt.Some? && receipt.value.JObj?;
            var unnamed := isObject && Get(receipt.value.members, Ascii("receipt_id")) == None;
            var hasKid := kid.Some? && kid.value.JStr? && kid.value.s != [];
            var hasSeed := privateKey.Some? && privateKey.value.JStr? && IsSeedText(privateKey.value.s);
            var r := Sign(c, receipt, kid, privateKey);
            && (r == Refused(InvalidInput) <==> !isObject)
            && (r == Refused(ReceiptIdMustBeAbsent) <==> isObject && !unnamed)
            && (r == Refused(KidRequired) <==> unnamed && !hasKid)
            && (r == Refused(InvalidPrivateKey) <==> unnamed && hasKid && !hasSeed)
            && (r.Signed? <==> unnamed && hasKid && hasSeed)
  {
    if privateKey.Some? && privateKey.value.JStr? {
      SeedTextDecodes(privateKey.value.s);
    }
  }
}
