/** What a verdict on one receipt means. */
module VerifierGuarantees {
  import opened Text
  import opened Json
  import opened Jcs
  import opened JcsOctets
  import opened Verifier

  /** The registry key that the payload's performer and the header's kid name. */
  function ResolvedKey(t: Token, keys: Registry): (jwk: Option<Jwk>) {
    match (Get(t.payload, Ascii("performer_id")), Get(t.header, Ascii("kid")))
    case (Some(JStr(performer)), Some(JStr(kid))) =>
      if performer in keys && kid in keys[performer] then Some(keys[performer][kid]) else None
    case _ => None
  }

  /** None of the six names under which a header could bring a key of its own. */
  predicate NoKeyMaterial(header: seq<Member>) {
    && Get(header, Ascii("jwk")) == None && Get(header, Ascii("jku")) == None
    && Get(header, Ascii("x5u")) == None && Get(header, Ascii("x5c")) == None
    && Get(header, Ascii("x5t")) == None && Get(header, Ascii("x5t#S256")) == None
  }

  /** Each expectation the policy has is met by the claim of that name. */
  predicate InContext(policy: Policy, payload: seq<Member>) {
    && (match policy.binding case None => true case Some(b) => Get(payload, Ascii("binding")) == Some(JStr(b)))
    && (match policy.rpcMethod case None => true case Some(m) => Get(payload, Ascii("method")) == Some(JStr(m)))
  }

  /** The checks after framing, each on its own; one that needs an absent key is not asked to hold. */
  ghost predicate Passes(check: Reason, c: Crypto, t: Token, keys: Registry, policy: Policy) {
    var jwk := ResolvedKey(t, keys);
    match check
    case Malformed => true
    case HeaderKeyMaterial => NoKeyMaterial(t.header)
    case UnknownKey => jwk != None
    case RevokedKey => jwk != None ==> jwk.value.status != Some(Ascii("revoked"))
    case AlgNotAllowed =>
      jwk != None ==> Get(t.header, Ascii("alg")) == Some(JStr(jwk.value.alg)) && jwk.value.alg !in {Ascii("none"), []}
    case BadSignature => jwk != None ==> SignedBy(c, t, jwk.value)
    case NonCanonicalPayload => IsPrinted(t.payloadBytes)
    case ContextMismatch => InContext(policy, t.payload)
    case Verified => true
  }

  /** The bytes are the canonical form of some object. */
  ghost predicate IsPrinted(b: Bytes) {
    exists ms :: ValidMembers(ms) && JcsBytes(JObj(ms)) == b
  }

  /** The signature verifies under the registry key, by the scheme the registry names. */
  ghost predicate SignedBy(c: Crypto, t: Token, jwk: Jwk) {
    match c.importKey(jwk.kty, jwk.crv, jwk.x, jwk.y)
    case None => false
    case Some(key) =>
      || (jwk.alg == Ascii("EdDSA") && c.edVerify(key, t.signingInput, t.sig))
      || (jwk.alg == Ascii("ES256") && c.esVerify(key, t.signingInput, t.sig))
  }

  const CHECKS := [HeaderKeyMaterial, UnknownKey, RevokedKey, AlgNotAllowed, BadSignature, NonCanonicalPayload, ContextMismatch]

  /** The first check in the list that fails, or success. */
  ghost function FirstFailure(checks: seq<Reason>, c: Crypto, t: Token, keys: Registry, policy: Policy): (r: Reason) {
    if checks == [] then Verified
    else if !Passes(checks[0], c, t, keys, policy) then checks[0]
    else FirstFailure(checks[1..], c, t, keys, policy)
  }

  lemma {:induction false} FirstFailureAt(checks: seq<Reason>, i: nat, c: Crypto, t: Token, keys: Registry, policy: Policy)
    requires i < |checks| && checks[i] != Verified && !Passes(checks[i], c, t, keys, policy)
    requires forall j | 0 <= j < i :: Passes(checks[j], c, t, keys, policy)
    ensures FirstFailure(checks, c, t, keys, policy) == checks[i]
  {
    if i > 0 {
      FirstFailureAt(checks[1..], i - 1, c, t, keys, policy);
    }
  }

  lemma {:induction false} NoFailure(checks: seq<Reason>, c: Crypto, t: Token, keys: Registry, policy: Policy)
    requires forall j | 0 <= j < |checks| :: Passes(checks[j], c, t, keys, policy)
    ensures FirstFailure(checks, c, t, keys, policy) == Verified
  {
    if checks != [] {
      NoFailure(checks[1..], c, t, keys, policy);
    }
  }

  /** The position of a reason in the list of checks, its length for success. */
  function Rank(r: Reason): (i: nat) {
    match r
    case Malformed => 0
    case HeaderKeyMaterial => 0
    case UnknownKey => 1
    case RevokedKey => 2
    case AlgNotAllowed => 3
    case BadSignature => 4
    case NonCanonicalPayload => 5
    case ContextMismatch => 6
    case Verified => 7
  }

  lemma KeyMaterialCheck(c: Crypto, t: Token, keys: Registry, policy: Policy)
    ensures Passes(HeaderKeyMaterial, c, t, keys, policy) <==> !CarriesKeyMaterial(t.header)
  {
    var h, names := t.header, FORBIDDEN_HEADER_KEYS;
    assert names == [Ascii("jwk"), Ascii("jku"), Ascii("x5u"), Ascii("x5c"), Ascii("x5t"), Ascii("x5t#S256")];
    assert names[0] in names && names[1] in names && names[2] in names && names[3] in names && names[4] in names && names[5] in names;
  }

  lemma ResolvedIs(t: Token, keys: Registry)
    ensures ResolvedKey(t, keys) == ResolveKey(keys, Get(t.payload, PERFORMER_ID), Get(t.header, KID))
  {
  }

  lemma ContextIs(policy: Policy, payload: seq<Member>)
    ensures InContext(policy, payload) <==> PolicyMet(policy, payload)
  {
  }

  lemma CanonicalCheck(t: Token)
    requires DecodeObject(t.payloadBytes) == Some(t.payload)
    ensures IsPrinted(t.payloadBytes) <==> JcsBytes(JObj(t.payload)) == t.payloadBytes
  {
    CanonicalCheckIsImage(t.payloadBytes);
  }

  lemma AlgCheck(c: Crypto, t: Token, keys: Registry, policy: Policy, jwk: Jwk)
    requires ResolvedKey(t, keys) == Some(jwk)
    ensures Passes(AlgNotAllowed, c, t, keys, policy) <==> AlgOk(t.header, jwk)
  {
    assert |Ascii("none")| == 4;
  }

  lemma SignatureCheck(c: Crypto, t: Token, keys: Registry, policy: Policy, jwk: Jwk)
    requires ResolvedKey(t, keys) == Some(jwk)
    ensures Passes(BadSignature, c, t, keys, policy) <==> SignatureOk(c, t, jwk)
  {
    assert |EDDSA| == 5 && EDDSA[0] == 0x45 && EDDSA[1] == 0x64 && |ES256| == 5 && ES256[1] == 0x53;
  }

  predicate AlgOk(header: seq<Member>, jwk: Jwk) {
    match Get(header, ALG)
    case Some(JStr(alg)) => !(alg == Ascii("none") || alg == [] || alg != jwk.alg)
    case _ => false
  }

  predicate SignatureOk(c: Crypto, t: Token, jwk: Jwk) {
    match c.importKey(jwk.kty, jwk.crv, jwk.x, jwk.y)
    case None => false
    case Some(key) => CheckSignature(c, jwk.alg, t.signingInput, key, t.sig)
  }

  /** `Judge` with a known key is a cascade over the answers to its checks. */
  lemma JudgeCascade(c: Crypto, t: Token, keys: Registry, policy: Policy, jwk: Jwk)
    requires ResolvedKey(t, keys) == Some(jwk)
    ensures Judge(c, t, keys, policy).reason ==
            if CarriesKeyMaterial(t.header) then HeaderKeyMaterial
            else if jwk.status == Some(Ascii("revoked")) then RevokedKey
            else if !AlgOk(t.header, jwk) then AlgNotAllowed
            else if !SignatureOk(c, t, jwk) then BadSignature
            else if JcsBytes(JObj(t.payload)) != t.payloadBytes then NonCanonicalPayload
            else if !PolicyMet(policy, t.payload) then ContextMismatch
            else Verified
  {
    ResolvedIs(t, keys);
  }

  /** The verdict's reason is a check that fails, and every earlier check passes. */
  ghost predicate StopsAt(r: Reason, c: Crypto, t: Token, keys: Registry, policy: Policy) {
    && r != Malformed
    && (r != Verified ==> CHECKS[Rank(r)] == r && !Passes(r, c, t, keys, policy))
    && forall j | 0 <= j < Rank(r) :: Passes(CHECKS[j], c, t, keys, policy)
  }

  lemma StopsFirst(r: Reason, c: Crypto, t: Token, keys: Registry, policy: Policy)
    requires StopsAt(r, c, t, keys, policy)
    ensures FirstFailure(CHECKS, c, t, keys, policy) == r
  {
    if r == Verified {
      NoFailure(CHECKS, c, t, keys, policy);
    } else {
      FirstFailureAt(CHECKS, Rank(r), c, t, keys, policy);
    }
  }

  lemma KnownKeyStops(c: Crypto, t: Token, keys: Registry, policy: Policy, jwk: Jwk)
    requires IsPrinted(t.payloadBytes) <==> JcsBytes(JObj(t.payload)) == t.payloadBytes
    requires ResolvedKey(t, keys) == Some(jwk)
    ensures StopsAt(Judge(c, t, keys, policy).reason, c, t, keys, policy)
  {
    KeyMaterialCheck(c, t, keys, policy);
    ContextIs(policy, t.payload);
    AlgCheck(c, t, keys, policy, jwk);
    SignatureCheck(c, t, keys, policy, jwk);
    JudgeCascade(c, t, keys, policy, jwk);
  }

  lemma JudgeStops(c: Crypto, t: Token, keys: Registry, policy: Policy)
    requires IsPrinted(t.payloadBytes) <==> JcsBytes(JObj(t.payload)) == t.payloadBytes
    ensures StopsAt(Judge(c, t, keys, policy).reason, c, t, keys, policy)
  {
    if ResolvedKey(t, keys).Some? {
      KnownKeyStops(c, t, keys, policy, ResolvedKey(t, keys).value);
    } else {
      ResolvedIs(t, keys);
      KeyMaterialCheck(c, t, keys, policy);
    }
  }

  /**
   * The verdict on a framed token names the first check that fails, each check being stated
   * by itself; it is positive exactly when none does. Anything else is malformed.
   */
  lemma FirstFailureWins(c: Crypto, jws: Str, keys: Registry, policy: Policy)
    ensures ReadToken(jws).None? <==> Verify(c, jws, keys, policy).reason == Malformed
    ensures ReadToken(jws).Some? ==>
              Verify(c, jws, keys, policy).reason == FirstFailure(CHECKS, c, ReadToken(jws).value, keys, policy)
  {
    if ReadToken(jws).Some? {
      var t := ReadToken(jws).value;
      ReadTokenPayload(jws);
      CanonicalCheck(t);
      JudgeStops(c, t, keys, policy);
      StopsFirst(Judge(c, t, keys, policy).reason, c, t, keys, policy);
    }
  }

  /** What a caller may rely on: the registry's own key, in force, signed exactly these bytes for this context. */
  ghost predicate Trustworthy(c: Crypto, t: Token, keys: Registry, policy: Policy) {
    && NoKeyMaterial(t.header)
    && IsPrinted(t.payloadBytes)
    && InContext(policy, t.payload)
    && match ResolvedKey(t, keys)
       case None => false
       case Some(jwk) =>
         && jwk.status != Some(Ascii("revoked"))
         && Get(t.header, Ascii("alg")) == Some(JStr(jwk.alg))
         && SignedBy(c, t, jwk)
  }

  lemma JudgedTrustworthy(c: Crypto, t: Token, keys: Registry, policy: Policy)
    requires IsPrinted(t.payloadBytes) <==> JcsBytes(JObj(t.payload)) == t.payloadBytes
    ensures Judge(c, t, keys, policy).valid <==> Trustworthy(c, t, keys, policy)
  {
    KeyMaterialCheck(c, t, keys, policy);
    ResolvedIs(t, keys);
    if ResolvedKey(t, keys).Some? {
      var jwk := ResolvedKey(t, keys).value;
      ContextIs(policy, t.payload);
      assert |Ascii("none")| == 4 && |EDDSA| == 5 && |ES256| == 5;
      SignatureCheck(c, t, keys, policy, jwk);
      JudgeCascade(c, t, keys, policy, jwk);
    }
  }

  /** A receipt is accepted exactly when it is framed and trustworthy. */
  lemma AcceptedExactly(c: Crypto, jws: Str, keys: Registry, policy: Policy)
    ensures Verify(c, jws, keys, policy).valid <==>
            ReadToken(jws).Some? && Trustworthy(c, ReadToken(jws).value, keys, policy)
    ensures ReadToken(jws).Some? ==>
              ReadToken(jws).value.signingInput == Split(jws, DOT)[0] + [DOT] + Split(jws, DOT)[1]
  {
    if ReadToken(jws).Some? {
      SignedPart(jws);
      ReadTokenPayload(jws);
      CanonicalCheck(ReadToken(jws).value);
      JudgedTrustworthy(c, ReadToken(jws).value, keys, policy);
    }
  }
}
