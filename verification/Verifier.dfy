/** The receipt verifier: compact JWS (RFC 7515 section 7.1) over canonical JSON. */
module Verifier {
  import opened Text
  import opened Json
  import opened JsonParse
  import opened Jcs
  import opened JcsOctets
  import Base64
  import Multihash
  import Utf8

  /** A public key of the registry. */
  datatype Jwk = Jwk(kty: Str, crv: Str, x: Str, y: Option<Str>, alg: Str, status: Option<Str>)

  type Registry = map<Str, map<Str, Jwk>>

  /** `None` stands for both an absent and a null expectation. */
  datatype Policy = Policy(binding: Option<Str>, rpcMethod: Option<Str>)

  const EMPTY_POLICY := Policy(None, None)

  /** The foreign calls: SHA-256, key import (to a handle) and the two signature schemes. */
  datatype Crypto = Crypto(
    sha256: Bytes -> Bytes,
    importKey: (Str, Str, Str, Option<Str>) -> Option<nat>,
    edSign: (Bytes, Bytes) -> Bytes,
    edVerify: (nat, Bytes, Bytes) -> bool,
    esVerify: (nat, Bytes, Bytes) -> bool)

  datatype Reason =
    | Malformed
    | HeaderKeyMaterial
    | UnknownKey
    | RevokedKey
    | AlgNotAllowed
    | BadSignature
    | NonCanonicalPayload
    | ContextMismatch
    | Verified

  datatype Verdict = Verdict(valid: bool, reason: Reason)

  function Reject(reason: Reason): Verdict { Verdict(false, reason) }

  const EDDSA := Ascii("EdDSA")
  const ES256 := Ascii("ES256")
  const ALG := Ascii("alg")
  const KID := Ascii("kid")
  const PERFORMER_ID := Ascii("performer_id")
  const BINDING := Ascii("binding")
  const METHOD := Ascii("method")
  const FORBIDDEN_HEADER_KEYS: seq<Str> :=
    [Ascii("jwk"), Ascii("jku"), Ascii("x5u"), Ascii("x5c"), Ascii("x5t"), Ascii("x5t#S256")]

  /** The hash string of raw bytes (`digestBytes`). */
  function Digest(c: Crypto, b: Bytes): (s: Str) {
    Multihash.HashString(c.sha256(b))
  }

  /** `Buffer.from(s, 'ascii')` */
  function AsciiBytes(s: Str): (b: Bytes) {
    seq(|s|, i requires 0 <= i < |s| => s[i] % 0x100)
  }

  function SigningInput(headerSeg: Str, payloadSeg: Str): (b: Bytes) {
    AsciiBytes(headerSeg + [DOT] + payloadSeg)
  }

  /** What is left of a token that is well formed. */
  datatype Token = Token(signingInput: Bytes, header: seq<Member>, payloadBytes: Bytes, payload: seq<Member>, sig: Bytes)

  /** Step 1: three base64url segments, the first two strict UTF-8 JSON objects. */
  function ReadToken(jws: Str): (r: Option<Token>) {
    var parts := Split(jws, DOT);
    if |parts| != 3 then None
    else match (Base64.UrlDecode(parts[0]), Base64.UrlDecode(parts[1]), Base64.UrlDecode(parts[2]))
      case (Some(headerBytes), Some(payloadBytes), Some(sig)) =>
        (match (DecodeObject(headerBytes), DecodeObject(payloadBytes))
         case (Some(header), Some(payload)) =>
           Some(Token(SigningInput(parts[0], parts[1]), header, payloadBytes, payload, sig))
         case _ => None)
      case _ => None
  }

  function CheckSignature(c: Crypto, alg: Str, msg: Bytes, key: nat, sig: Bytes): bool {
    if alg == EDDSA then c.edVerify(key, msg, sig)
    else if alg == ES256 then c.esVerify(key, msg, sig)
    else false
  }

  /** `registry[performer][kid]` when both are strings. */
  function ResolveKey(keys: Registry, performer: Option<JSON>, kid: Option<JSON>): (r: Option<Jwk>) {
    match (performer, kid)
    case (Some(JStr(p)), Some(JStr(k))) => if p in keys && k in keys[p] then Some(keys[p][k]) else None
    case _ => None
  }

  predicate PolicyMet(policy: Policy, payload: seq<Member>) {
    && (policy.binding.Some? ==> Get(payload, BINDING) == Some(JStr(policy.binding.value)))
    && (policy.rpcMethod.Some? ==> Get(payload, METHOD) == Some(JStr(policy.rpcMethod.value)))
  }

  predicate CarriesKeyMaterial(header: seq<Member>) {
    exists k | k in FORBIDDEN_HEADER_KEYS :: HasKey(header, k)
  }

  /** Steps 2 to 9, the first failing check winning. */
  function Judge(c: Crypto, t: Token, keys: Registry, policy: Policy): (v: Verdict)
    ensures v.valid <==> v.reason == Verified
  {
    if CarriesKeyMaterial(t.header) then Reject(HeaderKeyMaterial)
    else match ResolveKey(keys, Get(t.payload, PERFORMER_ID), Get(t.header, KID))
      case None => Reject(UnknownKey)
      case Some(jwk) =>
        if jwk.status == Some(Ascii("revoked")) then Reject(RevokedKey)
        else match Get(t.header, ALG)
          case Some(JStr(alg)) =>
            if alg == Ascii("none") || alg == [] || alg != jwk.alg then Reject(AlgNotAllowed)
            else (match c.importKey(jwk.kty, jwk.crv, jwk.x, jwk.y)
                  case None => Reject(BadSignature)
                  case Some(key) =>
                    if !CheckSignature(c, alg, t.signingInput, key, t.sig) then Reject(BadSignature)
                    else if JcsBytes(JObj(t.payload)) != t.payloadBytes then Reject(NonCanonicalPayload)
                    else if !PolicyMet(policy, t.payload) then Reject(ContextMismatch)
                    else Verdict(true, Verified))
          case _ => Reject(AlgNotAllowed)
  }

  /** `verify` */
  function Verify(c: Crypto, jws: Str, keys: Registry, policy: Policy): (v: Verdict)
    ensures v.valid <==> v.reason == Verified
  {
    match ReadToken(jws)
    case None => Reject(Malformed)
    case Some(t) => Judge(c, t, keys, policy)
  }

  /** An accepted token carries exactly the canonical bytes of a valid object. */
  lemma AcceptedIsCanonical(c: Crypto, jws: Str, keys: Registry, policy: Policy)
    requires Verify(c, jws, keys, policy).valid
    ensures ReadToken(jws).Some?
    ensures var t := ReadToken(jws).value;
            && Judge(c, t, keys, policy).valid
            && ValidMembers(t.payload) && JcsBytes(JObj(t.payload)) == t.payloadBytes
            && IsCanonicalObject(t.payloadBytes)
            && (exists p :: Get(t.payload, PERFORMER_ID) == Some(JStr(p)))
  {
    var t := ReadToken(jws).value;
    ReadTokenPayload(jws);
    AcceptedClaims(c, t, keys, policy);
  }

  lemma ReadTokenPayload(jws: Str)
    requires ReadToken(jws).Some?
    ensures var t := ReadToken(jws).value;
            && DecodeObject(t.payloadBytes) == Some(t.payload) && ValidMembers(t.payload)
            && var parts := Split(jws, DOT); |parts| == 3 && Base64.UrlDecode(parts[1]) == Some(t.payloadBytes)
  {
    ParseValid(Utf8.StrictDecode(ReadToken(jws).value.payloadBytes).value);
  }

  lemma AcceptedClaims(c: Crypto, t: Token, keys: Registry, policy: Policy)
    requires Judge(c, t, keys, policy).valid
    ensures JcsBytes(JObj(t.payload)) == t.payloadBytes
    ensures exists p :: Get(t.payload, PERFORMER_ID) == Some(JStr(p))
  {
    var performer := Get(t.payload, PERFORMER_ID);
    assert ResolveKey(keys, performer, Get(t.header, KID)).Some?;
    assert performer == Some(JStr(performer.value.s));
  }

  // ---- What is signed ----

  lemma {:induction false} UrlTextIsBytes(s: Str)
    requires Base64.IsUrlText(s)
    ensures IsBytes(s) && AsciiBytes(s) == s
  {
    forall i | 0 <= i < |s| ensures s[i] < 0x80 {
      assert Base64.Value(s[i]).Some?;
    }
  }

  lemma ThreeSegments(jws: Str)
    requires |Split(jws, DOT)| == 3
    ensures var segs := Split(jws, DOT); jws == segs[0] + [DOT] + segs[1] + [DOT] + segs[2]
    ensures var segs := Split(jws, DOT); DOT !in segs[0] && DOT !in segs[1] && DOT !in segs[2]
  {
    var segs := Split(jws, DOT);
    JoinSplit(jws, DOT);
    assert segs == [segs[0], segs[1], segs[2]];
    JoinThree(segs[0], segs[1], segs[2]);
  }

  lemma JoinThree(a: Str, b: Str, c: Str)
    ensures Join([a, b, c], DOT) == a + [DOT] + b + [DOT] + c
  {
    assert [a, b, c][1..] == [b, c] && [b, c][1..] == [c];
    assert Join([b, c], DOT) == b + [DOT] + c;
    Assoc(a + [DOT], b, [DOT] + c);
    Assoc(a + [DOT] + b, [DOT], c);
    assert b + [DOT] + c == b + ([DOT] + c);
  }

  lemma SigningInputText(headerSeg: Str, payloadSeg: Str)
    requires Base64.IsUrlText(headerSeg) && Base64.IsUrlText(payloadSeg)
    ensures SigningInput(headerSeg, payloadSeg) == headerSeg + [DOT] + payloadSeg
  {
    UrlTextIsBytes(headerSeg);
    UrlTextIsBytes(payloadSeg);
    var s := headerSeg + [DOT] + payloadSeg;
    assert forall i | 0 <= i < |s| :: s[i] < 0x100;
  }

  /**
   * The signature of a token is over everything before its last dot: header segment, dot and
   * payload segment. What follows the dot is the signature.
   */
  lemma SignedPart(jws: Str)
    requires ReadToken(jws).Some?
    ensures var t, sigSeg := ReadToken(jws).value, Split(jws, DOT)[2];
            && jws == t.signingInput + ['.' as int] + sigSeg && '.' as int !in sigSeg
            && Base64.UrlDecode(sigSeg) == Some(t.sig)
    ensures var t, segs := ReadToken(jws).value, Split(jws, DOT);
            && t.signingInput == segs[0] + ['.' as int] + segs[1]
            && Base64.UrlDecode(segs[1]) == Some(t.payloadBytes)
  {
    var segs := Split(jws, DOT);
    ThreeSegments(jws);
    SigningInputText(segs[0], segs[1]);
  }

  /** Nothing that is read but the signature can change without changing what is signed. */
  lemma SignedPartFixesToken(jws: Str, other: Str)
    requires ReadToken(jws).Some? && ReadToken(other).Some?
    requires ReadToken(jws).value.signingInput == ReadToken(other).value.signingInput
    ensures var t, u := ReadToken(jws).value, ReadToken(other).value;
            t.header == u.header && t.payloadBytes == u.payloadBytes && t.payload == u.payload
  {
    SignedPart(jws);
    SignedPart(other);
    SameTwo(Split(jws, DOT), Split(other, DOT));
  }

  lemma SameTwo(a: seq<Str>, b: seq<Str>)
    requires |a| == 3 && |b| == 3 && DOT !in a[0] && DOT !in a[1] && DOT !in b[0] && DOT !in b[1]
    requires a[0] + [DOT] + a[1] == b[0] + [DOT] + b[1]
    ensures a[0] == b[0] && a[1] == b[1]
  {
    IndexOfAt(a[0], DOT, a[1]);
    IndexOfAt(b[0], DOT, b[1]);
    var s := a[0] + [DOT] + a[1];
    assert s[..|a[0]|] == a[0] && s[|a[0]| + 1..] == a[1];
    assert s[..|b[0]|] == b[0] && s[|b[0]| + 1..] == b[1];
  }

  // ---- What is framed ----

  /** The bytes are the UTF-8 encoding, with or without a BOM, of a JSON object. */
  ghost predicate SpellsObject(b: Bytes, ms: seq<Member>) {
    exists t: Str :: Utf8.StrictDecode(b) == Some(t) && Parse(t) == Some(JObj(ms))
  }

  lemma DecodeObjectExact(b: Bytes, ms: seq<Member>)
    ensures DecodeObject(b) == Some(ms) <==> SpellsObject(b, ms)
  {
  }

  ghost predicate AllUrlChars(s: Str) {
    forall i | 0 <= i < |s| :: Base64.IsUrlChar(s[i])
  }

  /** Three segments of the URL alphabet, the first two of them objects, and what they decode to. */
  ghost predicate Framed(jws: Str, t: Token) {
    var segs := Split(jws, '.' as int);
    && |segs| == 3
    && AllUrlChars(segs[0]) && AllUrlChars(segs[1]) && AllUrlChars(segs[2])
    && t.signingInput == segs[0] + ['.' as int] + segs[1]
    && SpellsObject(Base64.LenientDecode(segs[0]), t.header)
    && t.payloadBytes == Base64.LenientDecode(segs[1]) && SpellsObject(t.payloadBytes, t.payload)
    && t.sig == Base64.LenientDecode(segs[2])
  }

  /** The same by the guard and the decoder. */
  ghost predicate Guarded(jws: Str, t: Token) {
    var segs := Split(jws, DOT);
    && |segs| == 3
    && Base64.IsUrlText(segs[0]) && Base64.IsUrlText(segs[1]) && Base64.IsUrlText(segs[2])
    && t.signingInput == segs[0] + [DOT] + segs[1]
    && DecodeObject(Base64.LenientDecode(segs[0])) == Some(t.header)
    && t.payloadBytes == Base64.LenientDecode(segs[1]) && DecodeObject(t.payloadBytes) == Some(t.payload)
    && t.sig == Base64.LenientDecode(segs[2])
  }

  lemma ReadTokenGuarded(jws: Str, t: Token)
    ensures ReadToken(jws) == Some(t) <==> Guarded(jws, t)
  {
    var segs := Split(jws, DOT);
    if |segs| == 3 && Base64.IsUrlText(segs[0]) && Base64.IsUrlText(segs[1]) {
      SigningInputText(segs[0], segs[1]);
    }
  }

  lemma GuardedIsFramed(jws: Str, t: Token)
    ensures Guarded(jws, t) <==> Framed(jws, t)
  {
    var segs := Split(jws, DOT);
    if |segs| == 3 {
      Base64.UrlTextIsAlphabet(segs[0]);
      Base64.UrlTextIsAlphabet(segs[1]);
      Base64.UrlTextIsAlphabet(segs[2]);
      DecodeObjectExact(Base64.LenientDecode(segs[0]), t.header);
      DecodeObjectExact(Base64.LenientDecode(segs[1]), t.payload);
    }
  }

  /** A token is read exactly when it is framed, and as what its segments say. */
  lemma ReadTokenExact(jws: Str, t: Token)
    ensures ReadToken(jws) == Some(t) <==> Framed(jws, t)
  {
    ReadTokenGuarded(jws, t);
    GuardedIsFramed(jws, t);
  }
}
