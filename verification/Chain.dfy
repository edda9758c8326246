/** `verifyChain`: full verification of a leaf-to-root list of signed receipts. */
module Chain {
  import opened Text
  import opened Json
  import opened JsonParse
  import opened Jcs
  import opened JcsOctets
  import opened Verifier
  import opened Lineage
  import Base64
  import Utf8

  datatype ChainVerdict = ChainVerdict(valid: bool, reason: ChainReason, len: nat)

  /** Whether a receipt verifies under a policy. */
  type HopVerifier = (Str, Policy) -> bool

  function Accepts(c: Crypto, keys: Registry): (accepts: HopVerifier) {
    (jws: Str, policy: Policy) => Verify(c, jws, keys, policy).valid
  }

  /** The caller's policy is for the leaf alone. */
  function HopPolicy(policy: Policy, i: nat): Policy {
    if i == 0 then policy else EMPTY_POLICY
  }

  predicate AcceptedAt(accepts: HopVerifier, receipts: seq<Str>, policy: Policy, i: nat)
    requires i < |receipts|
  {
    accepts(receipts[i], HopPolicy(policy, i))
  }

  ghost predicate AllAccepted(accepts: HopVerifier, receipts: seq<Str>, policy: Policy) {
    forall i: nat | i < |receipts| :: AcceptedAt(accepts, receipts, policy, i)
  }

  /** `parsePayload`: lenient at every layer, as it runs only after `verify`. */
  function ParsePayload(jws: Str): (r: Option<Payload>) {
    var parts := Split(jws, DOT);
    if |parts| != 3 then None else ParseObject(Utf8.ToText(Base64.LenientDecode(parts[1])))
  }

  function PayloadOf(jws: Str): (p: Payload) {
    match ParsePayload(jws)
    case None => []
    case Some(p) => p
  }

  /** The payload bytes a hop transmits. */
  function PayloadBytes(jws: Str): (b: Bytes) {
    match ReadToken(jws)
    case None => []
    case Some(t) => t.payloadBytes
  }

  /** `computeReceiptId` */
  function ReceiptId(c: Crypto, p: Payload): (id: Str) {
    Digest(c, JcsBytes(JObj(p)))
  }

  function ReceiptIds(c: Crypto, ps: seq<Payload>): (ids: seq<Str>) {
    seq(|ps|, i requires 0 <= i < |ps| => ReceiptId(c, ps[i]))
  }

  function PathOf(c: Crypto, receipts: seq<Str>): (p: Path) {
    var ps := seq(|receipts|, i requires 0 <= i < |receipts| => PayloadOf(receipts[i]));
    Path(seq(|receipts|, i requires 0 <= i < |receipts| => PayloadBytes(receipts[i])), ps, ReceiptIds(c, ps))
  }

  /** The verdict: the first phase, in order, that the list as a whole does not meet. */
  ghost function Outcome(c: Crypto, receipts: seq<Str>, keys: Registry, policy: Policy): (v: ChainVerdict)
    ensures v.valid <==> v.reason == ChainOk
  {
    var n := |receipts|;
    var path := PathOf(c, receipts);
    if n == 0 then ChainVerdict(false, EmptyChain, 0)
    else if !AllAccepted(Accepts(c, keys), receipts, policy) then ChainVerdict(false, ReceiptInvalid, n)
    else var reason := PhaseReason(path.payloads, path.ids); ChainVerdict(reason == ChainOk, reason, n)
  }

  // ---- A verified hop ----

  /**
   * Re-parsing a verified hop never fails and gives back what was verified, so hashing the
   * re-canonicalised payload is hashing the transmitted bytes.
   */
  lemma VerifiedHop(c: Crypto, jws: Str, keys: Registry, policy: Policy)
    requires Verify(c, jws, keys, policy).valid
    ensures ParsePayload(jws) == Some(PayloadOf(jws)) && DecodeObject(PayloadBytes(jws)) == Some(PayloadOf(jws))
    ensures ValidMembers(PayloadOf(jws)) && JcsBytes(JObj(PayloadOf(jws))) == PayloadBytes(jws)
    ensures exists p :: Get(PayloadOf(jws), PERFORMER_ID) == Some(JStr(p))
  {
    AcceptedIsCanonical(c, jws, keys, policy);
    ReadTokenPayload(jws);
    JcsBytesDecode(JObj(ReadToken(jws).value.payload));
  }

  /** A list of verified receipts is a path whose ids hash the transmitted payload bytes. */
  lemma VerifiedPath(c: Crypto, receipts: seq<Str>, keys: Registry, policy: Policy)
    requires AllAccepted(Accepts(c, keys), receipts, policy)
    ensures Faithful(b => Digest(c, b), DecodeObject, PathOf(c, receipts))
  {
    var path := PathOf(c, receipts);
    forall i: nat | i < |receipts|
      ensures path.ids[i] == Digest(c, path.bytes[i])
      ensures DecodeObject(path.bytes[i]) == Some(path.payloads[i])
    {
      assert AcceptedAt(Accepts(c, keys), receipts, policy, i);
      VerifiedHop(c, receipts[i], keys, HopPolicy(policy, i));
    }
  }

  predicate ParsesAt(parse: Str -> Option<Payload>, receipts: seq<Str>, i: nat)
    requires i < |receipts|
  {
    parse(receipts[i]).Some?
  }

  lemma VerifiedParse(c: Crypto, receipts: seq<Str>, keys: Registry, policy: Policy)
    requires AllAccepted(Accepts(c, keys), receipts, policy)
    ensures forall i: nat | i < |receipts| :: ParsesAt(ParsePayload, receipts, i)
  {
    forall i: nat | i < |receipts| ensures ParsesAt(ParsePayload, receipts, i) {
      assert AcceptedAt(Accepts(c, keys), receipts, policy, i);
      VerifiedHop(c, receipts[i], keys, HopPolicy(policy, i));
    }
  }

  // ---- The check itself ----

  /** Step 2 */
  method VerifyHops(accepts: HopVerifier, receipts: seq<Str>, policy: Policy) returns (ok: bool)
    ensures ok <==> AllAccepted(accepts, receipts, policy)
  {
    for i := 0 to |receipts|
      invariant forall j: nat | j < i :: AcceptedAt(accepts, receipts, policy, j)
    {
      var hopPolicy := if i == 0 then policy else EMPTY_POLICY;
      if !accepts(receipts[i], hopPolicy) {
        assert !AcceptedAt(accepts, receipts, policy, i);
        return false;
      }
    }
    return true;
  }

  /** Step 3; its failure branch cannot be taken on verified hops. */
  method ParseHops(parse: Str -> Option<Payload>, computeId: Payload -> Str, receipts: seq<Str>)
    returns (payloads: seq<Payload>, receiptIds: seq<Str>)
    requires forall i: nat | i < |receipts| :: ParsesAt(parse, receipts, i)
    ensures |payloads| == |receiptIds| == |receipts|
    ensures forall i | 0 <= i < |receipts| :: parse(receipts[i]) == Some(payloads[i])
    ensures forall i | 0 <= i < |receipts| :: receiptIds[i] == computeId(payloads[i])
  {
    payloads, receiptIds := [], [];
    for i := 0 to |receipts|
      invariant |payloads| == |receiptIds| == i
      invariant forall j | 0 <= j < i :: parse(receipts[j]) == Some(payloads[j])
      invariant forall j | 0 <= j < i :: receiptIds[j] == computeId(payloads[j])
    {
      assert ParsesAt(parse, receipts, i);
      var payload := parse(receipts[i]);
      if payload.None? {
        assert false;
      }
      payloads := payloads + [payload.value];
      receiptIds := receiptIds + [computeId(payload.value)];
    }
  }

  lemma ParsedPath(c: Crypto, receipts: seq<Str>, payloads: seq<Payload>, ids: seq<Str>)
    requires |payloads| == |ids| == |receipts|
    requires forall i | 0 <= i < |receipts| :: ParsePayload(receipts[i]) == Some(payloads[i])
    requires forall i | 0 <= i < |receipts| :: ids[i] == ReceiptId(c, payloads[i])
    ensures PathOf(c, receipts).payloads == payloads && PathOf(c, receipts).ids == ids
  {
  }

  /** `verifyChain` */
  method VerifyChain(c: Crypto, receipts: seq<Str>, keys: Registry, policy: Option<Policy>) returns (out: ChainVerdict)
    ensures out == Outcome(c, receipts, keys, if policy.Some? then policy.value else EMPTY_POLICY)
  {
    if |receipts| == 0 {
      return ChainVerdict(false, EmptyChain, 0);
    }
    var n := |receipts|;
    var leafPolicy := if policy.Some? then policy.value else EMPTY_POLICY;
    var verified := VerifyHops(Accepts(c, keys), receipts, leafPolicy);
    if !verified {
      return ChainVerdict(false, ReceiptInvalid, n);
    }
    VerifiedParse(c, receipts, keys, leafPolicy);
    var payloads, receiptIds := ParseHops(ParsePayload, p => ReceiptId(c, p), receipts);
    ParsedPath(c, receipts, payloads, receiptIds);
    var reason := CheckPhases(payloads, receiptIds);
    return ChainVerdict(reason == ChainOk, reason, n);
  }
}
