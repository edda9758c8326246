/**
 * The Go chain verifier: it hashes the transmitted payload bytes instead of re-canonicalising
 * and reads claims from raw JSON. It is compared with the TypeScript one.
 */
module GoChain {
  import opened Text
  import opened Json
  import opened JsonParse
  import opened Jcs
  import opened Verifier
  import opened Lineage
  import opened Chain
  import Base64
  import JcsRoundTrip
  import Utf8

  /** `base64.RawURLEncoding.DecodeString`: line breaks are skipped, a lone last digit is an error. */
  function GoUrlDecode(s: Str): (r: Option<Bytes>) {
    var t := DropLineBreaks(s);
    if Base64.IsUrlText(t) && |t| % 4 != 1 then Some(Base64.LenientDecode(t)) else None
  }

  function DropLineBreaks(s: Str): (t: Str) {
    if s == [] then []
    else if s[0] == CR || s[0] == LF then DropLineBreaks(s[1..])
    else [s[0]] + DropLineBreaks(s[1..])
  }

  datatype RawHop = RawHop(bytes: Bytes, claims: RawClaims)

  /** `decodePayload` */
  function DecodePayload(jws: Str): (r: Option<RawHop>) {
    var segs := Split(jws, DOT);
    if |segs| != 3 then None
    else match GoUrlDecode(segs[1])
      case None => None
      case Some(bytes) =>
        match ParseEntries(Utf8.ToText(bytes))
        case None => None
        case Some(es) => Some(RawHop(bytes, RawMap(es)))
  }

  /** `claimIsNull` */
  predicate ClaimIsNull(m: RawClaims, k: Str) {
    k !in m || m[k] == NULL
  }

  /** `stringClaim`: empty when the claim is absent or not a string. */
  function StringClaim(m: RawClaims, k: Str): (s: Str) {
    if k !in m then []
    else match Parse(m[k])
      case Some(JStr(s)) => s
      case _ => []
  }

  // ---- The phases ----

  predicate RawPlacedAt(cs: seq<RawClaims>, i: nat)
    requires i < |cs|
  {
    ClaimIsNull(cs[i], PARENT_RECEIPT_HASH) <==> i == |cs| - 1
  }

  predicate RawLinkAt(cs: seq<RawClaims>, ids: seq<Str>, i: nat)
    requires |ids| == |cs| && i + 1 < |cs|
  {
    StringClaim(cs[i], PARENT_RECEIPT_HASH) == ids[i + 1]
  }

  predicate RawIdentityAt(cs: seq<RawClaims>, i: nat)
    requires i + 1 < |cs|
  {
    || ClaimIsNull(cs[i], PARENT_PERFORMER_ID)
    || StringClaim(cs[i], PARENT_PERFORMER_ID) == []
    || StringClaim(cs[i], PARENT_PERFORMER_ID) == StringClaim(cs[i + 1], PERFORMER_ID)
  }

  ghost function RawReason(cs: seq<RawClaims>, ids: seq<Str>): (r: ChainReason)
    requires |ids| == |cs|
  {
    if !(forall i: nat | i < |cs| :: RawPlacedAt(cs, i)) then MalformedChain
    else if !(forall i: nat | i + 1 < |cs| :: RawLinkAt(cs, ids, i)) then LinkMismatch
    else if !(forall i: nat | i + 1 < |cs| :: RawIdentityAt(cs, i)) then ParentIdentityMismatch
    else if !Distinct(ids) then Cycle
    else ChainOk
  }

  method CheckRawPhases(payloads: seq<RawClaims>, receiptIds: seq<Str>) returns (reason: ChainReason)
    requires |receiptIds| == |payloads| > 0
    ensures reason == RawReason(payloads, receiptIds)
  {
    var n := |payloads|;
    for i := 0 to n
      invariant forall j: nat | j < i :: RawPlacedAt(payloads, j)
    {
      var parentNull := ClaimIsNull(payloads[i], PARENT_RECEIPT_HASH);
      var isRoot := i == n - 1;
      if !isRoot && parentNull {
        assert !RawPlacedAt(payloads, i);
        return MalformedChain;
      }
      if isRoot && !parentNull {
        assert !RawPlacedAt(payloads, i);
        return MalformedChain;
      }
    }
    for i := 0 to n - 1
      invariant forall j: nat | j < i :: RawLinkAt(payloads, receiptIds, j)
    {
      var parentHash := StringClaim(payloads[i], PARENT_RECEIPT_HASH);
      if parentHash != receiptIds[i + 1] {
        assert !RawLinkAt(payloads, receiptIds, i);
        return LinkMismatch;
      }
    }
    for i := 0 to n - 1
      invariant forall j: nat | j < i :: RawIdentityAt(payloads, j)
    {
      if !ClaimIsNull(payloads[i], PARENT_PERFORMER_ID) {
        var ppid := StringClaim(payloads[i], PARENT_PERFORMER_ID);
        if ppid != [] && ppid != StringClaim(payloads[i + 1], PERFORMER_ID) {
          assert !RawIdentityAt(payloads, i);
          return ParentIdentityMismatch;
        }
      }
    }
    var acyclic := CheckCycle(receiptIds);
    return if acyclic then ChainOk else Cycle;
  }

  predicate DecodesAt(decode: Str -> Option<RawHop>, receipts: seq<Str>, i: nat)
    requires i < |receipts|
  {
    decode(receipts[i]).Some?
  }

  /** Step 3: hash the payload bytes as transmitted. */
  method DecodeHops(decode: Str -> Option<RawHop>, digest: Bytes -> Str, receipts: seq<Str>)
    returns (ok: bool, payloads: seq<RawClaims>, receiptIds: seq<Str>)
    ensures ok <==> forall i: nat | i < |receipts| :: DecodesAt(decode, receipts, i)
    ensures ok ==> |payloads| == |receiptIds| == |receipts|
    ensures ok ==> forall i | 0 <= i < |receipts| ::
      decode(receipts[i]).Some? && payloads[i] == decode(receipts[i]).value.claims
      && receiptIds[i] == digest(decode(receipts[i]).value.bytes)
  {
    payloads, receiptIds := [], [];
    for i := 0 to |receipts|
      invariant |payloads| == |receiptIds| == i
      invariant forall j: nat | j < i :: DecodesAt(decode, receipts, j)
      invariant forall j | 0 <= j < i ::
        decode(receipts[j]).Some? && payloads[j] == decode(receipts[j]).value.claims
        && receiptIds[j] == digest(decode(receipts[j]).value.bytes)
    {
      var hop := decode(receipts[i]);
      if hop.None? {
        assert !DecodesAt(decode, receipts, i);
        return false, [], [];
      }
      payloads := payloads + [hop.value.claims];
      receiptIds := receiptIds + [digest(hop.value.bytes)];
    }
    return true, payloads, receiptIds;
  }

  function ClaimsOf(decode: Str -> Option<RawHop>, receipts: seq<Str>): (cs: seq<RawClaims>)
    requires forall i: nat | i < |receipts| :: DecodesAt(decode, receipts, i)
    ensures |cs| == |receipts|
  {
    seq(|receipts|, i requires 0 <= i < |receipts| => assert DecodesAt(decode, receipts, i); decode(receipts[i]).value.claims)
  }

  function IdsOf(decode: Str -> Option<RawHop>, digest: Bytes -> Str, receipts: seq<Str>): (ids: seq<Str>)
    requires forall i: nat | i < |receipts| :: DecodesAt(decode, receipts, i)
    ensures |ids| == |receipts|
  {
    seq(|receipts|, i requires 0 <= i < |receipts| => assert DecodesAt(decode, receipts, i); digest(decode(receipts[i]).value.bytes))
  }

  /** The verdict of Go's `VerifyChain`, given how it verifies one hop. */
  ghost function RawOutcome(accepts: HopVerifier, decode: Str -> Option<RawHop>, digest: Bytes -> Str,
                            receipts: seq<Str>, policy: Policy): (v: ChainVerdict)
  {
    var n := |receipts|;
    if n == 0 then ChainVerdict(false, EmptyChain, 0)
    else if !AllAccepted(accepts, receipts, policy) then ChainVerdict(false, ReceiptInvalid, n)
    else if !(forall i: nat | i < n :: DecodesAt(decode, receipts, i)) then ChainVerdict(false, ReceiptInvalid, n)
    else
      var reason := RawReason(ClaimsOf(decode, receipts), IdsOf(decode, digest, receipts));
      ChainVerdict(reason == ChainOk, reason, n)
  }

  /** Go's `VerifyChain`; `accepts` is its `Verify`. */
  method GoVerifyChain(accepts: HopVerifier, decode: Str -> Option<RawHop>, digest: Bytes -> Str,
                       receipts: seq<Str>, policy: Policy)
    returns (out: ChainVerdict)
    ensures out == RawOutcome(accepts, decode, digest, receipts, policy)
  {
    var n := |receipts|;
    if n == 0 {
      return ChainVerdict(false, EmptyChain, 0);
    }
    var verified := VerifyHops(accepts, receipts, policy);
    if !verified {
      return ChainVerdict(false, ReceiptInvalid, n);
    }
    var ok, payloads, receiptIds := DecodeHops(decode, digest, receipts);
    if !ok {
      return ChainVerdict(false, ReceiptInvalid, n);
    }
    assert payloads == ClaimsOf(decode, receipts) && receiptIds == IdsOf(decode, digest, receipts);
    var reason := CheckRawPhases(payloads, receiptIds);
    return ChainVerdict(reason == ChainOk, reason, n);
  }

  // ---- Raw claims of a verified payload ----

  /** The raw claims say what the parsed payload says. */
  ghost predicate RawOf(m: RawClaims, p: Payload) {
    forall k :: match Get(p, k) case None => k !in m case Some(v) => k in m && Valid(v) && m[k] == Stringify(v)
  }

  lemma {:induction false} RawMapOf(ms: seq<Member>)
    requires ValidMembers(ms)
    ensures RawOf(RawMap(JcsRoundTrip.EntriesOf(ms)), ms)
  {
    if ms != [] {
      var front, last := ms[..|ms| - 1], ms[|ms| - 1];
      assert JcsRoundTrip.EntriesOf(ms)[..|ms| - 1] == JcsRoundTrip.EntriesOf(front);
      RawMapOf(front);
      RawMapStep(RawMap(JcsRoundTrip.EntriesOf(front)), front, last);
      assert ms == front + [last];
    }
  }

  lemma RawMapStep(m: RawClaims, front: seq<Member>, last: Member)
    requires RawOf(m, front) && UniqueKeys(front + [last]) && Valid(last.val)
    ensures RawOf(m[last.key := Stringify(last.val)], front + [last])
  {
    var ms := front + [last];
    PutFresh(front, last);
    forall k ensures Get(ms, k) == if k == last.key then Some(last.val) else Get(front, k) {
      PutGet(front, last.key, last.val, k);
    }
  }

  lemma RawClaimReads(m: RawClaims, p: Payload, k: Str)
    requires RawOf(m, p)
    ensures ClaimIsNull(m, k) <==> IsNullish(Get(p, k))
    ensures StringClaim(m, k) == match Get(p, k) case Some(JStr(s)) => s case _ => []
  {
    match Get(p, k)
    case None =>
    case Some(v) =>
      JcsRoundTrip.ValueRoundTrip(v, []);
      JcsRoundTrip.ValueRoundTrip(JNull, []);
      assert Stringify(v) + [] == Stringify(v) && NULL + [] == NULL;
  }

  // ---- Agreement with the TypeScript verifier ----

  ghost predicate RawOfAll(cs: seq<RawClaims>, ps: seq<Payload>) {
    |cs| == |ps| && forall i: nat | i < |cs| :: RawAt(cs, ps, i)
  }

  ghost predicate RawAt(cs: seq<RawClaims>, ps: seq<Payload>, i: nat)
    requires i < |cs| == |ps|
  {
    RawOf(cs[i], ps[i])
  }

  /** A claimed parent performer that Go compares: a non-empty string. */
  predicate IsFirm(v: Option<JSON>) {
    v.Some? && v.value.JStr? && v.value.s != []
  }

  /** Go's comparison holds: a non-empty claimed string is the parent's performer. */
  predicate FirmAt(ps: seq<Payload>, i: nat)
    requires i + 1 < |ps|
  {
    var claimed := Get(ps[i], PARENT_PERFORMER_ID);
    IsFirm(claimed) ==> claimed == Get(ps[i + 1], PERFORMER_ID)
  }

  /** A claim that TypeScript rejects and Go skips: neither null nor a non-empty string. */
  predicate LooseAt(ps: seq<Payload>, i: nat)
    requires i + 1 < |ps|
  {
    var claimed := Get(ps[i], PARENT_PERFORMER_ID);
    !IsNullish(claimed) && !IsFirm(claimed) && !StrictEqual(claimed, Get(ps[i + 1], PERFORMER_ID))
  }

  /** The lists on which the two verifiers part: all links hold, Go's comparisons hold, a claim is loose. */
  ghost predicate Parts(ps: seq<Payload>, ids: seq<Str>)
    requires |ids| == |ps|
  {
    && ParentsPlaced(ps) && Linked(ps, ids)
    && (forall i: nat | i + 1 < |ps| :: FirmAt(ps, i))
    && (exists i: nat :: i + 1 < |ps| && LooseAt(ps, i))
  }

  lemma RawPhaseAt(cs: seq<RawClaims>, ps: seq<Payload>, ids: seq<Str>, i: nat)
    requires RawOfAll(cs, ps) && |ids| == |ps| && i < |ps|
    requires forall j | 0 <= j < |ids| :: ids[j] != []
    ensures RawPlacedAt(cs, i) <==> PlacedAt(ps, i)
    ensures i + 1 < |ps| ==> (RawLinkAt(cs, ids, i) <==> LinkAt(ps, ids, i))
    ensures i + 1 < |ps| ==> (RawIdentityAt(cs, i) <==> FirmAt(ps, i))
    ensures i + 1 < |ps| ==> (IdentityAt(ps, i) <==> FirmAt(ps, i) && !LooseAt(ps, i))
  {
    assert RawAt(cs, ps, i);
    RawClaimReads(cs[i], ps[i], PARENT_RECEIPT_HASH);
    if i + 1 < |ps| {
      assert RawAt(cs, ps, i + 1);
      RawClaimReads(cs[i], ps[i], PARENT_PERFORMER_ID);
      RawClaimReads(cs[i + 1], ps[i + 1], PERFORMER_ID);
    }
  }

  /** The two sets of phases give the same reason exactly when the list is not one of those. */
  lemma PhasesAgree(cs: seq<RawClaims>, ps: seq<Payload>, ids: seq<Str>)
    requires RawOfAll(cs, ps) && |ids| == |ps|
    requires forall j | 0 <= j < |ids| :: ids[j] != []
    ensures RawReason(cs, ids) == PhaseReason(ps, ids) <==> !Parts(ps, ids)
  {
    forall i: nat | i < |ps| ensures RawPlacedAt(cs, i) <==> PlacedAt(ps, i) {
      RawPhaseAt(cs, ps, ids, i);
    }
    forall i: nat | i + 1 < |ps| ensures RawLinkAt(cs, ids, i) <==> LinkAt(ps, ids, i) {
      RawPhaseAt(cs, ps, ids, i);
    }
    forall i: nat | i + 1 < |ps|
      ensures RawIdentityAt(cs, i) <==> FirmAt(ps, i)
      ensures IdentityAt(ps, i) <==> FirmAt(ps, i) && !LooseAt(ps, i)
    {
      RawPhaseAt(cs, ps, ids, i);
    }
  }

  // ---- Go's base64 ----

  /** Line breaks do not count; without them, the URL alphabet and a possible length are all it asks. */
  lemma GoUrlDecodeExact(a: Str, b: Str)
    ensures GoUrlDecode(a + [CR] + b) == GoUrlDecode(a + [LF] + b) == GoUrlDecode(a + b)
    ensures CR !in a && LF !in a ==>
              GoUrlDecode(a) == if (forall i | 0 <= i < |a| :: Base64.IsUrlChar(a[i])) && |a| % 4 != 1
                                then Some(Base64.LenientDecode(a)) else None
  {
    BreaksDropped(a, CR, b);
    BreaksDropped(a, LF, b);
    if CR !in a && LF !in a {
      NoBreaksDropped(a);
      Base64.UrlTextIsAlphabet(a);
    }
  }

  lemma {:induction false} BreaksDropped(a: Str, x: Unit, b: Str)
    requires x == CR || x == LF
    ensures DropLineBreaks(a + [x] + b) == DropLineBreaks(a + b)
  {
    if a == [] {
      assert a + [x] + b == [x] + b && ([x] + b)[1..] == b && a + b == b;
    } else {
      BreaksDropped(a[1..], x, b);
      assert (a + [x] + b)[1..] == a[1..] + [x] + b && (a + b)[1..] == a[1..] + b;
    }
  }

  lemma {:induction false} NoBreaksDropped(s: Str)
    requires CR !in s && LF !in s
    ensures DropLineBreaks(s) == s
  {
    if s != [] {
      NoBreaksDropped(s[1..]);
      assert s == [s[0]] + s[1..];
    }
  }
}
