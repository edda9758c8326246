/** When the Go and TypeScript chain verifiers give the same verdict on signed receipts. */
module GoAgreement {
  import opened Text
  import opened Json
  import opened JsonParse
  import opened Jcs
  import opened JcsOctets
  import opened Verifier
  import opened Lineage
  import opened Chain
  import opened GoChain
  import Base64
  import ChainGuarantees
  import JcsCanon
  import JcsRoundTrip
  import Signer
  import Utf8

  /** Go's decoder accepts the payload segment: its length can be that of unpadded base64. */
  predicate GoReads(jws: Str) {
    var segs := Split(jws, DOT);
    |segs| == 3 && GoUrlDecode(segs[1]).Some?
  }

  /** On this list Go's single-receipt verifier answers as the TypeScript one, and reads what it accepts. */
  ghost predicate SameHops(goAccepts: HopVerifier, tsAccepts: HopVerifier, receipts: seq<Str>, policy: Policy) {
    forall i: nat | i < |receipts| :: SameAt(goAccepts, tsAccepts, receipts, policy, i)
  }

  predicate SameAt(goAccepts: HopVerifier, tsAccepts: HopVerifier, receipts: seq<Str>, policy: Policy, i: nat)
    requires i < |receipts|
  {
    && AcceptedAt(goAccepts, receipts, policy, i) == AcceptedAt(tsAccepts, receipts, policy, i)
    && (AcceptedAt(goAccepts, receipts, policy, i) ==> GoReads(receipts[i]))
  }

  lemma {:induction false} UrlTextHasNoBreaks(s: Str)
    requires Base64.IsUrlText(s)
    ensures DropLineBreaks(s) == s
  {
    if s != [] {
      UrlTextHasNoBreaks(s[1..]);
      assert s == [s[0]] + s[1..];
      assert Base64.Value(s[0]).Some?;
    }
  }

  lemma EncodedLength(n: nat)
    ensures (4 * n + 2) / 3 % 4 != 1
  {
    var q, r := n / 3, n % 3;
    assert 4 * n + 2 == 3 * (4 * q) + (4 * r + 2);
    assert (4 * n + 2) / 3 == 4 * q + (4 * r + 2) / 3;
  }

  lemma GoReadsEncoded(b: Bytes)
    ensures GoUrlDecode(Base64.Encode(Base64.Url, b)) == Some(b)
  {
    Base64.DecodeEncode(Base64.Url, b);
    EncodedLength(|b|);
    UrlTextHasNoBreaks(Base64.Encode(Base64.Url, b));
  }

  /** A verified payload prints as it was transmitted. */
  lemma VerifiedText(p: Payload)
    requires ValidMembers(p) && DecodeObject(JcsBytes(JObj(p))) == Some(p)
    ensures Utf8.ToText(JcsBytes(JObj(p))) == Stringify(JObj(p))
  {
    JcsBytesReparse(p);
    JcsBytesDecode(JObj(p));
    JcsCanon.JcsIsStringify(JObj(p));
    assert Canon(JObj(p)) == JObj(JcsCanon.CanonMembers(p));
  }

  /** Go decodes a verified hop to the same bytes, and to raw claims that say what the payload says. */
  lemma VerifiedRawHop(c: Crypto, jws: Str, keys: Registry, policy: Policy)
    requires Verify(c, jws, keys, policy).valid && GoReads(jws)
    ensures DecodePayload(jws).Some?
    ensures DecodePayload(jws).value.bytes == PayloadBytes(jws)
    ensures RawOf(DecodePayload(jws).value.claims, PayloadOf(jws))
  {
    var p := PayloadOf(jws);
    VerifiedHop(c, jws, keys, policy);
    AcceptedIsCanonical(c, jws, keys, policy);
    ReadTokenPayload(jws);
    UrlTextHasNoBreaks(Split(jws, DOT)[1]);
    VerifiedText(p);
    JcsRoundTrip.ParseEntriesRoundTrip(p);
    RawMapOf(p);
  }

  lemma IdsNotEmpty(c: Crypto, receipts: seq<Str>)
    ensures forall j | 0 <= j < |receipts| :: PathOf(c, receipts).ids[j] != []
  {
  }

  lemma VerifiedRawPath(c: Crypto, receipts: seq<Str>, keys: Registry, policy: Policy)
    requires AllAccepted(Accepts(c, keys), receipts, policy)
    requires forall i: nat | i < |receipts| :: GoReads(receipts[i])
    ensures forall i: nat | i < |receipts| :: DecodesAt(DecodePayload, receipts, i)
    ensures RawOfAll(ClaimsOf(DecodePayload, receipts), PathOf(c, receipts).payloads)
    ensures IdsOf(DecodePayload, b => Digest(c, b), receipts) == PathOf(c, receipts).ids
  {
    var path := PathOf(c, receipts);
    VerifiedPath(c, receipts, keys, policy);
    forall i: nat | i < |receipts|
      ensures DecodesAt(DecodePayload, receipts, i)
      ensures DecodePayload(receipts[i]).value.bytes == path.bytes[i]
      ensures RawOf(DecodePayload(receipts[i]).value.claims, path.payloads[i])
    {
      assert AcceptedAt(Accepts(c, keys), receipts, policy, i);
      VerifiedRawHop(c, receipts[i], keys, HopPolicy(policy, i));
    }
    var cs := ClaimsOf(DecodePayload, receipts);
    forall i: nat | i < |receipts| ensures RawAt(cs, path.payloads, i) {
      assert cs[i] == DecodePayload(receipts[i]).value.claims;
    }
  }

  /**
   * The two chain verifiers give the same verdict on a list exactly when it is not a fully
   * verified, fully linked list with a claimed parent performer that only Go skips.
   */
  lemma ChainVerdictsAgree(c: Crypto, goAccepts: HopVerifier, receipts: seq<Str>, keys: Registry, policy: Policy)
    requires SameHops(goAccepts, Accepts(c, keys), receipts, policy)
    ensures RawOutcome(goAccepts, DecodePayload, b => Digest(c, b), receipts, policy) == Outcome(c, receipts, keys, policy)
            <==> !(AllAccepted(Accepts(c, keys), receipts, policy)
                   && Parts(PathOf(c, receipts).payloads, PathOf(c, receipts).ids))
  {
    forall i: nat | i < |receipts|
      ensures AcceptedAt(goAccepts, receipts, policy, i) == AcceptedAt(Accepts(c, keys), receipts, policy, i)
      ensures AcceptedAt(goAccepts, receipts, policy, i) ==> GoReads(receipts[i])
    {
      assert SameAt(goAccepts, Accepts(c, keys), receipts, policy, i);
    }
    if |receipts| > 0 && AllAccepted(Accepts(c, keys), receipts, policy) {
      assert forall i: nat | i < |receipts| :: AcceptedAt(goAccepts, receipts, policy, i);
      VerifiedRawPath(c, receipts, keys, policy);
      IdsNotEmpty(c, receipts);
      PhasesAgree(ClaimsOf(DecodePayload, receipts), PathOf(c, receipts).payloads, PathOf(c, receipts).ids);
    }
  }

  /** Nothing parts them when every claimed parent performer is absent, null or a non-empty string. */
  lemma TidyClaimsAgree(c: Crypto, goAccepts: HopVerifier, receipts: seq<Str>, keys: Registry, policy: Policy)
    requires SameHops(goAccepts, Accepts(c, keys), receipts, policy)
    requires forall i | 0 <= i < |receipts| ::
      var claimed := Get(PathOf(c, receipts).payloads[i], PARENT_PERFORMER_ID); IsNullish(claimed) || IsFirm(claimed)
    ensures RawOutcome(goAccepts, DecodePayload, b => Digest(c, b), receipts, policy) == Outcome(c, receipts, keys, policy)
  {
    ChainVerdictsAgree(c, goAccepts, receipts, keys, policy);
    var ps := PathOf(c, receipts).payloads;
    forall i: nat | i + 1 < |ps| ensures !LooseAt(ps, i) {
      var claimed := Get(ps[i], PARENT_PERFORMER_ID);
      assert IsNullish(claimed) || IsFirm(claimed);
    }
  }

  // ---- A list on which they part: the leaf claims the number 7 as its parent's performer ----

  const LOOSE_KID := Ascii("k")

  function LooseRoot(): (root: Payload) {
    [Member(PERFORMER_ID, JStr(Ascii("r")))]
  }

  function LeafOf(parentId: Str): (leaf: Payload) {
    [Member(PERFORMER_ID, JStr(Ascii("l"))),
     Member(PARENT_RECEIPT_HASH, JStr(parentId)),
     Member(PARENT_PERFORMER_ID, JNum(7))]
  }

  function LooseLeaf(c: Crypto): (leaf: Payload) {
    LeafOf(ReceiptId(c, LooseRoot()))
  }

  function LooseChain(c: Crypto, seed: Bytes): (receipts: seq<Str>) {
    [Signer.CompactJws(c, seed, LOOSE_KID, LooseLeaf(c)), Signer.CompactJws(c, seed, LOOSE_KID, LooseRoot())]
  }

  function LooseKeys(jwk: Jwk): (keys: Registry) {
    map[Ascii("l") := map[LOOSE_KID := jwk], Ascii("r") := map[LOOSE_KID := jwk]]
  }

  lemma SignedHop(c: Crypto, seed: Bytes, kid: Str, p: Payload, jwk: Jwk, keys: Registry)
    requires ValidMembers(p) && Signer.Matches(c, seed, jwk) && jwk.alg == EDDSA && jwk.status != Some(Ascii("revoked"))
    requires ResolveKey(keys, Get(p, PERFORMER_ID), Some(JStr(kid))) == Some(jwk)
    ensures var jws := Signer.CompactJws(c, seed, kid, p);
            && Verify(c, jws, keys, EMPTY_POLICY).valid && GoReads(jws)
            && PayloadOf(jws) == JcsCanon.CanonMembers(p)
            && ReceiptId(c, PayloadOf(jws)) == ReceiptId(c, p)
  {
    var jws := Signer.CompactJws(c, seed, kid, p);
    var msg := Signer.MessageOf(kid, p);
    Signer.SignedVerdict(c, seed, kid, p, keys, EMPTY_POLICY);
    assert Signer.KeyAccepts(c, jwk, msg, c.edSign(seed, msg));
    Signer.TokenReadsBack(c, seed, kid, p);
    VerifiedHop(c, jws, keys, EMPTY_POLICY);
    Signer.SegmentsSplit(JcsBytes(JObj(Signer.Header(kid))), JcsBytes(JObj(p)), c.edSign(seed, msg));
    GoReadsEncoded(JcsBytes(JObj(p)));
  }

  lemma LoosePayloads(c: Crypto)
    ensures ValidMembers(LooseRoot()) && ValidMembers(LooseLeaf(c))
    ensures LoosePair(JcsCanon.CanonMembers(LooseLeaf(c)), JcsCanon.CanonMembers(LooseRoot()), ReceiptId(c, LooseRoot()))
  {
    LooseRootClaims();
    LooseLeafClaims(c);
  }

  lemma LooseRootClaims()
    ensures ValidMembers(LooseRoot())
    ensures var root := JcsCanon.CanonMembers(LooseRoot()); IsRoot(root) && Get(root, PERFORMER_ID) == Some(JStr(Ascii("r")))
  {
    assert |PERFORMER_ID| == 12 && |PARENT_RECEIPT_HASH| == 19;
    var root := LooseRoot();
    FindUnique(root, 0);
    JcsCanon.CanonGet(root, PARENT_RECEIPT_HASH);
    JcsCanon.CanonGet(root, PERFORMER_ID);
  }

  lemma LooseLeafClaims(c: Crypto)
    ensures ValidMembers(LooseLeaf(c))
    ensures var leaf := JcsCanon.CanonMembers(LooseLeaf(c));
            LinkOk(leaf, ReceiptId(c, LooseRoot())) && Get(leaf, PARENT_PERFORMER_ID) == Some(JNum(7))
  {
    var id := ReceiptId(c, LooseRoot());
    LooseLeafReads(id);
    JcsCanon.CanonGet(LooseLeaf(c), PARENT_RECEIPT_HASH);
    JcsCanon.CanonGet(LooseLeaf(c), PARENT_PERFORMER_ID);
  }

  lemma LooseLeafReads(id: Str)
    ensures var leaf := LeafOf(id);
            && ValidMembers(leaf) && Get(leaf, PERFORMER_ID) == Some(JStr(Ascii("l")))
            && Get(leaf, PARENT_RECEIPT_HASH) == Some(JStr(id)) && Get(leaf, PARENT_PERFORMER_ID) == Some(JNum(7))
  {
    assert |PERFORMER_ID| == 12 && |PARENT_RECEIPT_HASH| == |PARENT_PERFORMER_ID| == 19;
    assert PARENT_RECEIPT_HASH[7] == 0x72 && PARENT_PERFORMER_ID[7] == 0x70;
    var leaf := LeafOf(id);
    assert UniqueKeys(leaf);
    FindUnique(leaf, 0);
    FindUnique(leaf, 1);
    FindUnique(leaf, 2);
  }

  /** The leaf links to the root and claims a number as its performer. */
  ghost predicate LoosePair(leaf: Payload, root: Payload, rootId: Str) {
    && IsRoot(root) && LinkOk(leaf, rootId)
    && Get(leaf, PARENT_PERFORMER_ID) == Some(JNum(7))
    && Get(root, PERFORMER_ID) == Some(JStr(Ascii("r")))
  }

  lemma LoosePhases(leaf: Payload, root: Payload, ids: seq<Str>)
    requires |ids| == 2 && LoosePair(leaf, root, ids[1])
    ensures PlacedAt([leaf, root], 0) && PlacedAt([leaf, root], 1)
    ensures LinkAt([leaf, root], ids, 0) && FirmAt([leaf, root], 0) && !IdentityAt([leaf, root], 0)
    ensures PhaseReason([leaf, root], ids) == ParentIdentityMismatch
  {
    var ps := [leaf, root];
    assert PlacedAt(ps, 0) && PlacedAt(ps, 1) && LinkAt(ps, ids, 0) && FirmAt(ps, 0);
    assert !IdentityAt(ps, 0);
  }

  /** Go's phases find nothing wrong but, perhaps, one id twice. */
  lemma LooseRawPhases(cs: seq<RawClaims>, leaf: Payload, root: Payload, ids: seq<Str>)
    requires RawOfAll(cs, [leaf, root]) && |ids| == 2 && ids[0] != [] && ids[1] != [] && LoosePair(leaf, root, ids[1])
    ensures RawReason(cs, ids) == if ids[0] == ids[1] then Cycle else ChainOk
  {
    LoosePhases(leaf, root, ids);
    RawPhaseAt(cs, [leaf, root], ids, 0);
    RawPhaseAt(cs, [leaf, root], ids, 1);
    TwoRawPhases(cs, ids);
  }

  lemma TwoRawPhases(cs: seq<RawClaims>, ids: seq<Str>)
    requires |cs| == |ids| == 2
    requires RawPlacedAt(cs, 0) && RawPlacedAt(cs, 1) && RawLinkAt(cs, ids, 0) && RawIdentityAt(cs, 0)
    ensures RawReason(cs, ids) == if ids[0] == ids[1] then Cycle else ChainOk
  {
  }

  lemma TwoHops(accepts: HopVerifier, decodes: Str -> bool, receipts: seq<Str>)
    requires |receipts| == 2 && accepts(receipts[0], EMPTY_POLICY) && accepts(receipts[1], EMPTY_POLICY)
    requires decodes(receipts[0]) && decodes(receipts[1])
    ensures AllAccepted(accepts, receipts, EMPTY_POLICY) && forall i: nat | i < |receipts| :: decodes(receipts[i])
  {
  }

  lemma TwoHopPath(c: Crypto, receipts: seq<Str>)
    requires |receipts| == 2
    ensures PathOf(c, receipts).payloads == [PayloadOf(receipts[0]), PayloadOf(receipts[1])]
    ensures PathOf(c, receipts).ids == [ReceiptId(c, PayloadOf(receipts[0])), ReceiptId(c, PayloadOf(receipts[1]))]
  {
  }

  /** What Go answers on a verified and decoded list with such payloads. */
  lemma LooseRawOutcome(accepts: HopVerifier, decode: Str -> Option<RawHop>, digest: Bytes -> Str, receipts: seq<Str>,
                        leaf: Payload, root: Payload)
    requires |receipts| == 2 && AllAccepted(accepts, receipts, EMPTY_POLICY)
    requires forall i: nat | i < |receipts| :: DecodesAt(decode, receipts, i)
    requires RawOfAll(ClaimsOf(decode, receipts), [leaf, root])
    requires var ids := IdsOf(decode, digest, receipts); ids[0] != [] && ids[1] != [] && LoosePair(leaf, root, ids[1])
    ensures var ids := IdsOf(decode, digest, receipts);
            RawOutcome(accepts, decode, digest, receipts, EMPTY_POLICY) ==
            if ids[0] == ids[1] then ChainVerdict(false, Cycle, 2) else ChainVerdict(true, ChainOk, 2)
  {
    LooseRawPhases(ClaimsOf(decode, receipts), leaf, root, IdsOf(decode, digest, receipts));
  }

  /** The payloads differ, so they have one id only if their bytes collide. */
  lemma LooseIds(c: Crypto, a: Str, b: Str, keys: Registry)
    requires Verify(c, a, keys, EMPTY_POLICY).valid && Verify(c, b, keys, EMPTY_POLICY).valid
    requires PayloadOf(a) != PayloadOf(b)
    ensures ReceiptId(c, PayloadOf(a)) == ReceiptId(c, PayloadOf(b)) <==>
            ChainGuarantees.Collision(c, PayloadBytes(a), PayloadBytes(b))
  {
    VerifiedHop(c, a, keys, EMPTY_POLICY);
    VerifiedHop(c, b, keys, EMPTY_POLICY);
    ChainGuarantees.SameDigest(c, PayloadBytes(a), PayloadBytes(b));
  }

  lemma LooseSigned(c: Crypto, seed: Bytes, jwk: Jwk)
    requires Signer.Matches(c, seed, jwk) && jwk.alg == EDDSA && jwk.status != Some(Ascii("revoked"))
    ensures var a, b := LooseChain(c, seed)[0], LooseChain(c, seed)[1];
            && Verify(c, a, LooseKeys(jwk), EMPTY_POLICY).valid && GoReads(a)
            && Verify(c, b, LooseKeys(jwk), EMPTY_POLICY).valid && GoReads(b)
            && LoosePair(PayloadOf(a), PayloadOf(b), ReceiptId(c, PayloadOf(b)))
  {
    LoosePayloads(c);
    LooseKeysResolve(c, jwk);
    SignedHop(c, seed, LOOSE_KID, LooseLeaf(c), jwk, LooseKeys(jwk));
    SignedHop(c, seed, LOOSE_KID, LooseRoot(), jwk, LooseKeys(jwk));
  }

  /** The payloads of such a pair, on a list of two verified hops. */
  lemma LoosePath(c: Crypto, receipts: seq<Str>, keys: Registry)
    requires |receipts| == 2 && AllAccepted(Accepts(c, keys), receipts, EMPTY_POLICY)
    requires LoosePair(PayloadOf(receipts[0]), PayloadOf(receipts[1]), ReceiptId(c, PayloadOf(receipts[1])))
    ensures var path := PathOf(c, receipts);
            && LoosePair(path.payloads[0], path.payloads[1], path.ids[1])
            && (path.ids[0] == path.ids[1] <==> ChainGuarantees.Collision(c, PayloadBytes(receipts[0]), PayloadBytes(receipts[1])))
  {
    assert AcceptedAt(Accepts(c, keys), receipts, EMPTY_POLICY, 0) && AcceptedAt(Accepts(c, keys), receipts, EMPTY_POLICY, 1);
    TwoHopPath(c, receipts);
    LooseIds(c, receipts[0], receipts[1], keys);
  }

  /** TypeScript rejects this signed list for its claimed identity; Go accepts it, unless the two payloads collide. */
  lemma LooseClaimParts(c: Crypto, seed: Bytes, jwk: Jwk)
    requires Signer.Matches(c, seed, jwk) && jwk.alg == EDDSA && jwk.status != Some(Ascii("revoked"))
    ensures Outcome(c, LooseChain(c, seed), LooseKeys(jwk), EMPTY_POLICY) == ChainVerdict(false, ParentIdentityMismatch, 2)
    ensures var receipts := LooseChain(c, seed);
            RawOutcome(Accepts(c, LooseKeys(jwk)), DecodePayload, b => Digest(c, b), receipts, EMPTY_POLICY) ==
            if ChainGuarantees.Collision(c, PayloadBytes(receipts[0]), PayloadBytes(receipts[1])) then ChainVerdict(false, Cycle, 2)
            else ChainVerdict(true, ChainOk, 2)
  {
    var receipts, keys := LooseChain(c, seed), LooseKeys(jwk);
    LooseSigned(c, seed, jwk);
    TwoHops(Accepts(c, keys), GoReads, receipts);
    LoosePath(c, receipts, keys);
    LooseVerdict(c, receipts, keys);
  }

  lemma LooseVerdict(c: Crypto, receipts: seq<Str>, keys: Registry)
    requires |receipts| == 2 && AllAccepted(Accepts(c, keys), receipts, EMPTY_POLICY)
    requires forall i: nat | i < |receipts| :: GoReads(receipts[i])
    requires var path := PathOf(c, receipts); LoosePair(path.payloads[0], path.payloads[1], path.ids[1])
    ensures Outcome(c, receipts, keys, EMPTY_POLICY) == ChainVerdict(false, ParentIdentityMismatch, 2)
    ensures var ids := PathOf(c, receipts).ids;
            RawOutcome(Accepts(c, keys), DecodePayload, b => Digest(c, b), receipts, EMPTY_POLICY) ==
            if ids[0] == ids[1] then ChainVerdict(false, Cycle, 2) else ChainVerdict(true, ChainOk, 2)
  {
    var path := PathOf(c, receipts);
    IdsNotEmpty(c, receipts);
    VerifiedRawPath(c, receipts, keys, EMPTY_POLICY);
    assert path.payloads == [path.payloads[0], path.payloads[1]];
    LoosePhases(path.payloads[0], path.payloads[1], path.ids);
    LooseRawOutcome(Accepts(c, keys), DecodePayload, b => Digest(c, b), receipts, path.payloads[0], path.payloads[1]);
  }

  lemma LooseKeysResolve(c: Crypto, jwk: Jwk)
    ensures ResolveKey(LooseKeys(jwk), Get(LooseLeaf(c), PERFORMER_ID), Some(JStr(LOOSE_KID))) == Some(jwk)
    ensures ResolveKey(LooseKeys(jwk), Get(LooseRoot(), PERFORMER_ID), Some(JStr(LOOSE_KID))) == Some(jwk)
  {
    assert Ascii("l")[0] == 0x6C && Ascii("r")[0] == 0x72;
    FindUnique(LooseRoot(), 0);
    LooseLeafReads(ReceiptId(c, LooseRoot()));
  }
}
