/** What an accepted chain guarantees, up to a SHA-256 collision that is then exhibited. */
module ChainGuarantees {
  import opened Text
  import opened Json
  import opened JcsOctets
  import opened Verifier
  import opened Lineage
  import opened Chain
  import Multihash

  ghost predicate Accepted(c: Crypto, receipts: seq<Str>, keys: Registry, policy: Policy) {
    Outcome(c, receipts, keys, policy).valid
  }

  /** Two different byte strings with one digest. */
  ghost predicate Collision(c: Crypto, a: Bytes, b: Bytes) {
    a != b && c.sha256(a) == c.sha256(b)
  }

  // ---- The phases refine a hop-by-hop checker ----

  /** The claim is absent or null. */
  predicate NamesNone(p: Payload, claim: Str) {
    match Get(p, claim)
    case None => true
    case Some(v) => v == JNull
  }

  predicate IsOrigin(p: Payload) {
    NamesNone(p, Ascii("parent_receipt_hash"))
  }

  predicate NamesParent(p: Payload, id: Str) {
    Get(p, Ascii("parent_receipt_hash")) == Some(JStr(id))
  }

  predicate NamesNoPerformer(p: Payload) {
    NamesNone(p, Ascii("parent_performer_id"))
  }

  /** The claimed parent performer is the parent's performer: one number, string or boolean. */
  predicate ClaimsPerformer(p: Payload, parent: Payload) {
    match (Get(p, Ascii("parent_performer_id")), Get(parent, Ascii("performer_id")))
    case (Some(claimed), Some(performer)) => claimed == performer && !claimed.JObj? && !claimed.JArr?
    case _ => false
  }

  lemma PhasesSay(p: Payload, parent: Payload, id: Str)
    ensures IsRoot(p) <==> IsOrigin(p)
    ensures LinkOk(p, id) <==> NamesParent(p, id)
    ensures IdentityOk(p, parent) <==> NamesNoPerformer(p) || ClaimsPerformer(p, parent)
  {
  }

  /**
   * The reference checker: a hop verifies under the policy, and either it is a root or what
   * follows is accepted under the empty policy, is its parent by hash and by identity, and
   * does not contain it.
   */
  ghost predicate HopByHop(accepts: HopVerifier, payload: Str -> Payload, id: Str -> Str, receipts: seq<Str>, policy: Policy) {
    |receipts| > 0 && accepts(receipts[0], policy) &&
    var p := payload(receipts[0]);
    if |receipts| == 1 then IsOrigin(p)
    else
      && HopByHop(accepts, payload, id, receipts[1..], EMPTY_POLICY)
      && NamesParent(p, id(receipts[1]))
      && (NamesNoPerformer(p) || ClaimsPerformer(p, payload(receipts[1])))
      && forall i | 1 <= i < |receipts| :: id(receipts[i]) != id(receipts[0])
  }

  ghost predicate Reads(payload: Str -> Payload, id: Str -> Str, receipts: seq<Str>, ps: seq<Payload>, ids: seq<Str>) {
    && |ps| == |ids| == |receipts|
    && forall i | 0 <= i < |receipts| :: ps[i] == payload(receipts[i]) && ids[i] == id(receipts[i])
  }

  lemma {:induction false} HopByHopIsWalk(accepts: HopVerifier, payload: Str -> Payload, id: Str -> Str,
                                          receipts: seq<Str>, policy: Policy, ps: seq<Payload>, ids: seq<Str>)
    requires Reads(payload, id, receipts, ps, ids)
    ensures HopByHop(accepts, payload, id, receipts, policy) <==> AllAccepted(accepts, receipts, policy) && Walk(ps, ids)
    decreases |receipts|
  {
    if |receipts| > 0 {
      AcceptedTail(accepts, receipts, policy);
      PhasesSay(ps[0], if |ps| > 1 then ps[1] else [], if |ids| > 1 then ids[1] else []);
      if |receipts| > 1 {
        var rest := receipts[1..];
        HopByHopIsWalk(accepts, payload, id, rest, EMPTY_POLICY, ps[1..], ids[1..]);
        assert ids[0] !in ids[1..] <==> forall i | 1 <= i < |receipts| :: id(receipts[i]) != id(receipts[0]) by {
          if forall i | 1 <= i < |receipts| :: id(receipts[i]) != id(receipts[0]) {
            assert forall i | 0 <= i < |ids[1..]| :: ids[1..][i] == id(receipts[i + 1]);
          } else {
            var i :| 1 <= i < |receipts| && id(receipts[i]) == id(receipts[0]);
            assert ids[1..][i - 1] == ids[0];
          }
        }
      }
    }
  }

  lemma AcceptedTail(accepts: HopVerifier, receipts: seq<Str>, policy: Policy)
    requires |receipts| > 0
    ensures AllAccepted(accepts, receipts, policy) <==>
            accepts(receipts[0], policy) && AllAccepted(accepts, receipts[1..], EMPTY_POLICY)
  {
    var rest := receipts[1..];
    if AllAccepted(accepts, receipts, policy) {
      assert AcceptedAt(accepts, receipts, policy, 0);
      forall i: nat | i < |rest| ensures AcceptedAt(accepts, rest, EMPTY_POLICY, i) {
        assert AcceptedAt(accepts, receipts, policy, i + 1);
      }
    }
    if accepts(receipts[0], policy) && AllAccepted(accepts, rest, EMPTY_POLICY) {
      forall i: nat | i < |receipts| ensures AcceptedAt(accepts, receipts, policy, i) {
        if i > 0 {
          assert AcceptedAt(accepts, rest, EMPTY_POLICY, i - 1);
        }
      }
    }
  }

  lemma AcceptedIffHopByHop(c: Crypto, receipts: seq<Str>, keys: Registry, policy: Policy)
    ensures Accepted(c, receipts, keys, policy) <==>
            HopByHop(Accepts(c, keys), PayloadOf, jws => ReceiptId(c, PayloadOf(jws)), receipts, policy)
  {
    var path := PathOf(c, receipts);
    PathReads(c, receipts);
    HopByHopIsWalk(Accepts(c, keys), PayloadOf, jws => ReceiptId(c, PayloadOf(jws)), receipts, policy, path.payloads, path.ids);
    if |receipts| > 0 {
      PhasesAreWalk(path.payloads, path.ids);
    }
  }

  lemma PathReads(c: Crypto, receipts: seq<Str>)
    ensures Reads(PayloadOf, jws => ReceiptId(c, PayloadOf(jws)), receipts, PathOf(c, receipts).payloads, PathOf(c, receipts).ids)
  {
  }

  // ---- Suffixes and prefixes ----

  lemma PathSuffix(c: Crypto, receipts: seq<Str>, k: nat)
    requires k <= |receipts|
    ensures var p, q := PathOf(c, receipts), PathOf(c, receipts[k..]);
            q.payloads == p.payloads[k..] && q.ids == p.ids[k..]
  {
  }

  lemma PathPrefix(c: Crypto, receipts: seq<Str>, k: nat)
    requires k <= |receipts|
    ensures var p, q := PathOf(c, receipts), PathOf(c, receipts[..k]);
            q.payloads == p.payloads[..k] && q.ids == p.ids[..k]
  {
  }

  lemma AcceptedSlices(accepts: HopVerifier, receipts: seq<Str>, policy: Policy, k: nat)
    requires AllAccepted(accepts, receipts, policy) && 0 < k < |receipts|
    ensures AllAccepted(accepts, receipts[k..], EMPTY_POLICY)
    ensures AllAccepted(accepts, receipts[..k], policy)
  {
    var rest := receipts[k..];
    forall i: nat | i < |rest| ensures AcceptedAt(accepts, rest, EMPTY_POLICY, i) {
      assert AcceptedAt(accepts, receipts, policy, k + i);
    }
    forall i: nat | i < k ensures AcceptedAt(accepts, receipts[..k], policy, i) {
      assert AcceptedAt(accepts, receipts, policy, i);
    }
  }

  /** Every non-empty suffix of an accepted chain is accepted, under the empty policy. */
  lemma SuffixAccepted(c: Crypto, receipts: seq<Str>, keys: Registry, policy: Policy, k: nat)
    requires Accepted(c, receipts, keys, policy) && 0 < k < |receipts|
    ensures Accepted(c, receipts[k..], keys, EMPTY_POLICY)
  {
    var path := PathOf(c, receipts);
    AcceptedSlices(Accepts(c, keys), receipts, policy, k);
    SuffixOk(path.payloads, path.ids, k);
    PathSuffix(c, receipts, k);
  }

  /** No proper prefix is: its last hop names a parent that is not there. */
  lemma PrefixMalformed(c: Crypto, receipts: seq<Str>, keys: Registry, policy: Policy, k: nat)
    requires Accepted(c, receipts, keys, policy) && 0 < k < |receipts|
    ensures Outcome(c, receipts[..k], keys, policy) == ChainVerdict(false, MalformedChain, k)
  {
    var path := PathOf(c, receipts);
    AcceptedSlices(Accepts(c, keys), receipts, policy, k);
    PrefixDangles(path.payloads, path.ids, k);
    PathPrefix(c, receipts, k);
  }

  // ---- Hash guarantees ----

  lemma SameDigest(c: Crypto, a: Bytes, b: Bytes)
    ensures Digest(c, a) == Digest(c, b) <==> c.sha256(a) == c.sha256(b)
  {
    Multihash.HashStringInjective(c.sha256(a), c.sha256(b));
  }

  /** The verdict `cycle` exhibits two hops whose different payload bytes have one digest. */
  lemma CycleNeedsCollision(c: Crypto, receipts: seq<Str>, keys: Registry, policy: Policy) returns (x: nat, y: nat)
    requires Outcome(c, receipts, keys, policy).reason == Cycle
    ensures x < y < |receipts| && Collision(c, PayloadBytes(receipts[x]), PayloadBytes(receipts[y]))
  {
    var path := PathOf(c, receipts);
    VerifiedPath(c, receipts, keys, policy);
    var i: nat, j: nat :| i < j < |path.ids| && path.ids[i] == path.ids[j];
    x, y := RepeatCollides(b => Digest(c, b), DecodeObject, path, i, j);
    SameDigest(c, path.bytes[x], path.bytes[y]);
  }

  /**
   * The leaf's id fixes the whole lineage: two accepted chains whose leaves have one id have
   * the same length and the same payload bytes at every hop, or exhibit a collision. The
   * registries and policies they were accepted under need not agree.
   */
  lemma LeafFixesLineage(c: Crypto, a: seq<Str>, b: seq<Str>, keysA: Registry, keysB: Registry, policyA: Policy, policyB: Policy)
    returns (x: nat)
    requires Accepted(c, a, keysA, policyA) && Accepted(c, b, keysB, policyB)
    requires PathOf(c, a).ids[0] == PathOf(c, b).ids[0]
    ensures || PathOf(c, a).bytes == PathOf(c, b).bytes
            || (x < |a| && x < |b| && Collision(c, PayloadBytes(a[x]), PayloadBytes(b[x])))
  {
    var p, q := PathOf(c, a), PathOf(c, b);
    VerifiedPath(c, a, keysA, policyA);
    VerifiedPath(c, b, keysB, policyB);
    x := SameIdSameLineage(h => Digest(c, h), DecodeObject, p, q, 0);
    if AgreeFrom(p, q, 0) {
      assert p.bytes[0..] == p.bytes && q.bytes[0..] == q.bytes;
    } else {
      SameDigest(c, p.bytes[x], q.bytes[x]);
    }
  }

  /** Putting another payload anywhere above the leaf gets the chain rejected, or exhibits a collision. */
  lemma ReplacedAncestor(c: Crypto, receipts: seq<Str>, keys: Registry, policy: Policy, k: nat, other: Str)
    returns (x: nat)
    requires Accepted(c, receipts, keys, policy) && 0 < k < |receipts|
    requires PayloadBytes(other) != PayloadBytes(receipts[k])
    ensures var changed := receipts[k := other];
            || !Accepted(c, changed, keys, policy)
            || (x < |receipts| && Collision(c, PayloadBytes(receipts[x]), PayloadBytes(changed[x])))
  {
    x := 0;
    var changed := receipts[k := other];
    if Accepted(c, changed, keys, policy) {
      assert receipts[0] == changed[0];
      x := LeafFixesLineage(c, receipts, changed, keys, keys, policy, policy);
      assert PathOf(c, receipts).bytes[k] != PathOf(c, changed).bytes[k];
    }
  }
}
