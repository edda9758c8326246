/**
 * The lineage phases of chain verification: what they ask of a leaf-to-root list of payloads
 * and their receipt ids, the loops that check it, and what an accepted list guarantees.
 */
module Lineage {
  import opened Text
  import opened Json
  import opened Verifier

  datatype ChainReason =
    | EmptyChain
    | ReceiptInvalid
    | MalformedChain
    | LinkMismatch
    | ParentIdentityMismatch
    | Cycle
    | ChainOk

  type Payload = seq<Member>

  const PARENT_RECEIPT_HASH := Ascii("parent_receipt_hash")
  const PARENT_PERFORMER_ID := Ascii("parent_performer_id")

  /** `v === null || v === undefined` */
  predicate IsNullish(v: Option<JSON>) {
    v.None? || v.value.JNull?
  }

  /** `v === w`: objects and arrays of different payloads are never identical. */
  predicate StrictEqual(v: Option<JSON>, w: Option<JSON>) {
    v == w && !(v.Some? && (v.value.JObj? || v.value.JArr?))
  }

  // ---- What each phase asks of the whole list ----

  predicate IsRoot(p: Payload) {
    IsNullish(Get(p, PARENT_RECEIPT_HASH))
  }

  predicate PlacedAt(ps: seq<Payload>, i: nat)
    requires i < |ps|
  {
    IsRoot(ps[i]) <==> i == |ps| - 1
  }

  /** Every hop but the last names a parent; the last names none. */
  ghost predicate ParentsPlaced(ps: seq<Payload>) {
    forall i: nat | i < |ps| :: PlacedAt(ps, i)
  }

  predicate LinkOk(child: Payload, parentId: Str) {
    Get(child, PARENT_RECEIPT_HASH) == Some(JStr(parentId))
  }

  predicate LinkAt(ps: seq<Payload>, ids: seq<Str>, i: nat)
    requires |ids| == |ps| && i + 1 < |ps|
  {
    LinkOk(ps[i], ids[i + 1])
  }

  ghost predicate Linked(ps: seq<Payload>, ids: seq<Str>)
    requires |ids| == |ps|
  {
    forall i: nat | i + 1 < |ps| :: LinkAt(ps, ids, i)
  }

  predicate IdentityOk(child: Payload, parent: Payload) {
    || IsNullish(Get(child, PARENT_PERFORMER_ID))
    || StrictEqual(Get(child, PARENT_PERFORMER_ID), Get(parent, PERFORMER_ID))
  }

  predicate IdentityAt(ps: seq<Payload>, i: nat)
    requires i + 1 < |ps|
  {
    IdentityOk(ps[i], ps[i + 1])
  }

  ghost predicate Identified(ps: seq<Payload>) {
    forall i: nat | i + 1 < |ps| :: IdentityAt(ps, i)
  }

  /** The first phase, in order, that the list as a whole does not meet. */
  ghost function PhaseReason(ps: seq<Payload>, ids: seq<Str>): (r: ChainReason)
    requires |ids| == |ps|
  {
    if !ParentsPlaced(ps) then MalformedChain
    else if !Linked(ps, ids) then LinkMismatch
    else if !Identified(ps) then ParentIdentityMismatch
    else if !Distinct(ids) then Cycle
    else ChainOk
  }

  // ---- The loops ----

  /** Step 4 */
  method CheckParents(payloads: seq<Payload>) returns (ok: bool)
    ensures ok <==> ParentsPlaced(payloads)
  {
    var n := |payloads|;
    for i := 0 to n
      invariant forall j: nat | j < i :: PlacedAt(payloads, j)
    {
      var parentHash := Get(payloads[i], PARENT_RECEIPT_HASH);
      var isRoot := i == n - 1;
      if !isRoot {
        if IsNullish(parentHash) {
          assert !PlacedAt(payloads, i);
          return false;
        }
      } else {
        if !IsNullish(parentHash) {
          assert !PlacedAt(payloads, i);
          return false;
        }
      }
    }
    return true;
  }

  /** Step 5 */
  method CheckLinks(payloads: seq<Payload>, receiptIds: seq<Str>) returns (ok: bool)
    requires |receiptIds| == |payloads| > 0
    ensures ok <==> Linked(payloads, receiptIds)
  {
    for i := 0 to |payloads| - 1
      invariant forall j: nat | j < i :: LinkAt(payloads, receiptIds, j)
    {
      if Get(payloads[i], PARENT_RECEIPT_HASH) != Some(JStr(receiptIds[i + 1])) {
        assert !LinkAt(payloads, receiptIds, i);
        return false;
      }
    }
    return true;
  }

  /** Step 6 */
  method CheckIdentities(payloads: seq<Payload>) returns (ok: bool)
    requires |payloads| > 0
    ensures ok <==> Identified(payloads)
  {
    for i := 0 to |payloads| - 1
      invariant forall j: nat | j < i :: IdentityAt(payloads, j)
    {
      var claimed := Get(payloads[i], PARENT_PERFORMER_ID);
      if !IsNullish(claimed) {
        if !StrictEqual(claimed, Get(payloads[i + 1], PERFORMER_ID)) {
          assert !IdentityAt(payloads, i);
          return false;
        }
      }
    }
    return true;
  }

  /** Step 7 */
  method CheckCycle(receiptIds: seq<Str>) returns (ok: bool)
    ensures ok <==> Distinct(receiptIds)
  {
    var seen: set<Str> := {};
    for i := 0 to |receiptIds|
      invariant forall x :: x in seen <==> x in receiptIds[..i]
      invariant Distinct(receiptIds[..i])
    {
      if receiptIds[i] in seen {
        return false;
      }
      seen := seen + {receiptIds[i]};
      assert receiptIds[..i + 1] == receiptIds[..i] + [receiptIds[i]];
    }
    assert receiptIds[..|receiptIds|] == receiptIds;
    return true;
  }

  /** Steps 4 to 8 */
  method CheckPhases(payloads: seq<Payload>, receiptIds: seq<Str>) returns (reason: ChainReason)
    requires |receiptIds| == |payloads| > 0
    ensures reason == PhaseReason(payloads, receiptIds)
  {
    var placed := CheckParents(payloads);
    if !placed {
      return MalformedChain;
    }
    var linked := CheckLinks(payloads, receiptIds);
    if !linked {
      return LinkMismatch;
    }
    var identified := CheckIdentities(payloads);
    if !identified {
      return ParentIdentityMismatch;
    }
    var acyclic := CheckCycle(receiptIds);
    if !acyclic {
      return Cycle;
    }
    return ChainOk;
  }

  // ---- The phases refine a walk from the leaf ----

  /** Accept a hop if it is a root, or points at an accepted list that lacks it. */
  ghost predicate Walk(ps: seq<Payload>, ids: seq<Str>)
    requires |ids| == |ps|
  {
    if |ps| == 0 then false
    else if |ps| == 1 then IsRoot(ps[0])
    else LinkOk(ps[0], ids[1]) && IdentityOk(ps[0], ps[1]) && ids[0] !in ids[1..] && Walk(ps[1..], ids[1..])
  }

  lemma {:induction false} PhasesAreWalk(ps: seq<Payload>, ids: seq<Str>)
    requires |ids| == |ps| > 0
    ensures PhaseReason(ps, ids) == ChainOk <==> Walk(ps, ids)
  {
    if |ps| > 1 {
      PhasesAreWalk(ps[1..], ids[1..]);
      if PhaseReason(ps, ids) == ChainOk {
        PhasesStep(ps, ids);
      }
      if Walk(ps, ids) {
        WalkStep(ps, ids);
      }
    } else {
      assert PlacedAt(ps, 0) <==> IsRoot(ps[0]);
    }
  }

  lemma PhasesStep(ps: seq<Payload>, ids: seq<Str>)
    requires |ids| == |ps| > 1 && PhaseReason(ps, ids) == ChainOk
    ensures PhaseReason(ps[1..], ids[1..]) == ChainOk
    ensures LinkOk(ps[0], ids[1]) && IdentityOk(ps[0], ps[1]) && ids[0] !in ids[1..]
  {
    var qs, js := ps[1..], ids[1..];
    assert LinkAt(ps, ids, 0) && IdentityAt(ps, 0);
    forall i: nat | i < |qs| ensures PlacedAt(qs, i) {
      assert PlacedAt(ps, i + 1);
    }
    forall i: nat | i + 1 < |qs| ensures LinkAt(qs, js, i) && IdentityAt(qs, i) {
      assert LinkAt(ps, ids, i + 1) && IdentityAt(ps, i + 1);
    }
  }

  lemma WalkStep(ps: seq<Payload>, ids: seq<Str>)
    requires |ids| == |ps| > 1 && PhaseReason(ps[1..], ids[1..]) == ChainOk
    requires LinkOk(ps[0], ids[1]) && IdentityOk(ps[0], ps[1]) && ids[0] !in ids[1..]
    ensures PhaseReason(ps, ids) == ChainOk
  {
    var qs, js := ps[1..], ids[1..];
    forall i: nat | i < |ps| ensures PlacedAt(ps, i) {
      if i > 0 {
        assert PlacedAt(qs, i - 1);
      }
    }
    forall i: nat | i + 1 < |ps| ensures LinkAt(ps, ids, i) && IdentityAt(ps, i) {
      if i > 0 {
        assert LinkAt(qs, js, i - 1) && IdentityAt(qs, i - 1);
      }
    }
    forall i, j | 0 <= i < j < |ids| ensures ids[i] != ids[j] {
      assert js[j - 1] in js;
      if i > 0 {
        assert js[i - 1] != js[j - 1];
      }
    }
  }

  /** Dropping hops at the leaf end of an accepted list leaves an accepted list. */
  lemma {:induction false} SuffixWalks(ps: seq<Payload>, ids: seq<Str>, k: nat)
    requires |ids| == |ps| && k < |ps| && Walk(ps, ids)
    ensures Walk(ps[k..], ids[k..])
  {
    if k == 0 {
      assert ps[0..] == ps && ids[0..] == ids;
    } else {
      SuffixWalks(ps[1..], ids[1..], k - 1);
      assert ps[1..][k - 1..] == ps[k..] && ids[1..][k - 1..] == ids[k..];
    }
  }

  lemma SuffixOk(ps: seq<Payload>, ids: seq<Str>, k: nat)
    requires |ids| == |ps| && k < |ps| && PhaseReason(ps, ids) == ChainOk
    ensures PhaseReason(ps[k..], ids[k..]) == ChainOk
  {
    PhasesAreWalk(ps, ids);
    SuffixWalks(ps, ids, k);
    PhasesAreWalk(ps[k..], ids[k..]);
  }

  /** Dropping hops at the root end leaves a list whose last hop names a missing parent. */
  lemma PrefixDangles(ps: seq<Payload>, ids: seq<Str>, k: nat)
    requires |ids| == |ps| && 0 < k < |ps| && PhaseReason(ps, ids) == ChainOk
    ensures PhaseReason(ps[..k], ids[..k]) == MalformedChain
  {
    assert PlacedAt(ps, k - 1);
    assert !PlacedAt(ps[..k], k - 1);
  }

  // ---- What the hashes pin down ----

  /**
   * A list as transmitted: each id is the hash of the hop's bytes, each payload is read back
   * from them.
   */
  datatype Path = Path(bytes: seq<Bytes>, payloads: seq<Payload>, ids: seq<Str>)

  ghost predicate Faithful(id: Bytes -> Str, read: Bytes -> Option<Payload>, p: Path) {
    && |p.bytes| == |p.payloads| == |p.ids|
    && (forall i | 0 <= i < |p.bytes| :: p.ids[i] == id(p.bytes[i]))
    && (forall i | 0 <= i < |p.bytes| :: read(p.bytes[i]) == Some(p.payloads[i]))
  }

  ghost predicate Collide(id: Bytes -> Str, a: Bytes, b: Bytes) {
    a != b && id(a) == id(b)
  }

  /**
   * A repeated id on a well-linked path exhibits two different payloads with that hash:
   * equal payloads name equal parents, so the repetition climbs until a hop that names a
   * parent would equal the root, which names none.
   */
  lemma {:induction false} RepeatCollides(id: Bytes -> Str, read: Bytes -> Option<Payload>, p: Path, i: nat, j: nat)
    returns (x: nat, y: nat)
    requires Faithful(id, read, p) && ParentsPlaced(p.payloads) && Linked(p.payloads, p.ids)
    requires i < j < |p.ids| && p.ids[i] == p.ids[j]
    ensures x < y < |p.ids| && Collide(id, p.bytes[x], p.bytes[y])
    decreases |p.ids| - j
  {
    if p.bytes[i] != p.bytes[j] {
      return i, j;
    }
    assert p.payloads[i] == p.payloads[j];
    assert PlacedAt(p.payloads, i) && PlacedAt(p.payloads, j);
    assert LinkAt(p.payloads, p.ids, i) && LinkAt(p.payloads, p.ids, j);
    x, y := RepeatCollides(id, read, p, i + 1, j + 1);
  }

  /** From hop `i` up, two well-linked paths are the same path. */
  ghost predicate AgreeFrom(p: Path, q: Path, i: nat) {
    |p.bytes| == |q.bytes| && i <= |p.bytes| && p.bytes[i..] == q.bytes[i..]
  }

  /**
   * Two well-linked paths with the same id at hop `i` have the same length and the same
   * bytes from there to the root, or exhibit two different payloads with the same hash.
   */
  lemma {:induction false} SameIdSameLineage(id: Bytes -> Str, read: Bytes -> Option<Payload>, p: Path, q: Path, i: nat)
    returns (x: nat)
    requires Faithful(id, read, p) && ParentsPlaced(p.payloads) && Linked(p.payloads, p.ids)
    requires Faithful(id, read, q) && ParentsPlaced(q.payloads) && Linked(q.payloads, q.ids)
    requires i < |p.ids| && i < |q.ids| && p.ids[i] == q.ids[i]
    ensures AgreeFrom(p, q, i) || (x < |p.ids| && x < |q.ids| && Collide(id, p.bytes[x], q.bytes[x]))
    decreases |p.ids| - i
  {
    x := i;
    if p.bytes[i] == q.bytes[i] {
      assert p.payloads[i] == q.payloads[i];
      assert PlacedAt(p.payloads, i) && PlacedAt(q.payloads, i);
      if i < |p.ids| - 1 {
        assert LinkAt(p.payloads, p.ids, i) && LinkAt(q.payloads, q.ids, i);
        x := SameIdSameLineage(id, read, p, q, i + 1);
        if AgreeFrom(p, q, i + 1) {
          assert p.bytes[i..] == [p.bytes[i]] + p.bytes[i + 1..];
          assert q.bytes[i..] == [q.bytes[i]] + q.bytes[i + 1..];
        }
      }
    }
  }
}
