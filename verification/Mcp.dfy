/** Co-signing an MCP tool result in place: the receipt rides in the result it commits to. */
module Mcp {
  import opened Text
  import opened Json
  import opened Jcs
  import opened JcsOctets
  import opened Verifier
  import opened Signer
  import Base64
  import ChainGuarantees
  import JcsCanon

  const META := Ascii("_meta")
  const RECEIPT_META_KEY := Ascii("dev.veritrail/receipt")
  const OUTPUTS_HASH := Ascii("outputs_hash")
  const MCP := Ascii("mcp")

  datatype TestSigner = TestSigner(seed: Bytes, publicJwk: Jwk, performerId: Str, kid: Str)

  /** `registryFromSigner` */
  function RegistryFromSigner(s: TestSigner): (keys: Registry) {
    map[s.performerId := map[s.kid := s.publicJwk]]
  }

  /** `hashOf` */
  function HashOf(c: Crypto, v: JSON): (h: Str) {
    Digest(c, JcsBytes(v))
  }

  /** `const { [k]: _, ...rest } = ms` */
  function Without(ms: seq<Member>, k: Str): (rest: seq<Member>) {
    if ms == [] then []
    else if ms[0].key == k then Without(ms[1..], k)
    else [ms[0]] + Without(ms[1..], k)
  }

  /** `stripMeta` */
  function StripMeta(result: seq<Member>): (rest: seq<Member>) {
    Without(result, META)
  }

  /** `computeOutputsHash` */
  function ComputeOutputsHash(c: Crypto, result: seq<Member>): (h: Str) {
    HashOf(c, JObj(StripMeta(result)))
  }

  datatype CallInfo = CallInfo(toolName: Str, params: JSON, ts: Option<Str>, wallMs: Option<Str>, nonce: Bytes)

  function OrElse(v: Option<Str>, d: Str): (s: Str) {
    match v
    case None => d
    case Some(s) => s
  }

  function Cost(call: CallInfo): (cost: JSON) {
    JObj(SetAll([
      Member(Ascii("tokens"), JStr(Ascii("0"))),
      Member(Ascii("usd_micros"), JStr(Ascii("0"))),
      Member(Ascii("wall_ms"), JStr(OrElse(call.wallMs, Ascii("0")))),
      Member(Ascii("rail_ref"), JNull)]))
  }

  function MethodOf(call: CallInfo): (m: Str) {
    Ascii("mcp:") + call.toolName
  }

  const PAYLOAD_KEYS: seq<Str> := [
    VERSION_KEY, BINDING, Ascii("action_ref"), PERFORMER_ID, Ascii("requester_id"),
    Ascii("parent_performer_id"), Ascii("parent_receipt_hash"), METHOD, Ascii("inputs_hash"), OUTPUTS_HASH,
    Ascii("cost"), Ascii("status"), Ascii("reason"), Ascii("log_policy"), Ascii("ts"), Ascii("nonce")]

  function PayloadValues(performer: Str, rpcMethod: Str, inputs: Str, outputs: Str, cost: JSON, ts: Str, nonce: Str): (vals: seq<JSON>)
    ensures |vals| == |PAYLOAD_KEYS|
  {
    [JStr(VERSION), JStr(MCP), JNull, JStr(performer), JNull,
     JNull, JNull, JStr(rpcMethod), JStr(inputs), JStr(outputs),
     cost, JStr(Ascii("OK")), JNull, JStr(Ascii("best_effort")), JStr(ts), JStr(nonce)]
  }

  /** `buildReceiptPayload`, the random nonce given. */
  function BuildReceiptPayload(c: Crypto, signer: TestSigner, call: CallInfo, result: seq<Member>): (payload: seq<Member>) {
    SetAll(Record(PAYLOAD_KEYS, PayloadValues(
      signer.performerId, MethodOf(call), HashOf(c, call.params), ComputeOutputsHash(c, result),
      Cost(call), OrElse(call.ts, Ascii("2026-05-28T00:00:00Z")), [0x75] + Base64.Encode(Base64.Url, call.nonce))))
  }

  /** `signReceipt` */
  function SignReceipt(c: Crypto, payload: seq<Member>, signer: TestSigner): (jws: Str) {
    CompactJws(c, signer.seed, signer.kid, payload)
  }

  /** The `_meta` of a result, `{}` when absent or null. */
  function MetaOf(result: seq<Member>): (meta: seq<Member>) {
    match Get(result, META)
    case Some(JObj(meta)) => meta
    case _ => []
  }

  /** `_meta` is what its type says: absent, null or an object. */
  predicate MetaTyped(result: seq<Member>) {
    match Get(result, META)
    case None => true
    case Some(v) => v.JNull? || v.JObj?
  }

  /** The result with a receipt attached. */
  function Attach(result: seq<Member>, jws: Str): (r: seq<Member>) {
    Put(result, META, JObj(Put(MetaOf(result), RECEIPT_META_KEY, JStr(jws))))
  }

  function CoSigned(c: Crypto, signer: TestSigner, call: CallInfo, result: seq<Member>): (jws: Str) {
    SignReceipt(c, BuildReceiptPayload(c, signer, call, result), signer)
  }

  // ---- The payload ----

  lemma CostValid(call: CallInfo)
    ensures Valid(Cost(call))
  {
    SetAllValid([Member(Ascii("tokens"), JStr(Ascii("0"))), Member(Ascii("usd_micros"), JStr(Ascii("0"))),
                  Member(Ascii("wall_ms"), JStr(OrElse(call.wallMs, Ascii("0")))), Member(Ascii("rail_ref"), JNull)]);
  }

  /** A number that tells the names of the payload apart: length, first and last unit. */
  function Code(k: Str): (n: int) {
    if k == [] then 0 else |k| * 1000 + k[0] + k[|k| - 1]
  }

  const CODES: seq<int> := [1236, 7201, 10199, 12212, 12214, 19212, 19216, 6209, 11209, 12215, 4215, 6230, 6224, 10229, 2231, 5211]

  lemma PayloadCodes()
    ensures |PAYLOAD_KEYS| == |CODES| == 16
    ensures forall i | 0 <= i < 16 :: Code(PAYLOAD_KEYS[i]) == CODES[i]
  {
    FirstCodes();
    LastCodes();
  }

  lemma FirstCodes()
    ensures forall i | 0 <= i < 8 :: Code(PAYLOAD_KEYS[i]) == CODES[i]
  {
    assert |VERSION_KEY| == 1 && |BINDING| == 7 && |PERFORMER_ID| == 12 && |METHOD| == 6;
    assert VERSION_KEY[0] == 0x76 && BINDING[0] == 0x62 && BINDING[6] == 0x67;
    assert PERFORMER_ID[0] == 0x70 && PERFORMER_ID[11] == 0x64 && METHOD[0] == 0x6D && METHOD[5] == 0x64;
  }

  lemma LastCodes()
    ensures forall i | 8 <= i < 16 :: Code(PAYLOAD_KEYS[i]) == CODES[i]
  {
    assert |OUTPUTS_HASH| == 12 && OUTPUTS_HASH[0] == 0x6F && OUTPUTS_HASH[11] == 0x68;
  }

  lemma PayloadKeysDistinct()
    ensures Distinct(PAYLOAD_KEYS)
  {
    PayloadCodes();
    CodesDistinct();
    forall i, j | 0 <= i < j < 16 ensures PAYLOAD_KEYS[i] != PAYLOAD_KEYS[j] {
      assert CODES[i] != CODES[j];
    }
  }

  lemma CodesDistinct()
    ensures forall i, j | 0 <= i < j < 16 :: CODES[i] != CODES[j]
  {
  }

  ghost predicate AllValid(vals: seq<JSON>) {
    forall j | 0 <= j < |vals| :: Valid(vals[j])
  }

  lemma RecordKey(keys: seq<Str>, vals: seq<JSON>, k: Str)
    requires |keys| == |vals| && HasKey(Record(keys, vals), k)
    ensures k in keys
  {
    assert Record(keys, vals)[Find(Record(keys, vals), k)].key in keys;
  }

  lemma RecordClaims(keys: seq<Str>, vals: seq<JSON>)
    requires |keys| == |vals| && Distinct(keys) && AllValid(vals)
    ensures var p := SetAll(Record(keys, vals));
            && ValidMembers(p)
            && (forall i | 0 <= i < |keys| :: Get(p, keys[i]) == Some(vals[i]))
            && (forall k | k !in keys :: Get(p, k) == None)
  {
    var props := Record(keys, vals);
    assert UniqueKeys(props);
    SetAllDistinct(props);
    SetAllValid(props);
    forall i | 0 <= i < |keys| ensures Get(props, keys[i]) == Some(vals[i]) {
      FindUnique(props, i);
    }
    forall k | k !in keys ensures Get(props, k) == None {
      assert !HasKey(props, k) by {
        if HasKey(props, k) {
          RecordKey(keys, vals, k);
        }
      }
    }
  }

  /** The values of the payload, as the names in the source go. */
  function ValuesOf(c: Crypto, signer: TestSigner, call: CallInfo, result: seq<Member>): (vals: seq<JSON>)
    ensures |vals| == |PAYLOAD_KEYS|
  {
    PayloadValues(
      signer.performerId, MethodOf(call), HashOf(c, call.params), ComputeOutputsHash(c, result),
      Cost(call), OrElse(call.ts, Ascii("2026-05-28T00:00:00Z")), [0x75] + Base64.Encode(Base64.Url, call.nonce))
  }

  lemma PayloadHolds(c: Crypto, signer: TestSigner, call: CallInfo, result: seq<Member>)
    ensures var p, vals := BuildReceiptPayload(c, signer, call, result), ValuesOf(c, signer, call, result);
            && ValidMembers(p)
            && (forall i | 0 <= i < |PAYLOAD_KEYS| :: Get(p, PAYLOAD_KEYS[i]) == Some(vals[i]))
            && (forall k | k !in PAYLOAD_KEYS :: Get(p, k) == None)
  {
    CostValid(call);
    PayloadKeysDistinct();
    RecordClaims(PAYLOAD_KEYS, ValuesOf(c, signer, call, result));
  }

  /** A claim that is a text. */
  predicate Claims(p: seq<Member>, name: Str, text: Str) {
    Get(p, name) == Some(JStr(text))
  }

  predicate ClaimsNothing(p: seq<Member>, name: Str) {
    Get(p, name) == Some(JNull)
  }

  /** Who performed what, under which protocol version. */
  predicate SaysWho(p: seq<Member>, performer: Str, toolName: Str) {
    && Claims(p, Ascii("v"), Ascii("veritrail/0.1"))
    && Claims(p, Ascii("binding"), Ascii("mcp"))
    && Claims(p, Ascii("performer_id"), performer)
    && Claims(p, Ascii("method"), Ascii("mcp:") + toolName)
  }

  /** No action reference, requester, parent or reason is claimed. */
  predicate SaysAlone(p: seq<Member>) {
    && ClaimsNothing(p, Ascii("action_ref"))
    && ClaimsNothing(p, Ascii("requester_id"))
    && ClaimsNothing(p, Ascii("parent_performer_id"))
    && ClaimsNothing(p, Ascii("parent_receipt_hash"))
    && ClaimsNothing(p, Ascii("reason"))
  }

  /** The hashes of what went in and what came out, and the cost. */
  predicate SaysWhat(p: seq<Member>, inputs: Str, outputs: Str, cost: JSON) {
    && Claims(p, Ascii("inputs_hash"), inputs)
    && Claims(p, Ascii("outputs_hash"), outputs)
    && Get(p, Ascii("cost")) == Some(cost)
  }

  predicate SaysHow(p: seq<Member>, ts: Option<Str>, nonce: Bytes) {
    && Claims(p, Ascii("status"), Ascii("OK"))
    && Claims(p, Ascii("log_policy"), Ascii("best_effort"))
    && Claims(p, Ascii("ts"), if ts.Some? then ts.value else Ascii("2026-05-28T00:00:00Z"))
    && Claims(p, Ascii("nonce"), Ascii("u") + Base64.Encode(Base64.Url, nonce))
  }

  /** What the receipt of a call says, name by name. */
  predicate SaysCall(c: Crypto, signer: TestSigner, call: CallInfo, result: seq<Member>, p: seq<Member>) {
    && SaysWho(p, signer.performerId, call.toolName)
    && SaysAlone(p)
    && SaysWhat(p, Digest(c, JcsBytes(call.params)), Digest(c, JcsBytes(JObj(StripMeta(result)))), Cost(call))
    && SaysHow(p, call.ts, call.nonce)
  }

  lemma PayloadSaysCall(c: Crypto, signer: TestSigner, call: CallInfo, result: seq<Member>)
    ensures SaysCall(c, signer, call, result, BuildReceiptPayload(c, signer, call, result))
  {
    var p, vals, ks := BuildReceiptPayload(c, signer, call, result), ValuesOf(c, signer, call, result), PAYLOAD_KEYS;
    PayloadHolds(c, signer, call, result);
    assert Ascii("u") == [0x75];
    assert Get(p, ks[0]) == Some(vals[0]) && Get(p, ks[1]) == Some(vals[1]) && Get(p, ks[2]) == Some(vals[2]);
    assert Get(p, ks[3]) == Some(vals[3]) && Get(p, ks[4]) == Some(vals[4]) && Get(p, ks[5]) == Some(vals[5]);
    assert Get(p, ks[6]) == Some(vals[6]) && Get(p, ks[7]) == Some(vals[7]) && Get(p, ks[8]) == Some(vals[8]);
    assert Get(p, ks[9]) == Some(vals[9]) && Get(p, ks[10]) == Some(vals[10]) && Get(p, ks[11]) == Some(vals[11]);
    assert Get(p, ks[12]) == Some(vals[12]) && Get(p, ks[13]) == Some(vals[13]) && Get(p, ks[14]) == Some(vals[14]);
    assert Get(p, ks[15]) == Some(vals[15]);
  }

  lemma FourMembers(keys: seq<Str>, vals: seq<JSON>)
    requires |keys| == |vals| == 4 && Distinct(keys)
    ensures var p := SetAll([Member(keys[0], vals[0]), Member(keys[1], vals[1]), Member(keys[2], vals[2]), Member(keys[3], vals[3])]);
            |p| == 4 && forall i | 0 <= i < 4 :: Get(p, keys[i]) == Some(vals[i])
  {
    var props := [Member(keys[0], vals[0]), Member(keys[1], vals[1]), Member(keys[2], vals[2]), Member(keys[3], vals[3])];
    assert UniqueKeys(props);
    SetAllDistinct(props);
    forall i | 0 <= i < 4 ensures Get(props, keys[i]) == Some(vals[i]) {
      FindUnique(props, i);
    }
  }

  lemma CostKeys() returns (keys: seq<Str>)
    ensures keys == [Ascii("tokens"), Ascii("usd_micros"), Ascii("wall_ms"), Ascii("rail_ref")] && Distinct(keys)
  {
    keys := [Ascii("tokens"), Ascii("usd_micros"), Ascii("wall_ms"), Ascii("rail_ref")];
    assert |keys[0]| == 6 && |keys[1]| == 10 && |keys[2]| == 7 && |keys[3]| == 8;
  }

  /** The cost block: no tokens, no money, the measured time, no rail. */
  lemma CostSays(call: CallInfo)
    ensures Cost(call).JObj? && var p := Cost(call).members;
            && Claims(p, Ascii("tokens"), Ascii("0")) && Claims(p, Ascii("usd_micros"), Ascii("0"))
            && Claims(p, Ascii("wall_ms"), if call.wallMs.Some? then call.wallMs.value else Ascii("0"))
            && ClaimsNothing(p, Ascii("rail_ref"))
            && |p| == 4
  {
    var keys := CostKeys();
    var vals := [JStr(Ascii("0")), JStr(Ascii("0")), JStr(OrElse(call.wallMs, Ascii("0"))), JNull];
    FourMembers(keys, vals);
  }

  /** The payload is a valid object of sixteen members that says what the call was, and nothing else. */
  lemma PayloadClaims(c: Crypto, signer: TestSigner, call: CallInfo, result: seq<Member>)
    ensures var p := BuildReceiptPayload(c, signer, call, result);
            ValidMembers(p) && |p| == 16 && SaysCall(c, signer, call, result, p)
  {
    PayloadHolds(c, signer, call, result);
    PayloadSaysCall(c, signer, call, result);
    PayloadKeysDistinct();
    PayloadCodes();
    var props := Record(PAYLOAD_KEYS, ValuesOf(c, signer, call, result));
    assert UniqueKeys(props);
    SetAllDistinct(props);
  }

  /** The context a verifier expects of the call's receipt. */
  function CallPolicy(call: CallInfo): (policy: Policy) {
    Policy(Some(Ascii("mcp")), Some(Ascii("mcp:") + call.toolName))
  }

  // ---- Guarantees ----

  /** The signer's registry entry is the public half of its seed, and in force. */
  ghost predicate Trusted(c: Crypto, signer: TestSigner) {
    && Matches(c, signer.seed, signer.publicJwk)
    && signer.publicJwk.alg == EDDSA && signer.publicJwk.status != Some(Ascii("revoked"))
  }

  /** The claim of that name in the receipt a verifier reads. */
  function ReadClaim(jws: Str, name: Str): (v: Option<JSON>) {
    match ReadToken(jws)
    case None => None
    case Some(t) => Get(t.payload, name)
  }

  /** The outputs hash a verifier reads in the receipt. */
  function OutputsHashIn(jws: Str): (v: Option<JSON>) {
    ReadClaim(jws, Ascii("outputs_hash"))
  }

  predicate Accepted(c: Crypto, jws: Str, signer: TestSigner, policy: Policy) {
    Verify(c, jws, RegistryFromSigner(signer), policy) == Verdict(true, Verified)
  }

  /** The attached receipt verifies in its context, and the verifier reads the result's hash in it. */
  lemma CoSignedVerifies(c: Crypto, signer: TestSigner, call: CallInfo, result: seq<Member>)
    requires Trusted(c, signer)
    ensures Accepted(c, CoSigned(c, signer, call, result), signer, CallPolicy(call))
    ensures OutputsHashIn(CoSigned(c, signer, call, result)) == Some(JStr(ComputeOutputsHash(c, result)))
  {
    var payload := BuildReceiptPayload(c, signer, call, result);
    PayloadClaims(c, signer, call, result);
    CallPolicyMet(payload, signer.performerId, call);
    SignedAccepted(c, signer, payload, CallPolicy(call));
    SignedHash(c, signer, payload, ComputeOutputsHash(c, result));
  }

  lemma SignedHash(c: Crypto, signer: TestSigner, payload: seq<Member>, outputs: Str)
    requires ValidMembers(payload) && Claims(payload, Ascii("outputs_hash"), outputs)
    ensures OutputsHashIn(SignReceipt(c, payload, signer)) == Some(JStr(outputs))
  {
    SignedClaim(c, signer, payload, Ascii("outputs_hash"), outputs);
  }

  lemma CallPolicyMet(p: seq<Member>, performer: Str, call: CallInfo)
    requires SaysWho(p, performer, call.toolName)
    ensures PolicyMet(CallPolicy(call), p) && Get(p, PERFORMER_ID) == Some(JStr(performer))
  {
  }

  /** A claim of the payload is read back from the receipt. */
  lemma SignedClaim(c: Crypto, signer: TestSigner, payload: seq<Member>, name: Str, text: Str)
    requires ValidMembers(payload) && Claims(payload, name, text)
    ensures ReadClaim(SignReceipt(c, payload, signer), name) == Some(JStr(text))
  {
    TokenReadsBack(c, signer.seed, signer.kid, payload);
    JcsCanon.CanonGet(payload, name);
  }

  lemma SignedAccepted(c: Crypto, signer: TestSigner, payload: seq<Member>, policy: Policy)
    requires ValidMembers(payload) && Get(payload, PERFORMER_ID) == Some(JStr(signer.performerId))
    requires Trusted(c, signer) && PolicyMet(policy, payload)
    ensures Verify(c, SignReceipt(c, payload, signer), RegistryFromSigner(signer), policy) == Verdict(true, Verified)
  {
    var msg := MessageOf(signer.kid, payload);
    SignedVerdict(c, signer.seed, signer.kid, payload, RegistryFromSigner(signer), policy);
    assert KeyAccepts(c, signer.publicJwk, msg, c.edSign(signer.seed, msg));
  }

  lemma {:induction false} WithoutPut(ms: seq<Member>, k: Str, v: JSON)
    ensures Without(Put(ms, k, v), k) == Without(ms, k)
  {
    if ms == [] {
      assert Put(ms, k, v) == [Member(k, v)];
    } else if ms[0].key == k {
      assert Put(ms, k, v)[1..] == ms[1..];
    } else {
      WithoutPut(ms[1..], k, v);
      assert Put(ms, k, v) == [ms[0]] + Put(ms[1..], k, v);
      assert Put(ms, k, v)[1..] == Put(ms[1..], k, v);
    }
  }

  /** Attaching a receipt leaves the hash it signs unchanged, so signing again signs the same hash. */
  lemma AttachKeepsHash(c: Crypto, result: seq<Member>, jws: Str)
    ensures StripMeta(Attach(result, jws)) == StripMeta(result)
    ensures ComputeOutputsHash(c, Attach(result, jws)) == ComputeOutputsHash(c, result)
  {
    WithoutPut(result, META, JObj(Put(MetaOf(result), RECEIPT_META_KEY, JStr(jws))));
  }

  /** The entries of a result's `_meta`. */
  function MetaEntry(result: seq<Member>, k: Str): (v: Option<JSON>) {
    match Get(result, Ascii("_meta"))
    case Some(JObj(meta)) => Get(meta, k)
    case _ => None
  }

  /** The receipt is found under its key; every other field and `_meta` entry is as before. */
  lemma AttachAdds(result: seq<Member>, jws: Str, k: Str)
    requires ValidMembers(result)
    ensures ValidMembers(Attach(result, jws))
    ensures MetaEntry(Attach(result, jws), k) ==
            if k == Ascii("dev.veritrail/receipt") then Some(JStr(jws)) else MetaEntry(result, k)
    ensures k != Ascii("_meta") ==> Get(Attach(result, jws), k) == Get(result, k)
  {
    var meta := MetaOf(result);
    if HasKey(result, META) {
      assert Valid(result[Find(result, META)].val);
    }
    PutValid(meta, RECEIPT_META_KEY, JStr(jws));
    PutGet(meta, RECEIPT_META_KEY, JStr(jws), k);
    var meta' := JObj(Put(meta, RECEIPT_META_KEY, JStr(jws)));
    PutValid(result, META, meta');
    PutGet(result, META, meta', META);
    PutGet(result, META, meta', k);
  }

  /** The hashed part of a result is every field of it but `_meta`. */
  lemma StripMetaReads(result: seq<Member>, k: Str)
    ensures Get(StripMeta(result), k) == if k == Ascii("_meta") then None else Get(result, k)
  {
    WithoutReads(result, META, k);
  }

  lemma {:induction false} WithoutReads(ms: seq<Member>, dropped: Str, k: Str)
    ensures Get(Without(ms, dropped), k) == if k == dropped then None else Get(ms, k)
  {
    if ms != [] {
      WithoutReads(ms[1..], dropped, k);
      var rest := Without(ms[1..], dropped);
      FirstReads(ms, k);
      if ms[0].key != dropped {
        FirstReads([ms[0]] + rest, k);
        assert ([ms[0]] + rest)[1..] == rest;
      }
    }
  }

  lemma FirstReads(ms: seq<Member>, k: Str)
    requires ms != []
    ensures Get(ms, k) == if ms[0].key == k then Some(ms[0].val) else Get(ms[1..], k)
  {
  }

  lemma KeyInRest(ms: seq<Member>, k: Str)
    requires ms != [] && HasKey(ms[1..], k) && UniqueKeys(ms)
    ensures HasKey(ms, k) && ms[0].key != k
  {
    assert ms[1..][Find(ms[1..], k)] == ms[Find(ms[1..], k) + 1];
  }

  lemma {:induction false} WithoutValid(ms: seq<Member>, k: Str)
    requires ValidMembers(ms)
    ensures ValidMembers(Without(ms, k))
    ensures forall i | 0 <= i < |Without(ms, k)| :: HasKey(ms, Without(ms, k)[i].key)
  {
    if ms != [] {
      var rest := ms[1..];
      WithoutValid(rest, k);
      var r := Without(rest, k);
      forall i | 0 <= i < |r| ensures HasKey(ms, r[i].key) && r[i].key != ms[0].key {
        KeyInRest(ms, r[i].key);
      }
    }
  }

  /** Absent from both, or the same in both up to member order. */
  ghost predicate SameField(v: Option<JSON>, w: Option<JSON>) {
    match (v, w)
    case (None, None) => true
    case (Some(a), Some(b)) => Same(a, b)
    case _ => false
  }

  lemma SharedKey(a: seq<Member>, b: seq<Member>, k: Str)
    requires Same(JObj(a), JObj(b)) && HasKey(b, k)
    ensures HasKey(a, k)
  {
    assert b[Find(b, k)].key == k;
  }

  /** Objects are the same exactly when they are under every name. */
  lemma SameByNames(a: seq<Member>, b: seq<Member>)
    requires UniqueKeys(a) && UniqueKeys(b)
    ensures Same(JObj(a), JObj(b)) <==> forall k :: SameField(Get(a, k), Get(b, k))
  {
    if Same(JObj(a), JObj(b)) {
      forall k ensures SameField(Get(a, k), Get(b, k)) {
        if HasKey(a, k) {
          assert a[Find(a, k)].key == k;
        } else {
          assert !HasKey(b, k) by {
            if HasKey(b, k) {
              SharedKey(a, b, k);
            }
          }
        }
      }
    }
    if forall k :: SameField(Get(a, k), Get(b, k)) {
      forall i | 0 <= i < |a| ensures HasKey(b, a[i].key) && Same(a[i].val, b[Find(b, a[i].key)].val) {
        FindUnique(a, i);
        assert SameField(Get(a, a[i].key), Get(b, a[i].key));
      }
      forall j | 0 <= j < |b| ensures HasKey(a, b[j].key) {
        FindUnique(b, j);
        assert SameField(Get(a, b[j].key), Get(b, b[j].key));
      }
    }
  }

  /** Apart from `_meta`, the two results hold the same under every name. */
  ghost predicate SameResult(a: seq<Member>, b: seq<Member>) {
    forall k | k != Ascii("_meta") :: SameField(Get(a, k), Get(b, k))
  }

  lemma StrippedSame(a: seq<Member>, b: seq<Member>)
    requires ValidMembers(a) && ValidMembers(b)
    ensures ValidMembers(StripMeta(a)) && ValidMembers(StripMeta(b))
    ensures Same(JObj(StripMeta(a)), JObj(StripMeta(b))) <==> SameResult(a, b)
  {
    WithoutValid(a, META);
    WithoutValid(b, META);
    SameByNames(StripMeta(a), StripMeta(b));
    forall k
      ensures SameField(Get(StripMeta(a), k), Get(StripMeta(b), k)) <==> k == Ascii("_meta") || SameField(Get(a, k), Get(b, k))
    {
      StripMetaReads(a, k);
      StripMetaReads(b, k);
    }
  }

  /**
   * The hash binds the whole result but `_meta`: two results have the same `outputs_hash`
   * exactly when they hold the same under every other name, up to member order, or a digest
   * collision between the canonical bytes of what is hashed is exhibited.
   */
  lemma OutputsHashBinds(c: Crypto, a: seq<Member>, b: seq<Member>)
    requires ValidMembers(a) && ValidMembers(b)
    ensures ComputeOutputsHash(c, a) == ComputeOutputsHash(c, b) <==>
            || SameResult(a, b)
            || ChainGuarantees.Collision(c, JcsBytes(JObj(StripMeta(a))), JcsBytes(JObj(StripMeta(b))))
  {
    StrippedSame(a, b);
    JcsBytesInjective(JObj(StripMeta(a)), JObj(StripMeta(b)));
    ChainGuarantees.SameDigest(c, JcsBytes(JObj(StripMeta(a))), JcsBytes(JObj(StripMeta(b))));
  }

  /** Co-signing a result that carries a receipt already commits to the same hash. */
  lemma SigningAgain(c: Crypto, signer: TestSigner, call: CallInfo, result: seq<Member>, jws: Str)
    ensures var again := BuildReceiptPayload(c, signer, call, Attach(result, jws));
            Get(again, Ascii("outputs_hash")) == Some(JStr(ComputeOutputsHash(c, result)))
            && again == BuildReceiptPayload(c, signer, call, result)
  {
    AttachKeepsHash(c, result, jws);
    PayloadClaims(c, signer, call, result);
  }

  /** The receipt a result carries. */
  function ReceiptIn(result: seq<Member>): (v: Option<JSON>) {
    MetaEntry(result, Ascii("dev.veritrail/receipt"))
  }

  /** The result carries a receipt that verifies in the call's context and commits to the result as it is. */
  ghost predicate CarriesReceipt(c: Crypto, signer: TestSigner, call: CallInfo, result: seq<Member>) {
    match ReceiptIn(result)
    case Some(JStr(jws)) =>
      && Accepted(c, jws, signer, CallPolicy(call))
      && OutputsHashIn(jws) == Some(JStr(ComputeOutputsHash(c, result)))
    case _ => false
  }

  lemma AttachedReceipt(c: Crypto, signer: TestSigner, call: CallInfo, result: seq<Member>)
    requires ValidMembers(result) && Trusted(c, signer)
    ensures CarriesReceipt(c, signer, call, Attach(result, CoSigned(c, signer, call, result)))
  {
    var jws := CoSigned(c, signer, call, result);
    CoSignedVerifies(c, signer, call, result);
    AttachKeepsHash(c, result, jws);
    AttachAdds(result, jws, RECEIPT_META_KEY);
  }

  /** A tool result, which the middleware updates in place. */
  class ToolResult {
    var members: seq<Member>

    constructor (members: seq<Member>)
      ensures this.members == members
    {
      this.members := members;
    }
  }

  /** `veritrailToolResult` */
  method VeritrailToolResult(c: Crypto, signer: TestSigner, call: CallInfo, result: ToolResult) returns (r: ToolResult)
    requires MetaTyped(result.members)
    modifies result
    ensures r == result
    ensures result.members == Attach(old(result.members), CoSigned(c, signer, call, old(result.members)))
    ensures ComputeOutputsHash(c, result.members) == ComputeOutputsHash(c, old(result.members))
    ensures ValidMembers(old(result.members)) && Trusted(c, signer) ==> CarriesReceipt(c, signer, call, result.members)
  {
    AttachKeepsHash(c, result.members, CoSigned(c, signer, call, result.members));
    if ValidMembers(result.members) && Trusted(c, signer) {
      AttachedReceipt(c, signer, call, result.members);
    }
    var payload := BuildReceiptPayload(c, signer, call, result.members);
    var jws := SignReceipt(c, payload, signer);
    var meta := match Get(result.members, META) case Some(JObj(m)) => m case _ => [];
    result.members := Put(result.members, META, JObj(Put(meta, RECEIPT_META_KEY, JStr(jws))));
    r := result;
  }
}
