/**
 * What the canonical form means: one text per value up to member order, sorted names at
 * every depth, and the exact set of texts and bytes that are somebody's canonical form.
 */
module JcsCanon {
  import opened Text
  import opened Json
  import opened JsonParse
  import opened Jcs
  import opened KeyOrder
  import JcsRoundTrip

  /** The members `Canon` gives an object. */
  function CanonMembers(ms: seq<Member>): (cs: seq<Member>) {
    Canon(JObj(ms)).members
  }

  lemma CanonMember(ms: seq<Member>, i: nat)
    requires i < |ms|
    ensures |CanonMembers(ms)| == |ms|
    ensures HasKey(ms, Sort(Keys(ms))[i])
    ensures CanonMembers(ms)[i] == Member(Sort(Keys(ms))[i], Canon(ms[Find(ms, Sort(Keys(ms))[i])].val))
  {
    SortedKeysFound(ms);
  }

  lemma CanonKeys(ms: seq<Member>)
    ensures Keys(CanonMembers(ms)) == Sort(Keys(ms))
  {
    forall i | 0 <= i < |ms| ensures CanonMembers(ms)[i].key == Sort(Keys(ms))[i] {
      CanonMember(ms, i);
    }
    SortedKeysFound(ms);
  }

  lemma KeysDistinct(ms: seq<Member>)
    ensures UniqueKeys(ms) <==> Distinct(Keys(ms))
  {
  }

  lemma KeysHave(ms: seq<Member>, k: Str)
    ensures k in Keys(ms) <==> HasKey(ms, k)
  {
    if k in Keys(ms) {
      var i :| 0 <= i < |ms| && Keys(ms)[i] == k;
    }
    if HasKey(ms, k) {
      assert Keys(ms)[Find(ms, k)] == k;
    }
  }

  /** Canonicalising changes no property beyond canonicalising its value. */
  lemma CanonGet(ms: seq<Member>, k: Str)
    requires UniqueKeys(ms)
    ensures UniqueKeys(CanonMembers(ms))
    ensures Get(CanonMembers(ms), k) == match Get(ms, k) case None => None case Some(v) => Some(Canon(v))
  {
    var cs := CanonMembers(ms);
    CanonKeys(ms);
    SortKeeps(Keys(ms));
    KeysDistinct(ms);
    KeysDistinct(cs);
    SortSorted(Keys(ms));
    SortedDistinct(Sort(Keys(ms)));
    KeysHave(ms, k);
    KeysHave(cs, k);
    if HasKey(ms, k) {
      CanonMember(ms, Find(cs, k));
    }
  }

  lemma {:induction false} CanonValid(v: JSON)
    requires Valid(v)
    ensures Valid(Canon(v))
  {
    match v {
      case JArr(items) =>
        forall i | 0 <= i < |items| ensures Valid(Canon(items[i])) {
          CanonValid(items[i]);
        }
      case JObj(ms) =>
        var cs := CanonMembers(ms);
        CanonGet(ms, []);
        forall i | 0 <= i < |cs| ensures Valid(cs[i].val) {
          CanonMember(ms, i);
          CanonValid(ms[Find(ms, Sort(Keys(ms))[i])].val);
        }
      case _ =>
    }
  }

  /** The canonical printer is the plain printer after sorting every object. */
  lemma {:induction false} JcsIsStringify(v: JSON)
    ensures JcsString(v) == Stringify(Canon(v))
  {
    match v {
      case JArr(items) =>
        forall i | 0 <= i < |items| ensures JcsString(items[i]) == Stringify(Canon(items[i])) {
          JcsIsStringify(items[i]);
        }
        assert JcsItems(items) == ItemTexts(Canon(v).items);
      case JObj(ms) =>
        forall i | 0 <= i < |ms| ensures JcsPairs(ms)[i] == MemberText(CanonMembers(ms)[i]) {
          CanonMember(ms, i);
          JcsIsStringify(ms[Find(ms, Sort(Keys(ms))[i])].val);
        }
        CanonKeys(ms);
        assert JcsPairs(ms) == MemberTexts(CanonMembers(ms));
      case _ =>
    }
  }

  // ---- Round trip, self-delimitation, injectivity ----

  /**
   * Parsing what the canonical printer wrote, followed by anything that does not extend it,
   * consumes exactly the printed text and gives the value back with its members sorted.
   */
  lemma JcsRoundTrips(v: JSON, rest: Str)
    requires Valid(v) && JcsRoundTrip.Delimits(v, rest)
    ensures Value(JcsString(v) + rest) == Ok(Canon(v), rest)
    ensures Parse(JcsString(v)) == Some(Canon(v))
    ensures Valid(Canon(v)) && Ordered(Canon(v))
  {
    CanonOrdered(v);
    JcsIsStringify(v);
    CanonValid(v);
    JcsRoundTrip.ValueRoundTrip(Canon(v), rest);
    JcsRoundTrip.ValueRoundTrip(Canon(v), []);
    assert JcsString(v) + [] == JcsString(v);
  }

  /** Sorted names at every depth. */
  ghost predicate Ordered(v: JSON) {
    match v
    case JArr(items) => forall i | 0 <= i < |items| :: Ordered(items[i])
    case JObj(ms) => StrictlySorted(Keys(ms)) && forall i | 0 <= i < |ms| :: Ordered(ms[i].val)
    case _ => true
  }

  lemma {:induction false} CanonOrdered(v: JSON)
    requires Valid(v)
    ensures Ordered(Canon(v))
  {
    match v {
      case JArr(items) =>
        forall i | 0 <= i < |items| ensures Ordered(Canon(items[i])) {
          CanonOrdered(items[i]);
        }
      case JObj(ms) =>
        CanonKeys(ms);
        KeysDistinct(ms);
        SortSorted(Keys(ms));
        var cs := CanonMembers(ms);
        forall i | 0 <= i < |cs| ensures Ordered(cs[i].val) {
          CanonMember(ms, i);
          CanonOrdered(ms[Find(ms, Sort(Keys(ms))[i])].val);
        }
      case _ =>
    }
  }

  /** The sorted values are the ones canonicalising leaves alone. */
  lemma {:induction false} CanonFixed(v: JSON)
    requires Valid(v) && Ordered(v)
    ensures Canon(v) == v
  {
    match v {
      case JArr(items) =>
        forall i | 0 <= i < |items| ensures Canon(items[i]) == items[i] {
          CanonFixed(items[i]);
        }
      case JObj(ms) =>
        var keys := Sort(Keys(ms));
        KeysDistinct(ms);
        SortSorted(Keys(ms));
        SortKeeps(Keys(ms));
        SortedUnique(keys, Keys(ms));
        forall i | 0 <= i < |ms| ensures CanonMembers(ms)[i] == ms[i] {
          CanonMember(ms, i);
          FindUnique(ms, i);
          CanonFixed(ms[i].val);
        }
        CanonKeys(ms);
        assert CanonMembers(ms) == ms;
      case _ =>
    }
  }

  lemma CanonIdempotent(v: JSON)
    requires Valid(v)
    ensures Canon(Canon(v)) == Canon(v) && JcsString(Canon(v)) == JcsString(v)
  {
    CanonValid(v);
    CanonOrdered(v);
    CanonFixed(Canon(v));
    JcsIsStringify(v);
    JcsIsStringify(Canon(v));
  }

  /** Two objects with the same names sort to the same names. */
  lemma SameKeysSort(a: seq<Member>, b: seq<Member>)
    requires UniqueKeys(a) && UniqueKeys(b)
    ensures (forall k :: HasKey(a, k) <==> HasKey(b, k)) <==> Sort(Keys(a)) == Sort(Keys(b))
  {
    SortKeeps(Keys(a));
    SortKeeps(Keys(b));
    KeysDistinct(a);
    KeysDistinct(b);
    SortSorted(Keys(a));
    SortSorted(Keys(b));
    forall k ensures k in Keys(a) <==> HasKey(a, k) {
      KeysHave(a, k);
    }
    forall k ensures k in Keys(b) <==> HasKey(b, k) {
      KeysHave(b, k);
    }
    if forall k :: HasKey(a, k) <==> HasKey(b, k) {
      SortedUnique(Sort(Keys(a)), Sort(Keys(b)));
    }
  }

  lemma CanonItems(a: seq<JSON>, b: seq<JSON>)
    ensures Canon(JArr(a)) == Canon(JArr(b)) <==>
            |a| == |b| && forall i | 0 <= i < |a| :: Canon(a[i]) == Canon(b[i])
  {
    var ca := Canon(JArr(a)).items;
    var cb := Canon(JArr(b)).items;
    assert |ca| == |a| && |cb| == |b|;
    assert forall i | 0 <= i < |a| :: ca[i] == Canon(a[i]);
    assert forall i | 0 <= i < |b| :: cb[i] == Canon(b[i]);
    if |a| == |b| && forall i | 0 <= i < |a| :: Canon(a[i]) == Canon(b[i]) {
      assert ca == cb;
    }
  }

  /** Values are equal up to member order exactly when their canonical values are equal. */
  lemma {:induction false} SameIsCanonEqual(v: JSON, w: JSON)
    requires Valid(v) && Valid(w)
    ensures Same(v, w) <==> Canon(v) == Canon(w)
    decreases v
  {
    match (v, w) {
      case (JArr(a), JArr(b)) =>
        forall i | 0 <= i < |a| && i < |b| ensures Same(a[i], b[i]) <==> Canon(a[i]) == Canon(b[i]) {
          SameIsCanonEqual(a[i], b[i]);
        }
        CanonItems(a, b);
      case (JObj(a), JObj(b)) =>
        SameObjects(a, b);
      case _ =>
    }
  }

  lemma {:induction false} SameObjects(a: seq<Member>, b: seq<Member>)
    requires ValidMembers(a) && ValidMembers(b)
    ensures Same(JObj(a), JObj(b)) <==> CanonMembers(a) == CanonMembers(b)
    decreases a
  {
    forall i | 0 <= i < |a| && HasKey(b, a[i].key)
      ensures Same(a[i].val, b[Find(b, a[i].key)].val) <==> Canon(a[i].val) == Canon(b[Find(b, a[i].key)].val)
    {
      SameIsCanonEqual(a[i].val, b[Find(b, a[i].key)].val);
    }
    assert Same(JObj(a), JObj(b)) <==> Agree(a, b);
    AgreeIsCanonEqual(a, b);
  }

  /** The same names, with the same canonical values. */
  ghost predicate Agree(a: seq<Member>, b: seq<Member>) {
    && (forall i | 0 <= i < |a| :: HasKey(b, a[i].key) && Canon(a[i].val) == Canon(b[Find(b, a[i].key)].val))
    && (forall j | 0 <= j < |b| :: HasKey(a, b[j].key))
  }

  lemma AgreeIsCanonEqual(a: seq<Member>, b: seq<Member>)
    requires UniqueKeys(a) && UniqueKeys(b)
    ensures Agree(a, b) <==> CanonMembers(a) == CanonMembers(b)
  {
    SameKeysSort(a, b);
    CanonKeys(a);
    CanonKeys(b);
    if Agree(a, b) {
      forall k ensures HasKey(a, k) <==> HasKey(b, k) {
        assert HasKey(a, k) ==> a[Find(a, k)].key == k;
        assert HasKey(b, k) ==> b[Find(b, k)].key == k;
      }
      forall i | 0 <= i < |a| ensures CanonMembers(a)[i] == CanonMembers(b)[i] {
        CanonMember(a, i);
        CanonMember(b, i);
      }
    }
    if CanonMembers(a) == CanonMembers(b) {
      CanonEqualAgree(a, b);
    }
  }

  lemma CanonEqualAgree(a: seq<Member>, b: seq<Member>)
    requires UniqueKeys(a) && UniqueKeys(b)
    requires CanonMembers(a) == CanonMembers(b)
    ensures Agree(a, b)
  {
    CanonKeys(a);
    CanonKeys(b);
    SameKeysSort(a, b);
    forall i | 0 <= i < |a|
      ensures HasKey(b, a[i].key) && Canon(a[i].val) == Canon(b[Find(b, a[i].key)].val)
    {
      FindUnique(a, i);
      CanonGet(a, a[i].key);
      CanonGet(b, a[i].key);
    }
    forall j | 0 <= j < |b| ensures HasKey(a, b[j].key) {
      FindUnique(b, j);
    }
  }

  /** The canonical text determines the value up to member order, and nothing finer. */
  lemma JcsInjective(v: JSON, w: JSON)
    requires Valid(v) && Valid(w)
    ensures JcsString(v) == JcsString(w) <==> Same(v, w)
  {
    JcsRoundTrips(v, []);
    JcsRoundTrips(w, []);
    JcsIsStringify(v);
    JcsIsStringify(w);
    SameIsCanonEqual(v, w);
  }

  lemma PermutedAgree(a: seq<Member>, b: seq<Member>)
    requires UniqueKeys(b) && multiset(a) == multiset(b)
    ensures Agree(a, b)
  {
    forall i | 0 <= i < |a|
      ensures HasKey(b, a[i].key) && Canon(a[i].val) == Canon(b[Find(b, a[i].key)].val)
    {
      assert a[i] in multiset(a);
      var j :| 0 <= j < |b| && b[j] == a[i];
      FindUnique(b, j);
    }
    forall j | 0 <= j < |b| ensures HasKey(a, b[j].key) {
      assert b[j] in multiset(b);
      var i :| 0 <= i < |a| && a[i] == b[j];
    }
  }

  /** Writing the members of an object in another order never changes its canonical text. */
  lemma ReorderInvariant(a: seq<Member>, b: seq<Member>)
    requires UniqueKeys(a) && UniqueKeys(b) && multiset(a) == multiset(b)
    ensures JcsString(JObj(a)) == JcsString(JObj(b))
  {
    PermutedAgree(a, b);
    AgreeIsCanonEqual(a, b);
    JcsIsStringify(JObj(a));
    JcsIsStringify(JObj(b));
    assert Canon(JObj(a)) == JObj(CanonMembers(a)) && Canon(JObj(b)) == JObj(CanonMembers(b));
  }

  /** No canonical text can be cut differently: canonical forms are self-delimiting. */
  lemma JcsUniquelyReadable(v: JSON, a: Str, w: JSON, b: Str)
    requires Valid(v) && Valid(w)
    requires JcsRoundTrip.Delimits(v, a) && JcsRoundTrip.Delimits(w, b)
    requires JcsString(v) + a == JcsString(w) + b
    ensures Same(v, w) && a == b
  {
    JcsRoundTrips(v, a);
    JcsRoundTrips(w, b);
    SameIsCanonEqual(v, w);
  }

  /** A text is the canonical form of what it parses to iff it is the canonical form of anything. */
  lemma CanonicalTexts(t: Str)
    ensures (exists v :: Valid(v) && JcsString(v) == t) <==> (Parse(t).Some? && JcsString(Parse(t).value) == t)
  {
    ParseValid(t);
    if v :| Valid(v) && JcsString(v) == t {
      JcsRoundTrips(v, []);
      CanonIdempotent(v);
    }
  }
}
