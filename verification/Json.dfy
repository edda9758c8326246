/** JSON values as JavaScript holds them: objects are lists of own properties. */
module Json {
  import opened Text

  datatype JSON =
    | JNull
    | JBool(b: bool)
    | JNum(n: int)
    | JStr(s: Str)
    | JArr(items: seq<JSON>)
    | JObj(members: seq<Member>)

  datatype Member = Member(key: Str, val: JSON)

  const MAX_SAFE_INTEGER := 9007199254740991

  /** The position of property `k`, or `|ms|` when it is absent. */
  function Find(ms: seq<Member>, k: Str): (i: nat)
    ensures i <= |ms|
    ensures i < |ms| ==> ms[i].key == k
    ensures forall j | 0 <= j < i :: ms[j].key != k
  {
    if ms == [] || ms[0].key == k then 0 else 1 + Find(ms[1..], k)
  }

  predicate HasKey(ms: seq<Member>, k: Str) {
    Find(ms, k) < |ms|
  }

  /** `obj[k]`, with `None` for `undefined`. */
  function Get(ms: seq<Member>, k: Str): (r: Option<JSON>) {
    if HasKey(ms, k) then Some(ms[Find(ms, k)].val) else None
  }

  /** `obj[k] = v`: an existing property keeps its place, a new one goes last. */
  function Put(ms: seq<Member>, k: Str, v: JSON): (r: seq<Member>) {
    if HasKey(ms, k) then ms[Find(ms, k) := Member(k, v)] else ms + [Member(k, v)]
  }

  /** The object with these properties, in this order. */
  function Record(keys: seq<Str>, vals: seq<JSON>): (ms: seq<Member>)
    requires |keys| == |vals|
  {
    seq(|keys|, i requires 0 <= i < |keys| => Member(keys[i], vals[i]))
  }

  ghost predicate UniqueKeys(ms: seq<Member>) {
    forall i, j | 0 <= i < j < |ms| :: ms[i].key != ms[j].key
  }

  /** The values modelled: integers up to 2^53 - 1, no property name twice. */
  ghost predicate Valid(v: JSON) {
    match v
    case JNum(n) => -MAX_SAFE_INTEGER <= n <= MAX_SAFE_INTEGER
    case JArr(items) => forall i | 0 <= i < |items| :: Valid(items[i])
    case JObj(members) => ValidMembers(members)
    case _ => true
  }

  ghost predicate ValidMembers(ms: seq<Member>) {
    UniqueKeys(ms) && forall i | 0 <= i < |ms| :: Valid(ms[i].val)
  }

  /** Equality that ignores the order of object members, at every depth. */
  ghost predicate Same(v: JSON, w: JSON)
    decreases v
  {
    match (v, w)
    case (JArr(a), JArr(b)) => |a| == |b| && forall i | 0 <= i < |a| :: Same(a[i], b[i])
    case (JObj(a), JObj(b)) =>
      && (forall i | 0 <= i < |a| :: HasKey(b, a[i].key) && Same(a[i].val, b[Find(b, a[i].key)].val))
      && (forall j | 0 <= j < |b| :: HasKey(a, b[j].key))
    case _ => v == w
  }

  lemma FindUnique(ms: seq<Member>, i: nat)
    requires i < |ms| && UniqueKeys(ms)
    ensures Find(ms, ms[i].key) == i
  {
  }

  lemma PutGet(ms: seq<Member>, k: Str, v: JSON, k': Str)
    requires UniqueKeys(ms)
    ensures UniqueKeys(Put(ms, k, v))
    ensures Get(Put(ms, k, v), k') == if k' == k then Some(v) else Get(ms, k')
  {
    var ps := Put(ms, k, v);
    if k' == k {
      FindUnique(ps, if HasKey(ms, k) then Find(ms, k) else |ms|);
    } else if HasKey(ms, k') {
      assert ps[Find(ms, k')] == ms[Find(ms, k')];
      FindUnique(ps, Find(ms, k'));
    } else {
      assert forall j | 0 <= j < |ms| :: ms[j].key != k';
      assert forall j | 0 <= j < |ps| :: ps[j].key != k';
    }
  }

  /** Setting a name that is not there yet appends it. */
  lemma PutFresh(front: seq<Member>, last: Member)
    requires UniqueKeys(front + [last])
    ensures UniqueKeys(front) && !HasKey(front, last.key)
    ensures Put(front, last.key, last.val) == front + [last]
  {
    var ms := front + [last];
    assert ms[|front|] == last;
    forall i | 0 <= i < |front| ensures ms[i] == front[i] && front[i].key != last.key {
      assert ms[i].key != ms[|front|].key;
    }
  }

  /** Properties set one after another: an object literal, or the members of a text as they are read. */
  function SetAll(props: seq<Member>): (ms: seq<Member>) {
    if props == [] then []
    else var p := props[|props| - 1]; Put(SetAll(props[..|props| - 1]), p.key, p.val)
  }

  lemma {:induction false} SetAllUnique(props: seq<Member>)
    ensures UniqueKeys(SetAll(props))
  {
    if props != [] {
      var p := props[|props| - 1];
      SetAllUnique(props[..|props| - 1]);
      PutGet(SetAll(props[..|props| - 1]), p.key, p.val, p.key);
    }
  }

  lemma {:induction false} SetAllValid(props: seq<Member>)
    requires forall i | 0 <= i < |props| :: Valid(props[i].val)
    ensures ValidMembers(SetAll(props))
  {
    if props != [] {
      SetAllValid(props[..|props| - 1]);
      PutValid(SetAll(props[..|props| - 1]), props[|props| - 1].key, props[|props| - 1].val);
    }
  }

  lemma SetAllLast(front: seq<Member>, last: Member, k: Str)
    ensures Get(SetAll(front + [last]), k) == if k == last.key then Some(last.val) else Get(SetAll(front), k)
  {
    assert (front + [last])[..|front|] == front;
    SetAllUnique(front);
    PutGet(SetAll(front), last.key, last.val, k);
  }

  /** Of the properties with one name the last counts. */
  lemma {:induction false} SetAllGet(props: seq<Member>, i: nat)
    requires i < |props| && forall j | i < j < |props| :: props[j].key != props[i].key
    ensures Get(SetAll(props), props[i].key) == Some(props[i].val)
  {
    var n := |props| - 1;
    assert props == props[..n] + [props[n]];
    SetAllLast(props[..n], props[n], props[i].key);
    if i < n {
      SetAllGet(props[..n], i);
    }
  }

  /** Setting names that are all different keeps the list as it is. */
  lemma {:induction false} SetAllDistinct(ms: seq<Member>)
    requires UniqueKeys(ms)
    ensures SetAll(ms) == ms
  {
    if ms != [] {
      var front := ms[..|ms| - 1];
      assert ms == front + [ms[|ms| - 1]];
      PutFresh(front, ms[|ms| - 1]);
      SetAllDistinct(front);
    }
  }

  lemma PutValid(ms: seq<Member>, k: Str, v: JSON)
    requires ValidMembers(ms) && Valid(v)
    ensures ValidMembers(Put(ms, k, v))
  {
    PutGet(ms, k, v, k);
  }
}
