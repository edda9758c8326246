/** `a2a-artifact-hash`: artifact parts to canonical descriptors, and what those commit to. */
module A2a {
  import opened Text
  import opened Json
  import opened Jcs
  import opened JcsOctets
  import opened Verifier
  import Base64
  import ChainGuarantees
  import JcsCanon

  /** An A2A part: a JSON object. */
  type Part = seq<Member>

  const KIND := Ascii("kind")
  const TEXT := Ascii("text")
  const DATA := Ascii("data")
  const FILE := Ascii("file")
  const BYTES := Ascii("bytes")
  const URI := Ascii("uri")
  const DIGEST := Ascii("digest")
  const DECLARED_DIGEST := Ascii("declared_digest")
  const MIME_TYPE := Ascii("mimeType")
  const NAME := Ascii("name")
  const PARTS := Ascii("parts")

  /** A field that is absent or null counts as null: `orNull`, and `undefined` as the printer writes it. */
  function OrNull(ms: seq<Member>, k: Str): (v: JSON) {
    match Get(ms, k)
    case None => JNull
    case Some(v) => v
  }

  const TEXT_KEYS := [KIND, TEXT]
  const DATA_KEYS := [KIND, DATA]
  const INLINE_KEYS := [KIND, DIGEST, MIME_TYPE, NAME]
  const URI_KEYS := [KIND, URI, DECLARED_DIGEST, MIME_TYPE, NAME]

  /** `partToDescriptor`; `None` is `unsupported_part`. */
  function PartToDescriptor(c: Crypto, part: Part): (d: Option<seq<Member>>) {
    match Get(part, KIND)
    case Some(JStr(kind)) =>
      if kind == TEXT then Some(Record(TEXT_KEYS, [JStr(TEXT), OrNull(part, TEXT)]))
      else if kind == DATA then Some(Record(DATA_KEYS, [JStr(DATA), OrNull(part, DATA)]))
      else if kind == FILE then
        (match Get(part, FILE)
         case Some(JObj(file)) =>
           (match (Get(file, BYTES), Get(file, URI))
            case (Some(JStr(bytes)), _) =>
              Some(Record(INLINE_KEYS, [JStr(FILE), JStr(Digest(c, Base64.LenientDecode(bytes))),
                                        OrNull(file, MIME_TYPE), OrNull(file, NAME)]))
            case (_, Some(JStr(uri))) =>
              Some(Record(URI_KEYS, [JStr(FILE), JStr(uri), OrNull(file, DECLARED_DIGEST),
                                     OrNull(file, MIME_TYPE), OrNull(file, NAME)]))
            case _ => None)
         case _ => None)
      else None
    case _ => None
  }

  ghost predicate Supported(c: Crypto, parts: seq<Part>) {
    forall i | 0 <= i < |parts| :: PartToDescriptor(c, parts[i]).Some?
  }

  /** The descriptor of a fully supported artifact. */
  function Descriptor(c: Crypto, parts: seq<Part>): (v: JSON)
    requires Supported(c, parts)
  {
    JObj([Member(PARTS, JArr(seq(|parts|, i requires 0 <= i < |parts| => JObj(PartToDescriptor(c, parts[i]).value))))])
  }

  /** `buildDescriptor`; `None` is `unsupported_part`. */
  method BuildDescriptor(c: Crypto, parts: seq<Part>) returns (descriptor: Option<JSON>)
    ensures descriptor.Some? <==> Supported(c, parts)
    ensures Supported(c, parts) ==> descriptor == Some(Descriptor(c, parts))
  {
    var descriptors: seq<JSON> := [];
    for i := 0 to |parts|
      invariant |descriptors| == i
      invariant forall j | 0 <= j < i ::
        PartToDescriptor(c, parts[j]).Some? && descriptors[j] == JObj(PartToDescriptor(c, parts[j]).value)
    {
      var d := PartToDescriptor(c, parts[i]);
      if d.None? {
        return None;
      }
      descriptors := descriptors + [JObj(d.value)];
    }
    assert descriptors == Descriptor(c, parts).members[0].val.items;
    return Some(JObj([Member(PARTS, JArr(descriptors))]));
  }

  datatype Artifact = Artifact(descriptorHex: Str, outputsHash: Str)

  /** What a supported artifact hashes to. */
  function ArtifactOf(c: Crypto, parts: seq<Part>): (a: Artifact)
    requires Supported(c, parts)
  {
    var canonical := JcsBytes(Descriptor(c, parts));
    Artifact(Hex(canonical), Digest(c, canonical))
  }

  /** `a2aArtifactHash` */
  method ArtifactHash(c: Crypto, parts: seq<Part>) returns (r: Option<Artifact>)
    ensures r.Some? <==> Supported(c, parts)
    ensures r.Some? ==> r.value == ArtifactOf(c, parts)
  {
    var descriptor := BuildDescriptor(c, parts);
    if descriptor.None? {
      return None;
    }
    var canonical := JcsBytes(descriptor.value);
    return Some(Artifact(Hex(canonical), Digest(c, canonical)));
  }

  // ---- What a part says, apart from how it is written ----

  datatype View =
    | TextView(text: JSON)
    | DataView(data: JSON)
    | InlineView(content: Bytes, mimeType: JSON, name: JSON)
    | UriView(uri: Str, declaredDigest: JSON, mimeType: JSON, name: JSON)
    | NoView

  function ViewOf(part: Part): (v: View) {
    match Get(part, KIND)
    case Some(JStr(kind)) =>
      if kind == TEXT then TextView(OrNull(part, TEXT))
      else if kind == DATA then DataView(OrNull(part, DATA))
      else if kind == FILE then
        (match Get(part, FILE)
         case Some(JObj(file)) =>
           (match (Get(file, BYTES), Get(file, URI))
            case (Some(JStr(bytes)), _) => InlineView(Base64.LenientDecode(bytes), OrNull(file, MIME_TYPE), OrNull(file, NAME))
            case (_, Some(JStr(uri))) =>
              UriView(uri, OrNull(file, DECLARED_DIGEST), OrNull(file, MIME_TYPE), OrNull(file, NAME))
            case _ => NoView)
         case _ => NoView)
      else NoView
    case _ => NoView
  }

  /** The same kind of part with the same content, JSON compared up to member order. */
  ghost predicate SameView(v: View, w: View) {
    match (v, w)
    case (TextView(a), TextView(b)) => Same(a, b)
    case (DataView(a), DataView(b)) => Same(a, b)
    case (InlineView(a, m, n), InlineView(b, m', n')) => a == b && Same(m, m') && Same(n, n')
    case (UriView(a, d, m, n), UriView(b, d', m', n')) => a == b && Same(d, d') && Same(m, m') && Same(n, n')
    case _ => false
  }

  /** Two inline contents that differ and have one digest, under the same media type and name. */
  ghost predicate InlineCollision(c: Crypto, v: View, w: View) {
    && v.InlineView? && w.InlineView? && v.content != w.content && c.sha256(v.content) == c.sha256(w.content)
    && Same(v.mimeType, w.mimeType) && Same(v.name, w.name)
  }

  // ---- Descriptors by view ----

  function KeysOf(v: View): (keys: seq<Str>) {
    match v
    case TextView(_) => TEXT_KEYS
    case DataView(_) => DATA_KEYS
    case InlineView(_, _, _) => INLINE_KEYS
    case UriView(_, _, _, _) => URI_KEYS
    case NoView => []
  }

  function ValuesOf(c: Crypto, v: View): (vals: seq<JSON>)
    ensures |vals| == |KeysOf(v)|
  {
    match v
    case TextView(text) => [JStr(TEXT), text]
    case DataView(data) => [JStr(DATA), data]
    case InlineView(content, mimeType, name) => [JStr(FILE), JStr(Digest(c, content)), mimeType, name]
    case UriView(uri, declared, mimeType, name) => [JStr(FILE), JStr(uri), declared, mimeType, name]
    case NoView => []
  }

  function RecordOf(c: Crypto, v: View): (ms: seq<Member>) {
    Record(KeysOf(v), ValuesOf(c, v))
  }

  lemma DescriptorOfView(c: Crypto, part: Part)
    ensures PartToDescriptor(c, part) == if ViewOf(part) == NoView then None else Some(RecordOf(c, ViewOf(part)))
  {
  }

  ghost predicate ValidView(v: View) {
    match v
    case TextView(text) => Valid(text)
    case DataView(data) => Valid(data)
    case InlineView(_, m, n) => Valid(m) && Valid(n)
    case UriView(_, d, m, n) => Valid(d) && Valid(m) && Valid(n)
    case NoView => true
  }

  lemma ViewValid(part: Part)
    requires ValidMembers(part)
    ensures ValidView(ViewOf(part))
  {
    if HasKey(part, FILE) {
      assert Valid(part[Find(part, FILE)].val);
    }
  }

  lemma KeysDistinct(v: View)
    ensures Distinct(KeysOf(v))
  {
    assert |KIND| == |TEXT| == |DATA| == |NAME| == 4 && |URI| == 3 && |DIGEST| == 6 && |MIME_TYPE| == 8 && |DECLARED_DIGEST| == 15;
    assert KIND[0] == 0x6B && TEXT[0] == 0x74 && DATA[0] == 0x64 && NAME[0] == 0x6E;
  }

  lemma RecordHas(keys: seq<Str>, vals: seq<JSON>, k: Str)
    requires |keys| == |vals|
    ensures HasKey(Record(keys, vals), k) <==> k in keys
  {
    JcsCanon.KeysHave(Record(keys, vals), k);
    assert Keys(Record(keys, vals)) == keys;
  }

  lemma RecordSame(keys: seq<Str>, vs: seq<JSON>, ws: seq<JSON>)
    requires |keys| == |vs| == |ws| && Distinct(keys)
    ensures Same(JObj(Record(keys, vs)), JObj(Record(keys, ws))) <==> forall i | 0 <= i < |keys| :: Same(vs[i], ws[i])
  {
    var a, b := Record(keys, vs), Record(keys, ws);
    assert UniqueKeys(a) && UniqueKeys(b);
    forall i | 0 <= i < |keys| ensures Find(a, keys[i]) == i && Find(b, keys[i]) == i {
      FindUnique(a, i);
      FindUnique(b, i);
    }
    if Same(JObj(a), JObj(b)) {
      forall i | 0 <= i < |keys| ensures Same(vs[i], ws[i]) {
        assert Same(a[i].val, b[Find(b, a[i].key)].val);
      }
    }
  }

  /** The key that only this kind of descriptor has. */
  function OwnKey(v: View): (k: Str) {
    match v
    case TextView(_) => TEXT
    case DataView(_) => DATA
    case InlineView(_, _, _) => DIGEST
    case _ => URI
  }

  lemma OwnKeyIsOwn(v: View, w: View)
    requires v != NoView && w != NoView
    ensures OwnKey(v) in KeysOf(v)
    ensures OwnKey(v) in KeysOf(w) ==> KeysOf(v) == KeysOf(w)
  {
    assert |KIND| == |TEXT| == |DATA| == |NAME| == 4 && |URI| == 3 && |DIGEST| == 6 && |MIME_TYPE| == 8 && |DECLARED_DIGEST| == 15;
    assert KIND[0] == 0x6B && TEXT[0] == 0x74 && DATA[0] == 0x64 && NAME[0] == 0x6E;
    match v {
      case TextView(_) => assert TEXT == TEXT_KEYS[1];
      case DataView(_) => assert DATA == DATA_KEYS[1];
      case InlineView(_, _, _) => assert DIGEST == INLINE_KEYS[1];
      case UriView(_, _, _, _) => assert URI == URI_KEYS[1];
      case NoView =>
    }
  }

  lemma KeysApart(c: Crypto, v: View, w: View)
    requires v != NoView && w != NoView && KeysOf(v) != KeysOf(w)
    ensures !Same(JObj(RecordOf(c, v)), JObj(RecordOf(c, w)))
  {
    OwnKeyIsOwn(v, w);
    var a, b, k := RecordOf(c, v), RecordOf(c, w), OwnKey(v);
    RecordHas(KeysOf(v), ValuesOf(c, v), k);
    RecordHas(KeysOf(w), ValuesOf(c, w), k);
    assert a[Find(a, k)].key == k;
  }

  /** Both text, both data, both inline or both by-uri. */
  predicate SameKind(v: View, w: View) {
    v.TextView? == w.TextView? && v.DataView? == w.DataView? && v.InlineView? == w.InlineView? && v.UriView? == w.UriView?
  }

  lemma SameKeysSameKind(v: View, w: View)
    requires v != NoView && w != NoView && KeysOf(v) == KeysOf(w)
    ensures SameKind(v, w)
  {
    OwnKeyIsOwn(v, w);
    OwnKeyIsOwn(w, v);
    assert TEXT[0] == 0x74 && DATA[0] == 0x64;
  }

  /** The same kind with the same values, an inline content taken by its digest. */
  lemma SameKindCommits(c: Crypto, v: View, w: View)
    requires v != NoView && w != NoView && KeysOf(v) == KeysOf(w)
    ensures var vs, ws := ValuesOf(c, v), ValuesOf(c, w);
            (forall i | 0 <= i < |vs| :: Same(vs[i], ws[i])) <==> SameView(v, w) || InlineCollision(c, v, w)
  {
    SameKeysSameKind(v, w);
    if v.InlineView? {
      ChainGuarantees.SameDigest(c, v.content, w.content);
    }
    var vs, ws := ValuesOf(c, v), ValuesOf(c, w);
    if forall i | 0 <= i < |vs| :: Same(vs[i], ws[i]) {
      assert Same(vs[1], ws[1]);
      if v.InlineView? {
        assert Same(vs[2], ws[2]) && Same(vs[3], ws[3]);
      } else if v.UriView? {
        assert Same(vs[2], ws[2]) && Same(vs[3], ws[3]) && Same(vs[4], ws[4]);
      }
    }
  }

  lemma ViewCommits(c: Crypto, v: View, w: View)
    requires v != NoView && w != NoView
    ensures Same(JObj(RecordOf(c, v)), JObj(RecordOf(c, w))) <==> SameView(v, w) || InlineCollision(c, v, w)
  {
    if KeysOf(v) != KeysOf(w) {
      KeysApart(c, v, w);
    } else {
      KeysDistinct(v);
      RecordSame(KeysOf(v), ValuesOf(c, v), ValuesOf(c, w));
      SameKindCommits(c, v, w);
    }
  }

  /** The canonical bytes of a supported part's descriptor. */
  function PartBytes(c: Crypto, part: Part): (b: Bytes)
    requires PartToDescriptor(c, part).Some?
  {
    JcsBytes(JObj(PartToDescriptor(c, part).value))
  }

  lemma PartDescriptorValid(c: Crypto, part: Part)
    requires PartToDescriptor(c, part).Some? && ValidMembers(part)
    ensures ValidMembers(PartToDescriptor(c, part).value)
  {
    var v := ViewOf(part);
    DescriptorOfView(c, part);
    ViewValid(part);
    KeysDistinct(v);
    assert forall j | 0 <= j < |ValuesOf(c, v)| :: Valid(ValuesOf(c, v)[j]);
    assert UniqueKeys(RecordOf(c, v));
  }

  /** Supported parts have one descriptor exactly when they say the same or two inline contents collide. */
  lemma PartCommits(c: Crypto, part: Part, other: Part)
    requires PartToDescriptor(c, part).Some? && ValidMembers(part)
    requires PartToDescriptor(c, other).Some? && ValidMembers(other)
    ensures PartBytes(c, part) == PartBytes(c, other) <==>
            SameView(ViewOf(part), ViewOf(other)) || InlineCollision(c, ViewOf(part), ViewOf(other))
  {
    PartDescriptorValid(c, part);
    PartDescriptorValid(c, other);
    JcsBytesInjective(JObj(PartToDescriptor(c, part).value), JObj(PartToDescriptor(c, other).value));
    DescriptorOfView(c, part);
    DescriptorOfView(c, other);
    ViewCommits(c, ViewOf(part), ViewOf(other));
  }

  lemma KindsSayOther(c: Crypto, v: View, w: View)
    requires v != NoView && w != NoView && !SameKind(v, w)
    ensures !SameView(v, w) && !InlineCollision(c, v, w)
  {
  }

  /** Text, data, inline and by-uri parts never share a descriptor. */
  lemma KindsApart(c: Crypto, part: Part, other: Part)
    requires PartToDescriptor(c, part).Some? && ValidMembers(part)
    requires PartToDescriptor(c, other).Some? && ValidMembers(other)
    requires !SameKind(ViewOf(part), ViewOf(other))
    ensures PartBytes(c, part) != PartBytes(c, other)
  {
    PartCommits(c, part, other);
    DescriptorOfView(c, part);
    DescriptorOfView(c, other);
    KindsSayOther(c, ViewOf(part), ViewOf(other));
  }

  lemma DescriptorValid(c: Crypto, parts: seq<Part>)
    requires Supported(c, parts) && forall i | 0 <= i < |parts| :: ValidMembers(parts[i])
    ensures Valid(Descriptor(c, parts))
  {
    var ds := Descriptor(c, parts).members[0].val.items;
    forall i | 0 <= i < |ds| ensures Valid(ds[i]) {
      PartDescriptorValid(c, parts[i]);
    }
    assert Valid(JArr(ds));
  }

  lemma DescriptorSame(c: Crypto, parts: seq<Part>, others: seq<Part>)
    requires Supported(c, parts) && Supported(c, others)
    ensures Same(Descriptor(c, parts), Descriptor(c, others)) <==>
            && |parts| == |others|
            && forall i | 0 <= i < |parts| ::
                 Same(JObj(PartToDescriptor(c, parts[i]).value), JObj(PartToDescriptor(c, others[i]).value))
  {
    var a, b := Descriptor(c, parts).members, Descriptor(c, others).members;
    assert Find(a, PARTS) == 0 && Find(b, PARTS) == 0;
    var ds, es := a[0].val.items, b[0].val.items;
    assert Same(JObj(a), JObj(b)) <==> Same(JArr(ds), JArr(es)) by {
      if Same(JObj(a), JObj(b)) {
        assert Same(a[0].val, b[Find(b, a[0].key)].val);
      }
    }
    assert forall i | 0 <= i < |parts| :: ds[i] == JObj(PartToDescriptor(c, parts[i]).value);
    assert forall i | 0 <= i < |others| :: es[i] == JObj(PartToDescriptor(c, others[i]).value);
  }

  /** Part by part in order, the same said, or different inline contents of one digest. */
  ghost predicate SameParts(c: Crypto, parts: seq<Part>, others: seq<Part>) {
    && |parts| == |others|
    && forall i | 0 <= i < |parts| ::
         SameView(ViewOf(parts[i]), ViewOf(others[i])) || InlineCollision(c, ViewOf(parts[i]), ViewOf(others[i]))
  }

  /**
   * Supported artifacts have the same descriptor bytes exactly when they say the same, part by
   * part in order, apart from inline contents that collide under the digest. Nothing else is lost.
   */
  lemma DescriptorCommits(c: Crypto, parts: seq<Part>, others: seq<Part>)
    requires Supported(c, parts) && forall i | 0 <= i < |parts| :: ValidMembers(parts[i])
    requires Supported(c, others) && forall i | 0 <= i < |others| :: ValidMembers(others[i])
    ensures JcsBytes(Descriptor(c, parts)) == JcsBytes(Descriptor(c, others)) <==> SameParts(c, parts, others)
  {
    DescriptorValid(c, parts);
    DescriptorValid(c, others);
    JcsBytesInjective(Descriptor(c, parts), Descriptor(c, others));
    DescriptorSame(c, parts, others);
    forall i | 0 <= i < |parts| && i < |others|
      ensures Same(JObj(PartToDescriptor(c, parts[i]).value), JObj(PartToDescriptor(c, others[i]).value)) <==>
              SameView(ViewOf(parts[i]), ViewOf(others[i])) || InlineCollision(c, ViewOf(parts[i]), ViewOf(others[i]))
    {
      DescriptorOfView(c, parts[i]);
      DescriptorOfView(c, others[i]);
      ViewCommits(c, ViewOf(parts[i]), ViewOf(others[i]));
    }
  }

  /**
   * Supported artifacts have one `descriptor_hex` exactly when they say the same, inline
   * collisions apart, and one `outputs_hash` exactly then or when the descriptors collide.
   */
  lemma ArtifactExact(c: Crypto, parts: seq<Part>, others: seq<Part>)
    requires Supported(c, parts) && forall i | 0 <= i < |parts| :: ValidMembers(parts[i])
    requires Supported(c, others) && forall i | 0 <= i < |others| :: ValidMembers(others[i])
    ensures ArtifactOf(c, parts).descriptorHex == ArtifactOf(c, others).descriptorHex <==> SameParts(c, parts, others)
    ensures ArtifactOf(c, parts).outputsHash == ArtifactOf(c, others).outputsHash <==>
            || SameParts(c, parts, others)
            || ChainGuarantees.Collision(c, JcsBytes(Descriptor(c, parts)), JcsBytes(Descriptor(c, others)))
  {
    DescriptorCommits(c, parts, others);
    HexInjective(JcsBytes(Descriptor(c, parts)), JcsBytes(Descriptor(c, others)));
    ChainGuarantees.SameDigest(c, JcsBytes(Descriptor(c, parts)), JcsBytes(Descriptor(c, others)));
  }

  // ---- What a reader of a descriptor finds ----

  /** The value under a name, null when there is none. */
  function FieldOrNull(ms: seq<Member>, k: Str): (v: JSON) {
    if Get(ms, k) == None then JNull else Get(ms, k).value
  }

  lemma RecordReads(keys: seq<Str>, vals: seq<JSON>, k: Str)
    requires |keys| == |vals| && Distinct(keys)
    ensures forall i | 0 <= i < |keys| && keys[i] == k :: Get(Record(keys, vals), k) == Some(vals[i])
    ensures k !in keys ==> Get(Record(keys, vals), k) == None
  {
    var ms := Record(keys, vals);
    RecordHas(keys, vals, k);
    assert UniqueKeys(ms);
    forall i | 0 <= i < |keys| && keys[i] == k ensures Get(ms, k) == Some(vals[i]) {
      FindUnique(ms, i);
    }
  }

  lemma ViewReads(c: Crypto, v: View, k: Str)
    requires v != NoView
    ensures forall i | 0 <= i < |KeysOf(v)| && KeysOf(v)[i] == k :: Get(RecordOf(c, v), k) == Some(ValuesOf(c, v)[i])
    ensures k !in KeysOf(v) ==> Get(RecordOf(c, v), k) == None
  {
    KeysDistinct(v);
    RecordReads(KeysOf(v), ValuesOf(c, v), k);
  }

  /** A text part is described by its kind and text, and by nothing else. */
  lemma TextDescriptor(c: Crypto, part: Part, k: Str)
    requires Get(part, Ascii("kind")) == Some(JStr(Ascii("text")))
    ensures PartToDescriptor(c, part).Some?
    ensures Get(PartToDescriptor(c, part).value, k) ==
            if k == Ascii("kind") then Some(JStr(Ascii("text")))
            else if k == Ascii("text") then Some(FieldOrNull(part, Ascii("text")))
            else None
  {
    DescriptorOfView(c, part);
    ViewReads(c, ViewOf(part), k);
    assert TEXT_KEYS[0] == KIND && TEXT_KEYS[1] == TEXT && KIND[0] != TEXT[0];
  }

  lemma TextIsNotData()
    ensures Ascii("data") != Ascii("text") && Ascii("file") != Ascii("text") && Ascii("file") != Ascii("data")
  {
    assert Ascii("data")[0] == 0x64 && Ascii("text")[0] == 0x74 && Ascii("file")[0] == 0x66;
  }

  /** A data part is described by its kind and data, and by nothing else. */
  lemma DataDescriptor(c: Crypto, part: Part, k: Str)
    requires Get(part, Ascii("kind")) == Some(JStr(Ascii("data")))
    ensures PartToDescriptor(c, part).Some?
    ensures Get(PartToDescriptor(c, part).value, k) ==
            if k == Ascii("kind") then Some(JStr(Ascii("data")))
            else if k == Ascii("data") then Some(FieldOrNull(part, Ascii("data")))
            else None
  {
    TextIsNotData();
    DescriptorOfView(c, part);
    ViewReads(c, ViewOf(part), k);
    assert DATA_KEYS[0] == KIND && DATA_KEYS[1] == DATA && KIND[0] != DATA[0];
  }

  predicate IsFilePart(part: Part, file: seq<Member>) {
    Get(part, Ascii("kind")) == Some(JStr(Ascii("file"))) && Get(part, Ascii("file")) == Some(JObj(file))
  }

  /** The file has an address and no inline content. */
  ghost predicate RefersTo(file: seq<Member>, uri: Str) {
    (forall content :: Get(file, Ascii("bytes")) != Some(JStr(content))) && Get(file, Ascii("uri")) == Some(JStr(uri))
  }

  /** The descriptor of a file with inline content, name by name. */
  ghost predicate InlineSays(d: seq<Member>, digest: JSON, mimeType: JSON, name: JSON) {
    forall k ::
      Get(d, k) ==
      if k == Ascii("kind") then Some(JStr(Ascii("file")))
      else if k == Ascii("digest") then Some(digest)
      else if k == Ascii("mimeType") then Some(mimeType)
      else if k == Ascii("name") then Some(name)
      else None
  }

  lemma InlineReads(digest: JSON, mimeType: JSON, name: JSON)
    ensures InlineSays(Record(INLINE_KEYS, [JStr(FILE), digest, mimeType, name]), digest, mimeType, name)
  {
    var vals := [JStr(FILE), digest, mimeType, name];
    KeysDistinct(InlineView([], JNull, JNull));
    assert INLINE_KEYS[0] == Ascii("kind") && INLINE_KEYS[1] == Ascii("digest");
    assert INLINE_KEYS[2] == Ascii("mimeType") && INLINE_KEYS[3] == Ascii("name");
    forall k
      ensures Get(Record(INLINE_KEYS, vals), k) ==
              if k == Ascii("kind") then Some(JStr(Ascii("file")))
              else if k == Ascii("digest") then Some(digest)
              else if k == Ascii("mimeType") then Some(mimeType)
              else if k == Ascii("name") then Some(name)
              else None
    {
      RecordReads(INLINE_KEYS, vals, k);
    }
  }

  /** A file with inline content is described by the hash string of the content, its media type and its name. */
  lemma InlineDescriptor(c: Crypto, part: Part, file: seq<Member>, content: Str) returns (d: seq<Member>)
    requires IsFilePart(part, file) && Get(file, Ascii("bytes")) == Some(JStr(content))
    ensures PartToDescriptor(c, part) == Some(d)
    ensures InlineSays(d, JStr(Digest(c, Base64.LenientDecode(content))),
                       FieldOrNull(file, Ascii("mimeType")), FieldOrNull(file, Ascii("name")))
  {
    TextIsNotData();
    var digest := JStr(Digest(c, Base64.LenientDecode(content)));
    var mimeType, name := FieldOrNull(file, Ascii("mimeType")), FieldOrNull(file, Ascii("name"));
    d := Record(INLINE_KEYS, [JStr(FILE), digest, mimeType, name]);
    InlineReads(digest, mimeType, name);
  }

  /** The descriptor of a file by reference, name by name. */
  ghost predicate UriSays(d: seq<Member>, uri: JSON, declared: JSON, mimeType: JSON, name: JSON) {
    forall k ::
      Get(d, k) ==
      if k == Ascii("kind") then Some(JStr(Ascii("file")))
      else if k == Ascii("uri") then Some(uri)
      else if k == Ascii("declared_digest") then Some(declared)
      else if k == Ascii("mimeType") then Some(mimeType)
      else if k == Ascii("name") then Some(name)
      else None
  }

  lemma UriReads(uri: JSON, declared: JSON, mimeType: JSON, name: JSON)
    ensures UriSays(Record(URI_KEYS, [JStr(FILE), uri, declared, mimeType, name]), uri, declared, mimeType, name)
  {
    var vals := [JStr(FILE), uri, declared, mimeType, name];
    KeysDistinct(UriView([], JNull, JNull, JNull));
    assert URI_KEYS[0] == Ascii("kind") && URI_KEYS[1] == Ascii("uri") && URI_KEYS[2] == Ascii("declared_digest");
    assert URI_KEYS[3] == Ascii("mimeType") && URI_KEYS[4] == Ascii("name");
    forall k
      ensures Get(Record(URI_KEYS, vals), k) ==
              if k == Ascii("kind") then Some(JStr(Ascii("file")))
              else if k == Ascii("uri") then Some(uri)
              else if k == Ascii("declared_digest") then Some(declared)
              else if k == Ascii("mimeType") then Some(mimeType)
              else if k == Ascii("name") then Some(name)
              else None
    {
      RecordReads(URI_KEYS, vals, k);
    }
  }

  /** A file by reference is described by its address, declared digest, media type and name. */
  lemma UriDescriptor(c: Crypto, part: Part, file: seq<Member>, uri: Str) returns (d: seq<Member>)
    requires IsFilePart(part, file) && RefersTo(file, uri)
    ensures PartToDescriptor(c, part) == Some(d)
    ensures UriSays(d, JStr(uri), FieldOrNull(file, Ascii("declared_digest")),
                    FieldOrNull(file, Ascii("mimeType")), FieldOrNull(file, Ascii("name")))
  {
    TextIsNotData();
    var declared := FieldOrNull(file, Ascii("declared_digest"));
    var mimeType, name := FieldOrNull(file, Ascii("mimeType")), FieldOrNull(file, Ascii("name"));
    d := Record(URI_KEYS, [JStr(FILE), JStr(uri), declared, mimeType, name]);
    UriReads(JStr(uri), declared, mimeType, name);
  }

  /** A file with content or an address that is text. */
  ghost predicate DescribesFile(file: seq<Member>) {
    || (exists content :: Get(file, Ascii("bytes")) == Some(JStr(content)))
    || (exists uri :: Get(file, Ascii("uri")) == Some(JStr(uri)))
  }

  predicate IsTextPart(part: Part) {
    Get(part, Ascii("kind")) == Some(JStr(Ascii("text")))
  }

  predicate IsDataPart(part: Part) {
    Get(part, Ascii("kind")) == Some(JStr(Ascii("data")))
  }

  /** A part is supported exactly when it is text, data, or a file with content or an address. */
  lemma SupportedExactly(c: Crypto, part: Part)
    ensures PartToDescriptor(c, part).Some? <==>
            IsTextPart(part) || IsDataPart(part) || exists file :: IsFilePart(part, file) && DescribesFile(file)
  {
    TextIsNotData();
    match Get(part, FILE)
    case Some(JObj(file)) =>
      if IsFilePart(part, file) {
        FileSupported(c, part, file);
      }
    case _ =>
  }

  lemma FileSupported(c: Crypto, part: Part, file: seq<Member>)
    requires IsFilePart(part, file)
    ensures PartToDescriptor(c, part).Some? <==> DescribesFile(file)
  {
    TextIsNotData();
    match (Get(file, BYTES), Get(file, URI))
    case (Some(JStr(content)), _) => assert DescribesFile(file);
    case (_, Some(JStr(uri))) => assert DescribesFile(file);
    case _ =>
  }

  /** An artifact is described under `parts` alone, by its parts' descriptors in order. */
  lemma ArtifactDescriptor(c: Crypto, parts: seq<Part>, k: Str)
    requires Supported(c, parts)
    ensures Descriptor(c, parts).JObj?
    ensures k != Ascii("parts") ==> Get(Descriptor(c, parts).members, k) == None
    ensures var ds := Get(Descriptor(c, parts).members, Ascii("parts"));
            && ds.Some? && ds.value.JArr? && |ds.value.items| == |parts|
            && forall i | 0 <= i < |parts| :: ds.value.items[i] == JObj(PartToDescriptor(c, parts[i]).value)
  {
    var ms := Descriptor(c, parts).members;
    assert Find(ms, PARTS) == 0;
    if HasKey(ms, k) {
      assert ms[Find(ms, k)].key == k;
    }
  }
}
