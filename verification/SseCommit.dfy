/**
 * What an event stream's hash commits to: `sse` mode, `sse-jsonrpc` mode, and what leaves the
 * commitment unchanged.
 */
module SseCommit {
  import opened Text
  import opened Json
  import opened JsonParse
  import opened Jcs
  import opened JcsOctets
  import opened SseLines
  import opened SseEvents
  import opened Sse
  import opened SseUtf8
  import opened Verifier
  import Base64
  import ChainGuarantees
  import Utf8

  const RESULT := Ascii("result")
  const SSE := Ascii("sse")
  const SSE_JSONRPC := Ascii("sse-jsonrpc")

  // ---- sse ----

  function TsCommitted(raw: Bytes): (b: Bytes) {
    Utf8.Encode(Join(TsMessages(raw), LF))
  }

  /** Go's `sse` mode */
  function GoCommitted(raw: Bytes): (b: Str) {
    Join(GoMessages(raw), LF)
  }

  /** Apart from no value at all against a single empty one. */
  ghost predicate SameData(a: seq<Str>, b: seq<Str>) {
    a == b || (a == [] && b == [[]]) || (a == [[]] && b == [])
  }

  lemma CommittedText(raw: Bytes)
    ensures Utf8.WellFormed(Join(TsMessages(raw), LF))
    ensures Utf8.ToText(TsCommitted(raw)) == Join(TsMessages(raw), LF)
    ensures IsBytes(GoCommitted(raw)) && TsCommitted(raw) == Utf8.Encode(Utf8.ToText(GoCommitted(raw)))
  {
    DecodersAgree(raw);
    JoinText(GoMessages(raw));
    Utf8.EncodeDecode(GoCommitted(raw));
    Utf8.DecodeEncode(Join(TsMessages(raw), LF));
  }

  /**
   * In `sse` mode two streams commit to the same bytes exactly when the data lines they
   * dispatch have the same values, message boundaries forgotten, apart from no value at all
   * against a single empty one. TypeScript compares the texts of what Go compares.
   */
  lemma CommitmentExact(raw: Bytes, other: Bytes)
    ensures TsCommitted(raw) == TsCommitted(other) <==> SameData(TsData(raw), TsData(other))
    ensures GoCommitted(raw) == GoCommitted(other) <==> SameData(GoData(raw), GoData(other))
    ensures AllBytes(GoData(raw)) && TsData(raw) == Texts(GoData(raw))
  {
    CommittedText(raw);
    CommittedText(other);
    JoinedData(raw);
    JoinedData(other);
    DataAgrees(raw);
    DataLacksLineFeeds(raw);
    DataLacksLineFeeds(other);
    JoinInjective(TsData(raw), TsData(other), LF);
    JoinInjective(GoData(raw), GoData(other), LF);
  }

  /**
   * The two implementations commit to the same bytes exactly when every data line they
   * dispatch has a valid UTF-8 value; then, or when the two commitments collide, and only
   * then, their hashes agree. A valid UTF-8 stream always meets this.
   */
  lemma CommitmentsAgree(c: Crypto, raw: Bytes)
    ensures IsBytes(GoCommitted(raw))
    ensures TsCommitted(raw) == GoCommitted(raw) <==> AllUtf8(GoData(raw))
    ensures Digest(c, TsCommitted(raw)) == Digest(c, GoCommitted(raw)) <==>
            AllUtf8(GoData(raw)) || ChainGuarantees.Collision(c, TsCommitted(raw), GoCommitted(raw))
    ensures Utf8.IsValid(raw) ==> AllUtf8(GoData(raw))
  {
    CommittedText(raw);
    Utf8.EncodeDecode(GoCommitted(raw));
    JoinedData(raw);
    DataAgrees(raw);
    JoinValid(GoData(raw));
    ChainGuarantees.SameDigest(c, TsCommitted(raw), GoCommitted(raw));
    if Utf8.IsValid(raw) {
      DataValid(raw);
    }
  }

  // ---- sse-jsonrpc ----

  /** The `result` of a message that is a JSON object with one; any other message is skipped. */
  function ResultOf(msg: Str): (r: Option<JSON>) {
    match Parse(msg)
    case Some(JObj(ms)) => Get(ms, RESULT)
    case _ => None
  }

  /** Only a message that is an object has a result: its value under that name. */
  lemma ResultIs(msg: Str, v: JSON)
    ensures ResultOf(msg) == Some(v) <==>
            exists ms :: Parse(msg) == Some(JObj(ms)) && Get(ms, Ascii("result")) == Some(v)
  {
    if ResultOf(msg) == Some(v) {
      assert Parse(msg) == Some(JObj(Parse(msg).value.members));
    }
  }

  function Results(msgs: seq<Str>): (rs: seq<JSON>) {
    if msgs == [] then []
    else match ResultOf(msgs[|msgs| - 1])
      case None => Results(msgs[..|msgs| - 1])
      case Some(v) => Results(msgs[..|msgs| - 1]) + [v]
  }

  function ResultBytes(rs: seq<JSON>): (parts: seq<Bytes>) {
    seq(|rs|, i requires 0 <= i < |rs| => JcsBytes(rs[i]))
  }

  lemma ResultsNext(msgs: seq<Str>, i: nat)
    requires i < |msgs|
    ensures Results(msgs[..i + 1]) ==
            match ResultOf(msgs[i]) case None => Results(msgs[..i]) case Some(v) => Results(msgs[..i]) + [v]
  {
    assert msgs[..i + 1][..i] == msgs[..i];
  }

  lemma ResultBytesNext(rs: seq<JSON>, v: JSON)
    ensures ResultBytes(rs + [v]) == ResultBytes(rs) + [JcsBytes(v)]
  {
  }

  method CollectParts(messages: seq<Str>) returns (parts: seq<Bytes>)
    ensures parts == ResultBytes(Results(messages))
  {
    parts := [];
    for i := 0 to |messages|
      invariant parts == ResultBytes(Results(messages[..i]))
    {
      ResultsNext(messages, i);
      var parsed := Parse(messages[i]);
      if parsed.Some? && parsed.value.JObj? && HasKey(parsed.value.members, RESULT) {
        var result := parsed.value.members[Find(parsed.value.members, RESULT)].val;
        ResultBytesNext(Results(messages[..i]), result);
        parts := parts + [JcsBytes(result)];
      }
    }
    assert messages[..|messages|] == messages;
  }

  lemma JoinLonger(parts: seq<Str>, i: nat)
    requires i < |parts|
    ensures Join(parts[..i + 1], LF) == Join(parts[..i], LF) + (if i > 0 then [LF] else []) + parts[i]
    ensures |Join(parts[..i + 1], LF)| <= |Join(parts, LF)|
  {
    assert parts[..i + 1] == parts[..i] + [parts[i]];
    JoinAppend(parts[..i], [parts[i]], LF);
    assert parts == parts[..i + 1] + parts[i + 1..];
    JoinAppend(parts[..i + 1], parts[i + 1..], LF);
  }

  /** Join parts with LF in a buffer allocated at its final length. */
  method JoinParts(parts: seq<Bytes>) returns (committed: Bytes)
    ensures committed == Join(parts, LF)
  {
    var totalLen := 0;
    for i := 0 to |parts|
      invariant totalLen == |Join(parts[..i], LF)|
    {
      JoinLonger(parts, i);
      totalLen := totalLen + |parts[i]| + (if i > 0 then 1 else 0);
    }
    assert parts[..|parts|] == parts;
    var buffer := new Byte[totalLen](_ => 0);
    var offset := 0;
    for i := 0 to |parts|
      invariant offset == |Join(parts[..i], LF)| <= totalLen
      invariant buffer[..offset] == Join(parts[..i], LF)
    {
      JoinLonger(parts, i);
      ghost var done := Join(parts[..i], LF);
      if i > 0 {
        buffer[offset] := LF;
        offset := offset + 1;
      }
      assert buffer[..offset] == done + (if i > 0 then [LF] else []);
      CopyInto(buffer, offset, parts[i]);
      offset := offset + |parts[i]|;
    }
    assert offset == buffer.Length;
    committed := buffer[..];
  }

  /** `part.copy(buffer, offset)` */
  method CopyInto(buffer: array<Byte>, offset: nat, part: Bytes)
    requires offset + |part| <= buffer.Length
    modifies buffer
    ensures buffer[..offset + |part|] == old(buffer[..offset]) + part
    ensures buffer[offset + |part|..] == old(buffer[offset + |part|..])
  {
    forall k | 0 <= k < |part| {
      buffer[offset + k] := part[k];
    }
  }

  // ---- The command ----

  datatype SseResult = Committed(decodedHex: Str, outputsHash: Str) | UnsupportedMode

  function CommittedBytes(raw: Bytes, rpc: bool): (b: Str) {
    if rpc then Join(ResultBytes(Results(TsMessages(raw))), LF) else TsCommitted(raw)
  }

  /** What the command returns in a mode it knows. */
  function Output(c: Crypto, raw: Bytes, rpc: bool): (r: SseResult)
    ensures r.Committed?
  {
    CommittedIsBytes(raw, rpc);
    Committed(Hex(CommittedBytes(raw, rpc)), Digest(c, CommittedBytes(raw, rpc)))
  }

  lemma CommittedIsBytes(raw: Bytes, rpc: bool)
    ensures IsBytes(CommittedBytes(raw, rpc))
  {
    if rpc {
      JoinBytes(ResultBytes(Results(TsMessages(raw))), LF);
    }
  }

  /** Whether a mode takes JSON-RPC results; `None` for a name that is no mode. */
  function ModeOf(mode: Str): (rpc: Option<bool>) {
    if mode == Ascii("sse") then Some(false) else if mode == Ascii("sse-jsonrpc") then Some(true) else None
  }

  /** `sseOutputsHash` */
  method SseOutputsHash(c: Crypto, rawB64: Str, mode: Str) returns (r: SseResult)
    ensures r == match ModeOf(mode)
                 case None => UnsupportedMode
                 case Some(rpc) => Output(c, Base64.LenientDecode(rawB64), rpc)
  {
    if mode != SSE && mode != SSE_JSONRPC {
      return UnsupportedMode;
    }
    assert |SSE| == 3 && |SSE_JSONRPC| == 11;
    var raw := Base64.LenientDecode(rawB64);
    var messages := ParseSse(raw);
    var committed: Bytes;
    if mode == SSE {
      committed := Utf8.Encode(Join(messages, LF));
    } else {
      var parts := CollectParts(messages);
      committed := JoinParts(parts);
    }
    return Committed(Hex(committed), Digest(c, committed));
  }

  // ---- Exact commitment of sse-jsonrpc ----

  lemma {:induction false} ResultsValid(msgs: seq<Str>)
    ensures forall i | 0 <= i < |Results(msgs)| :: Valid(Results(msgs)[i])
  {
    if msgs != [] {
      var msg := msgs[|msgs| - 1];
      ResultsValid(msgs[..|msgs| - 1]);
      ParseValid(msg);
    }
  }

  ghost predicate SameAll(rs: seq<JSON>, qs: seq<JSON>) {
    |rs| == |qs| && forall i | 0 <= i < |rs| :: Same(rs[i], qs[i])
  }

  lemma ResultBytesParts(rs: seq<JSON>)
    ensures AllLack(ResultBytes(rs), LF)
    ensures ResultBytes(rs) != [[]]
  {
    forall i | 0 <= i < |rs| ensures LF !in ResultBytes(rs)[i] && ResultBytes(rs)[i] != [] {
      JcsBytesDecode(rs[i]);
    }
    if |rs| == 1 {
      assert ResultBytes(rs)[0] != [];
    }
  }

  lemma ResultBytesInjective(rs: seq<JSON>, qs: seq<JSON>)
    requires forall i | 0 <= i < |rs| :: Valid(rs[i])
    requires forall i | 0 <= i < |qs| :: Valid(qs[i])
    ensures ResultBytes(rs) == ResultBytes(qs) <==> SameAll(rs, qs)
  {
    forall i | 0 <= i < |rs| && i < |qs| ensures ResultBytes(rs)[i] == ResultBytes(qs)[i] <==> Same(rs[i], qs[i]) {
      JcsBytesInjective(rs[i], qs[i]);
    }
    if SameAll(rs, qs) {
      assert ResultBytes(rs) == ResultBytes(qs);
    }
  }

  /**
   * In `sse-jsonrpc` mode the committed bytes determine the list of results, in order and
   * number, up to the order of object members: nothing is confused with nothing else.
   */
  lemma RpcCommitmentExact(msgs: seq<Str>, others: seq<Str>)
    ensures Join(ResultBytes(Results(msgs)), LF) == Join(ResultBytes(Results(others)), LF)
            <==> SameAll(Results(msgs), Results(others))
  {
    var rs, qs := Results(msgs), Results(others);
    ResultsValid(msgs);
    ResultsValid(others);
    ResultBytesParts(rs);
    ResultBytesParts(qs);
    ResultBytesInjective(rs, qs);
    JoinInjective(ResultBytes(rs), ResultBytes(qs), LF);
  }

  /** Streams whose commitments are meant to be equal in a mode. */
  ghost predicate SameContent(raw: Bytes, other: Bytes, rpc: bool) {
    if rpc then SameAll(Results(TsMessages(raw)), Results(TsMessages(other))) else SameData(TsData(raw), TsData(other))
  }

  /**
   * The command returns one `decoded_hex` on two streams exactly when they have the same
   * content in its mode, and one `outputs_hash` exactly then or when the committed bytes collide.
   */
  lemma OutputExact(c: Crypto, raw: Bytes, other: Bytes, rpc: bool)
    ensures Output(c, raw, rpc).decodedHex == Output(c, other, rpc).decodedHex <==> SameContent(raw, other, rpc)
    ensures IsBytes(CommittedBytes(raw, rpc)) && IsBytes(CommittedBytes(other, rpc))
    ensures Output(c, raw, rpc).outputsHash == Output(c, other, rpc).outputsHash <==>
            || SameContent(raw, other, rpc)
            || ChainGuarantees.Collision(c, CommittedBytes(raw, rpc), CommittedBytes(other, rpc))
  {
    CommittedIsBytes(raw, rpc);
    CommittedIsBytes(other, rpc);
    HexInjective(CommittedBytes(raw, rpc), CommittedBytes(other, rpc));
    ChainGuarantees.SameDigest(c, CommittedBytes(raw, rpc), CommittedBytes(other, rpc));
    if rpc {
      RpcCommitmentExact(TsMessages(raw), TsMessages(other));
    } else {
      CommitmentExact(raw, other);
    }
  }

  // ---- Re-framing ----

  /** The bytes are these lines and this tail, with or without a BOM, framed unambiguously. */
  ghost predicate Carries(raw: Bytes, fs: seq<Frame>, tail: Str) {
    && Clean(fs) && Unbroken(tail) && !Ambiguous(fs)
    && (raw == [0xEF, 0xBB, 0xBF] + Render(fs, tail) || (raw == Render(fs, tail) && !([0xEF, 0xBB, 0xBF] <= raw)))
  }

  lemma CarriedMessages(raw: Bytes, fs: seq<Frame>, tail: Str)
    requires Carries(raw, fs, tail)
    ensures GoMessages(raw) == Messages(LinesOf(fs))
  {
    var b: Bytes := if [0xEF, 0xBB, 0xBF] <= raw then raw[3..] else raw;
    assert b == Render(fs, tail);
    assert raw == b || raw == [0xEF, 0xBB, 0xBF] + b;
    BomExactly(b);
    ReframedLines(fs, tail);
  }

  /**
   * Two streams, each with or without a BOM, framed unambiguously by any terminators: if they
   * carry the same lines once comments and other framing lines are left out, both decoders
   * dispatch the same messages on both and commit to the same bytes.
   */
  lemma ReframingInvariant(raw: Bytes, fs: seq<Frame>, ft: Str, other: Bytes, gs: seq<Frame>, gt: Str)
    requires Carries(raw, fs, ft) && Carries(other, gs, gt)
    requires WithoutFraming(LinesOf(fs)) == WithoutFraming(LinesOf(gs))
    ensures GoMessages(raw) == GoMessages(other) && TsMessages(raw) == TsMessages(other)
    ensures GoCommitted(raw) == GoCommitted(other)
    ensures forall rpc :: CommittedBytes(raw, rpc) == CommittedBytes(other, rpc)
  {
    CarriedMessages(raw, fs, ft);
    CarriedMessages(other, gs, gt);
    FramingIgnored(LinesOf(fs), []);
    FramingIgnored(LinesOf(gs), []);
    DecodersAgree(raw);
    DecodersAgree(other);
  }

  // ---- Writing a stream and reading it back ----

  const DATA_PREFIX := Ascii("data: ")

  /** A message as `data: ` lines and a blank one. */
  function MessageFrames(m: Str): (fs: seq<Frame>) {
    var ls := Split(m, LF);
    seq(|ls|, i requires 0 <= i < |ls| => Frame(DATA_PREFIX + ls[i], Lf)) + [BLANK_LF]
  }

  function StreamFrames(ms: seq<Str>): (fs: seq<Frame>) {
    if ms == [] then [] else MessageFrames(ms[0]) + StreamFrames(ms[1..])
  }

  function EncodeStream(ms: seq<Str>): (s: Str) {
    Render(StreamFrames(ms), [])
  }

  lemma PrefixedValue(l: Str)
    ensures DataValue(DATA_PREFIX + l) == Some(l)
  {
    DataLineExactly(DATA_PREFIX + l, l);
  }

  lemma {:induction false} EventsOfDataLines(ls: seq<Str>, lines: seq<Str>, rest: seq<Str>, pending: seq<Str>)
    requires |lines| == |ls| && forall i | 0 <= i < |ls| :: lines[i] == DATA_PREFIX + ls[i]
    requires pending + ls != []
    ensures Events(lines + ([[]] + rest), pending) == [pending + ls] + Events(rest, [])
    decreases |ls|
  {
    var all := lines + ([[]] + rest);
    if ls == [] {
      assert all == [[]] + rest;
      assert all[1..] == rest;
      assert pending + ls == pending;
    } else {
      PrefixedValue(ls[0]);
      EventsOfDataLines(ls[1..], lines[1..], rest, pending + [ls[0]]);
      assert all[1..] == lines[1..] + ([[]] + rest);
      assert pending + [ls[0]] + ls[1..] == pending + ls;
    }
  }

  lemma {:induction false} EventsOfStream(ms: seq<Str>)
    ensures JoinAll(Events(LinesOf(StreamFrames(ms)), [])) == ms
  {
    if ms != [] {
      var ls := Split(ms[0], LF);
      var first := MessageFrames(ms[0]);
      var rest := LinesOf(StreamFrames(ms[1..]));
      var lines := seq(|ls|, i requires 0 <= i < |ls| => DATA_PREFIX + ls[i]);
      assert LinesOf(StreamFrames(ms)) == lines + ([[]] + rest);
      EventsOfDataLines(ls, lines, rest, []);
      assert [] + ls == ls;
      EventsOfStream(ms[1..]);
      JoinSplit(ms[0], LF);
      JoinAllAppend([ls], Events(rest, []));
      assert JoinAll([ls]) == [ms[0]];
      assert ms == [ms[0]] + ms[1..];
    }
  }

  lemma {:induction false} SplitLacks(s: Str, sep: Unit, c: Unit)
    requires c !in s
    ensures AllLack(Split(s, sep), c)
    decreases |s|
  {
    var i := IndexOf(s, sep);
    if i < |s| {
      SplitLacks(s[i + 1..], sep, c);
      assert Split(s, sep)[1..] == Split(s[i + 1..], sep);
    }
  }

  lemma MessageFramesClean(m: Str)
    requires CR !in m
    ensures Clean(MessageFrames(m))
  {
    var ls := Split(m, LF);
    JoinSplit(m, LF);
    SplitLacks(m, LF, CR);
    assert Unbroken(DATA_PREFIX);
    forall i | 0 <= i < |ls| ensures Unbroken(DATA_PREFIX + ls[i]) {
      UnbrokenLacks(ls[i]);
    }
  }

  ghost predicate AllLf(fs: seq<Frame>) {
    forall i | 0 <= i < |fs| :: fs[i].end == Lf
  }

  lemma {:induction false} LfUnambiguous(fs: seq<Frame>)
    requires AllLf(fs)
    ensures !Ambiguous(fs)
  {
    if fs != [] {
      LfUnambiguous(fs[1..]);
    }
  }

  lemma {:induction false} StreamFramesClean(ms: seq<Str>)
    requires AllLack(ms, CR)
    ensures Clean(StreamFrames(ms)) && AllLf(StreamFrames(ms))
  {
    if ms != [] {
      MessageFramesClean(ms[0]);
      StreamFramesClean(ms[1..]);
    }
  }

  lemma {:induction false} RenderBytes(fs: seq<Frame>, tail: Str)
    requires IsBytes(tail) && forall i | 0 <= i < |fs| :: IsBytes(fs[i].line)
    ensures IsBytes(Render(fs, tail))
  {
    if fs != [] {
      RenderBytes(fs[1..], tail);
    }
  }

  lemma {:induction false} SplitBytes(s: Str, sep: Unit)
    requires IsBytes(s)
    ensures forall i | 0 <= i < |Split(s, sep)| :: IsBytes(Split(s, sep)[i])
    decreases |s|
  {
    var i := IndexOf(s, sep);
    if i < |s| {
      SplitBytes(s[i + 1..], sep);
      assert Split(s, sep)[1..] == Split(s[i + 1..], sep);
    }
  }

  lemma {:induction false} StreamFramesBytes(ms: seq<Str>)
    requires AllBytes(ms)
    ensures forall i | 0 <= i < |StreamFrames(ms)| :: IsBytes(StreamFrames(ms)[i].line)
  {
    if ms != [] {
      SplitBytes(ms[0], LF);
      assert IsBytes(DATA_PREFIX);
      forall i | 0 <= i < |MessageFrames(ms[0])| ensures IsBytes(MessageFrames(ms[0])[i].line) {
      }
      StreamFramesBytes(ms[1..]);
    }
  }

  /** An encoded stream starts with `d`, so no BOM is taken from it. */
  lemma EncodedStart(ms: seq<Str>)
    ensures EncodeStream(ms) != [] ==> EncodeStream(ms)[0] == 0x64
  {
    if ms != [] {
      var fs := StreamFrames(ms);
      assert fs[0].line == DATA_PREFIX + Split(ms[0], LF)[0];
      assert EncodeStream(ms)[0] == DATA_PREFIX[0];
    }
  }

  /**
   * Writing any CR-free messages as a stream and decoding it gives the same messages: empty
   * ones, those with several lines and those whose lines start with a space included.
   */
  lemma StreamRoundTrip(ms: seq<Str>) returns (raw: Bytes)
    requires AllBytes(ms) && AllLack(ms, CR)
    ensures raw == EncodeStream(ms)
    ensures GoMessages(raw) == ms && TsMessages(raw) == Texts(ms)
  {
    StreamFramesBytes(ms);
    RenderBytes(StreamFrames(ms), []);
    raw := EncodeStream(ms);
    EncodedStart(ms);
    assert StripBom(raw) == raw;
    StreamFramesClean(ms);
    LfUnambiguous(StreamFrames(ms));
    ReframedLines(StreamFrames(ms), []);
    EventsOfStream(ms);
    DecodersAgree(raw);
  }

  /** The UTF-8 encodings of texts. */
  function Encoded(ts: seq<Str>): (ms: seq<Str>)
    ensures AllBytes(ms)
  {
    seq(|ts|, i requires 0 <= i < |ts| => Utf8.Encode(ts[i]))
  }

  /** Texts without lone surrogates, encoded and written as a stream, come back as they were. */
  lemma TextStreamRoundTrip(ts: seq<Str>) returns (raw: Bytes)
    requires AllLack(ts, CR) && forall i | 0 <= i < |ts| :: Utf8.WellFormed(ts[i])
    ensures raw == EncodeStream(Encoded(ts))
    ensures TsMessages(raw) == ts && GoMessages(raw) == Encoded(ts)
  {
    forall i | 0 <= i < |ts| ensures CR !in Encoded(ts)[i] && Utf8.ToText(Encoded(ts)[i]) == ts[i] {
      Utf8.DecodeEncode(ts[i]);
      Utf8.ToTextLacks(Utf8.Encode(ts[i]), CR);
    }
    raw := StreamRoundTrip(Encoded(ts));
    assert Texts(Encoded(ts)) == ts;
  }

  /** What a written stream commits to. */
  lemma WrittenCommits(ms: seq<Str>) returns (raw: Bytes)
    requires AllBytes(ms) && AllLack(ms, CR)
    ensures raw == EncodeStream(ms) && GoMessages(raw) == ms && |TsMessages(raw)| == |ms|
    ensures GoCommitted(raw) == Join(ms, LF)
    ensures IsBytes(Join(ms, LF)) && TsCommitted(raw) == Utf8.Encode(Utf8.ToText(Join(ms, LF)))
  {
    raw := StreamRoundTrip(ms);
    CommittedText(raw);
  }

  /** A message of one line, written before others. */
  lemma OneLineFirst(m: Str, ms: seq<Str>)
    requires LF !in m
    ensures EncodeStream([m] + ms) == DATA_PREFIX + m + [LF, LF] + EncodeStream(ms)
  {
    var line := DATA_PREFIX + m;
    assert ([m] + ms)[1..] == ms;
    OneLineFrames(m);
    TwoFrames(line, StreamFrames(ms));
    Assoc(line, [LF, LF], EncodeStream(ms));
  }

  lemma OneLineFrames(m: Str)
    requires LF !in m
    ensures MessageFrames(m) == [Frame(DATA_PREFIX + m, Lf), BLANK_LF]
  {
    IndexOfAbsent(m, LF);
  }

  lemma TwoFrames(line: Str, rest: seq<Frame>)
    ensures Render([Frame(line, Lf), BLANK_LF] + rest, []) == line + ([LF, LF] + Render(rest, []))
  {
    var frame := Frame(line, Lf);
    assert ([frame, BLANK_LF] + rest)[1..] == [BLANK_LF] + rest && ([BLANK_LF] + rest)[1..] == rest;
    assert Render([BLANK_LF] + rest, []) == [LF] + Render(rest, []);
    assert [LF] + ([LF] + Render(rest, [])) == [LF, LF] + Render(rest, []);
  }

  /** A message of one line, written. */
  lemma OneLineStream(m: Bytes) returns (raw: Bytes)
    requires CR !in m && LF !in m
    ensures raw == DATA_PREFIX + m + [LF, LF]
    ensures GoCommitted(raw) == m && TsCommitted(raw) == Utf8.Encode(Utf8.ToText(m))
  {
    raw := WrittenCommits([m]);
    OneLineFirst(m, []);
    assert [m] + [] == [m];
  }

  lemma BadByteText()
    ensures Utf8.Encode(Utf8.ToText([0xFF])) == [0xEF, 0xBF, 0xBD]
  {
    assert Utf8.ToText([0xFF]) == [0xFFFD];
  }

  /**
   * The stream of one data line holding the byte FF: Go commits to that byte, TypeScript to
   * the encoding of U+FFFD.
   */
  lemma IllFormedDataParts() returns (raw: Bytes)
    ensures raw == DATA_PREFIX + [0xFF] + [LF, LF]
    ensures GoCommitted(raw) == [0xFF] && TsCommitted(raw) == [0xEF, 0xBF, 0xBD]
  {
    BadByteText();
    raw := OneLineStream([0xFF]);
  }

  lemma JoinTwo(a: Str, b: Str)
    ensures Join([a, b], LF) == Join([a + [LF] + b], LF)
  {
    assert [a, b][1..] == [b];
  }

  /** One message of two lines and the two lines as messages: different messages, one commitment. */
  lemma BoundariesForgotten(a: Bytes, b: Bytes) returns (one: Bytes, two: Bytes)
    requires CR !in a && CR !in b
    ensures one == EncodeStream([a + ['\n' as int] + b]) && two == EncodeStream([a, b])
    ensures GoMessages(one) == [a + ['\n' as int] + b] && GoMessages(two) == [a, b] && |TsMessages(one)| != |TsMessages(two)|
    ensures GoCommitted(one) == GoCommitted(two) && TsCommitted(one) == TsCommitted(two)
  {
    one := WrittenCommits([a + [LF] + b]);
    two := WrittenCommits([a, b]);
    JoinTwo(a, b);
  }
}
