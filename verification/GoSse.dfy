/** Go's `SSEOutputsHash`: it keeps bytes, reads results as raw JSON and has another library canonicalise them. */
module GoSse {
  import opened Text
  import opened Json
  import opened JsonParse
  import opened Jcs
  import opened DecodedJson
  import opened Sse
  import opened SseCommit
  import opened Verifier
  import JcsCanon
  import JcsOctets
  import JcsRoundTrip
  import Utf8

  /** The library's canonicaliser: the bytes of a JSON value to canonical bytes, or an error. */
  type Transform = Str -> Option<Bytes>

  /** The raw `result` of a message that is a JSON object with one; any other message is skipped. */
  function RawResultOf(msg: Str): (r: Option<Str>) {
    RawMember(msg, RESULT)
  }

  function RawResults(msgs: seq<Str>): (raws: seq<Str>) {
    if msgs == [] then []
    else match RawResultOf(msgs[|msgs| - 1])
      case None => RawResults(msgs[..|msgs| - 1])
      case Some(raw) => RawResults(msgs[..|msgs| - 1]) + [raw]
  }

  /** Every raw text canonicalised, or an error when one is refused. */
  function Canonicalised(transform: Transform, raws: seq<Str>): (parts: Option<seq<Bytes>>) {
    if raws == [] then Some([])
    else match (Canonicalised(transform, raws[..|raws| - 1]), transform(raws[|raws| - 1]))
      case (Some(parts), Some(part)) => Some(parts + [part])
      case _ => None
  }

  /** All are canonicalised exactly when each is. */
  lemma {:induction false} CanonicalisedExactly(transform: Transform, raws: seq<Str>, parts: seq<Bytes>)
    ensures Canonicalised(transform, raws) == Some(parts) <==>
            |parts| == |raws| && forall i | 0 <= i < |raws| :: transform(raws[i]) == Some(parts[i])
  {
    if raws != [] && parts != [] {
      var n, m := |raws| - 1, |parts| - 1;
      CanonicalisedExactly(transform, raws[..n], parts[..m]);
      assert parts == parts[..m] + [parts[m]];
    }
  }

  lemma {:induction false} RefusedOne(transform: Transform, raws: seq<Str>, i: nat)
    requires i < |raws| && transform(raws[i]) == None
    ensures Canonicalised(transform, raws) == None
  {
    if i < |raws| - 1 {
      RefusedOne(transform, raws[..|raws| - 1], i);
    }
  }

  lemma CanonicalisedLast(transform: Transform, raws: seq<Str>, raw: Str)
    ensures Canonicalised(transform, raws + [raw]) ==
            match (Canonicalised(transform, raws), transform(raw))
            case (Some(parts), Some(part)) => Some(parts + [part])
            case _ => None
  {
    assert (raws + [raw])[..|raws|] == raws;
  }

  lemma RawResultsLast(msgs: seq<Str>, i: nat)
    requires i < |msgs|
    ensures RawResults(msgs[..i + 1]) ==
            match RawResultOf(msgs[i]) case None => RawResults(msgs[..i]) case Some(raw) => RawResults(msgs[..i]) + [raw]
  {
    assert msgs[..i + 1][..i] == msgs[..i];
  }

  lemma {:induction false} RawResultsHave(msgs: seq<Str>, i: nat) returns (k: nat)
    requires i < |msgs| && RawResultOf(msgs[i]).Some?
    ensures k < |RawResults(msgs)| && RawResults(msgs)[k] == RawResultOf(msgs[i]).value
  {
    if i == |msgs| - 1 {
      k := |RawResults(msgs)| - 1;
    } else {
      k := RawResultsHave(msgs[..|msgs| - 1], i);
    }
  }

  /** The loop over messages; the first refusal is an error. */
  method CollectRawParts(transform: Transform, messages: seq<Str>) returns (parts: Option<seq<Bytes>>)
    ensures parts == Canonicalised(transform, RawResults(messages))
  {
    var collected: seq<Bytes> := [];
    for i := 0 to |messages|
      invariant Canonicalised(transform, RawResults(messages[..i])) == Some(collected)
    {
      RawResultsLast(messages, i);
      var result := RawResultOf(messages[i]);
      if result.Some? {
        var part := transform(result.value);
        if part.None? {
          ghost var k := RawResultsHave(messages, i);
          RefusedOne(transform, RawResults(messages), k);
          return None;
        }
        CanonicalisedLast(transform, RawResults(messages[..i]), result.value);
        collected := collected + [part.value];
      }
    }
    assert messages[..|messages|] == messages;
    return Some(collected);
  }

  datatype GoSseResult = GoCommitment(decodedHex: Str, outputsHash: Str) | GoError

  /** The committed bytes of a mode, `None` for an error. */
  function GoCommittedBytes(transform: Transform, raw: Bytes, rpc: bool): (b: Option<Str>) {
    if !rpc then Some(GoCommitted(raw))
    else match Canonicalised(transform, RawResults(GoMessages(raw)))
      case None => None
      case Some(parts) => Some(Join(parts, LF))
  }

  /** `SSEOutputsHash` */
  method GoSseOutputsHash(c: Crypto, transform: Transform, raw: Bytes, mode: Str) returns (r: GoSseResult)
    ensures match ModeOf(mode)
            case None => r == GoError
            case Some(rpc) =>
              match GoCommittedBytes(transform, raw, rpc)
              case None => r == GoError
              case Some(b) => IsBytes(b) && r == GoCommitment(Hex(b), Digest(c, b))
  {
    var messages := SseDecode(raw);
    var committed: Bytes;
    if mode == SSE {
      DecodersAgree(raw);
      JoinBytes(messages, LF);
      committed := Join(messages, LF);
      assert |SSE| == 3 && |SSE_JSONRPC| == 11;
    } else if mode == SSE_JSONRPC {
      var parts := CollectRawParts(transform, messages);
      if parts.None? {
        return GoError;
      }
      JoinBytes(parts.value, LF);
      committed := Join(parts.value, LF);
    } else {
      return GoError;
    }
    return GoCommitment(Hex(committed), Digest(c, committed));
  }

  // ---- Agreement in `sse-jsonrpc` mode ----

  /** On these bytes the library does what RFC 8785 says, for the value their text stands for. */
  ghost predicate Canonicalises(transform: Transform, raw: Str) {
    IsBytes(raw) && Parse(Utf8.ToText(raw)).Some? ==> transform(raw) == Some(JcsBytes(Parse(Utf8.ToText(raw)).value))
  }

  lemma RawResultAgrees(msg: Bytes)
    ensures match RawResultOf(msg)
            case None => ResultOf(Utf8.ToText(msg)) == None
            case Some(raw) =>
              IsBytes(raw) && ResultOf(Utf8.ToText(msg)).Some? && Parse(Utf8.ToText(raw)) == ResultOf(Utf8.ToText(msg))
  {
    RawMemberDecodes(msg, RESULT);
  }

  /** Go finds a result in the messages where TypeScript does, and its bytes decode and parse to it. */
  lemma {:induction false} RawResultsParse(msgs: seq<Str>)
    requires AllBytes(msgs)
    ensures |RawResults(msgs)| == |Results(Texts(msgs))| && AllBytes(RawResults(msgs))
    ensures forall i | 0 <= i < |RawResults(msgs)| ::
              Parse(Utf8.ToText(RawResults(msgs)[i])) == Some(Results(Texts(msgs))[i])
  {
    if msgs != [] {
      var n := |msgs| - 1;
      RawResultsParse(msgs[..n]);
      RawResultAgrees(msgs[n]);
      assert Texts(msgs)[..n] == Texts(msgs[..n]);
    }
  }

  lemma RawPartsAgree(transform: Transform, msgs: seq<Str>)
    requires AllBytes(msgs)
    requires forall i | 0 <= i < |RawResults(msgs)| :: Canonicalises(transform, RawResults(msgs)[i])
    ensures Canonicalised(transform, RawResults(msgs)) == Some(ResultBytes(Results(Texts(msgs))))
  {
    var raws, rs := RawResults(msgs), Results(Texts(msgs));
    RawResultsParse(msgs);
    forall i | 0 <= i < |raws| ensures transform(raws[i]) == Some(ResultBytes(rs)[i]) {
      assert Canonicalises(transform, raws[i]);
    }
    CanonicalisedExactly(transform, raws, ResultBytes(rs));
  }

  /**
   * If the library canonicalises the results of a stream as RFC 8785 says, Go commits to the
   * bytes TypeScript commits to, on every stream: reading members raw from bytes, with any
   * spacing, nesting, repeated names or ill-formed UTF-8, finds the same results in the same
   * messages.
   */
  lemma RpcCommitmentsAgree(transform: Transform, raw: Bytes)
    requires forall i | 0 <= i < |RawResults(GoMessages(raw))| :: Canonicalises(transform, RawResults(GoMessages(raw))[i])
    ensures GoCommittedBytes(transform, raw, true) == Some(CommittedBytes(raw, true))
  {
    DecodersAgree(raw);
    RawPartsAgree(transform, GoMessages(raw));
  }

  // ---- Octets as sent ----

  lemma {:induction false} CountJoin(parts: seq<Str>)
    requires parts != []
    ensures |parts| - 1 <= multiset(Join(parts, LF))[LF]
    ensures multiset(Join(parts, LF))[LF] == |parts| - 1 <==> AllLack(parts, LF)
  {
    if |parts| == 1 {
      assert LF in parts[0] <==> LF in multiset(parts[0]);
    } else {
      var rest := parts[1..];
      CountJoin(rest);
      assert multiset(Join(parts, LF)) == multiset(parts[0]) + multiset([LF]) + multiset(Join(rest, LF));
      assert LF in parts[0] <==> LF in multiset(parts[0]);
      assert parts == [parts[0]] + rest;
    }
  }

  /** Lists of one length, one of them free of LF, have one join exactly when they are one list. */
  lemma SameLengthJoin(a: seq<Str>, b: seq<Str>)
    requires |a| == |b| && AllLack(b, LF)
    ensures Join(a, LF) == Join(b, LF) <==> a == b
  {
    if Join(a, LF) == Join(b, LF) && a != [] {
      CountJoin(a);
      CountJoin(b);
      JoinInjective(a, b, LF);
    }
  }

  /**
   * The committed bytes are the results' octets as they were sent exactly when every result
   * was sent in canonical form.
   */
  lemma WireOctetsExactly(raw: Bytes)
    ensures var raws, rs := RawResults(GoMessages(raw)), Results(TsMessages(raw));
            && |raws| == |rs|
            && (Join(raws, LF) == CommittedBytes(raw, true) <==> forall i | 0 <= i < |rs| :: raws[i] == JcsBytes(rs[i]))
  {
    DecodersAgree(raw);
    RawResultsParse(GoMessages(raw));
    var raws, rs := RawResults(GoMessages(raw)), Results(TsMessages(raw));
    ResultBytesParts(rs);
    SameLengthJoin(raws, ResultBytes(rs));
  }

  // ---- A result printed without sorting ----

  /** The JSON-RPC message of a result, as `JSON.stringify` prints it. */
  function PrintedMessage(v: JSON): (m: Str) {
    Stringify(JObj([Member(RESULT, v)]))
  }

  lemma PrintedText(v: JSON)
    ensures PrintedMessage(v) == [LBRACE] + (Quote(RESULT) + [COLON] + Stringify(v)) + [RBRACE]
  {
    var ms := [Member(RESULT, v)];
    assert MemberTexts(ms) == [MemberText(ms[0])];
  }

  lemma QuotedResultAscii()
    ensures AllAscii(Quote(RESULT))
  {
    assert forall i | 0 <= i < |RESULT| :: 0x61 <= RESULT[i] < 0x7B;
    PlainEscape(RESULT);
  }

  lemma {:induction false} PlainEscape(s: Str)
    requires forall i | 0 <= i < |s| :: 0x61 <= s[i] < 0x7B
    ensures Escape(s) == s
  {
    if s != [] {
      PlainEscape(s[1..]);
      assert s == [s[0]] + s[1..];
    }
  }

  lemma PrintedMessageReads(v: JSON)
    requires Valid(v)
    ensures RawResultOf(PrintedMessage(v)) == Some(Stringify(v)) && ResultOf(PrintedMessage(v)) == Some(v)
    ensures CR !in PrintedMessage(v)
  {
    var ms := [Member(RESULT, v)];
    JcsRoundTrip.ParseEntriesRoundTrip(ms);
    var es := JcsRoundTrip.EntriesOf(ms);
    assert es == [Entry(RESULT, v, Stringify(v))] && es[..0] == [];
    JcsRoundTrip.ValueRoundTrip(JObj(ms), []);
    assert PrintedMessage(v) + [] == PrintedMessage(v);
    FindUnique(ms, 0);
    JcsOctets.StringifyPrintable(JObj(ms));
  }

  lemma AsciiEncodes(t: Str)
    requires AllAscii(t)
    ensures IsBytes(t) && Utf8.ToText(t) == t && Utf8.Encode(t) == t
  {
    AsciiDecodes(t);
    AsciiValid(t);
    Utf8.EncodeDecode(t);
  }

  lemma {:induction false} AsciiValid(b: Bytes)
    requires AllAscii(b)
    ensures Utf8.IsValid(b)
  {
    if b != [] {
      AsciiValid(b[1..]);
      Utf8.ValidAfterAscii(b);
    }
  }

  lemma PrintedIsCanonical(v: JSON)
    requires Valid(v) && AllAscii(Stringify(v))
    ensures Stringify(v) == JcsBytes(v) <==> Canon(v) == v
  {
    AsciiEncodes(Stringify(v));
    JcsOctets.JcsBytesDecode(v);
    JcsCanon.JcsIsStringify(v);
    JcsCanon.JcsRoundTrips(v, []);
    JcsRoundTrip.ValueRoundTrip(v, []);
    assert Stringify(v) + [] == Stringify(v) && JcsString(v) + [] == JcsString(v);
  }

  lemma PrintedMessageAscii(v: JSON)
    requires AllAscii(Stringify(v))
    ensures AllAscii(PrintedMessage(v))
  {
    QuotedResultAscii();
    PrintedText(v);
  }

  /**
   * A result printed by `JSON.stringify`, here in ASCII: its octets as sent are the printed
   * text, and they are what is committed exactly when its members were already in canonical order.
   */
  lemma PrintedResultOctets(v: JSON) returns (raw: Bytes)
    requires Valid(v) && AllAscii(Stringify(v))
    ensures raw == EncodeStream([PrintedMessage(v)])
    ensures RawResults(GoMessages(raw)) == [Stringify(v)] && CommittedBytes(raw, true) == JcsBytes(v)
    ensures Stringify(v) == CommittedBytes(raw, true) <==> Canon(v) == v
  {
    var m := PrintedMessage(v);
    PrintedMessageAscii(v);
    AsciiEncodes(m);
    PrintedMessageReads(v);
    raw := StreamRoundTrip([m]);
    OneResult(m, v);
    PrintedIsCanonical(v);
  }

  lemma OneResult(m: Bytes, v: JSON)
    requires RawResultOf(m) == Some(Stringify(v)) && ResultOf(m) == Some(v) && Utf8.ToText(m) == m
    ensures RawResults([m]) == [Stringify(v)]
    ensures AllBytes([m]) && Join(ResultBytes(Results(Texts([m]))), LF) == JcsBytes(v)
  {
    assert [m][..0] == [];
    assert Texts([m]) == [m];
    assert Results([m]) == [v];
    assert ResultBytes([v]) == [JcsBytes(v)];
  }
}
