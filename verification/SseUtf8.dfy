/** Valid UTF-8 from a stream to the data it dispatches, and from the data to what is committed. */
module SseUtf8 {
  import opened Text
  import opened SseLines
  import opened SseEvents
  import opened Sse
  import Utf8

  ghost predicate AllUtf8(ls: seq<Str>) {
    forall i | 0 <= i < |ls| :: IsBytes(ls[i]) && Utf8.IsValid(ls[i])
  }

  /** The values of the data lines that the Go decoder dispatches. */
  function GoData(raw: Bytes): (vs: seq<Str>) {
    DispatchedData(Lines(StripBom(raw)))
  }

  /** The values of the data lines that the TypeScript decoder dispatches. */
  function TsData(raw: Bytes): (vs: seq<Str>) {
    DispatchedData(LinesAndTail(Utf8.ToText(StripBom(raw))))
  }

  /** A BOM is valid by itself. */
  lemma BomIsValid(raw: Bytes)
    ensures Utf8.IsValid(raw) <==> Utf8.IsValid(StripBom(raw))
  {
    if Utf8.BOM <= raw {
      assert raw == Utf8.BOM + raw[3..];
      Utf8.DecodeStep(Utf8.BOM, raw[3..]);
    }
  }

  lemma AfterBreakValid(x: Byte, rest: Bytes)
    requires Utf8.IsValid(rest)
    ensures IsBytes(AfterBreak(x, rest)) && Utf8.IsValid(AfterBreak(x, rest))
  {
    if rest != [] && rest[0] == LF {
      Utf8.ValidAfterAscii(rest);
    }
  }

  lemma BrokenValid(front: Bytes, x: Byte, rest: Bytes)
    requires Utf8.IsValid(front + [x] + rest) && IsBreak(x)
    ensures Utf8.IsValid(front) && IsBytes(AfterBreak(x, rest)) && Utf8.IsValid(AfterBreak(x, rest))
  {
    Utf8.ToTextAscii(front, x, rest);
    AfterBreakValid(x, rest);
  }

  /** The first line of a valid stream and what follows it are valid. */
  lemma CutValid(b: Bytes, i: nat)
    requires Utf8.IsValid(b) && i < |b| && IsBreak(b[i])
    ensures Utf8.IsValid(b[..i]) && Utf8.IsValid(b[NextStart(b, i)..])
  {
    assert b == b[..i] + [b[i]] + b[i + 1..];
    AfterIsNext(b, i);
    BrokenValid(b[..i], b[i], b[i + 1..]);
  }

  /** The lines of a valid stream are valid. */
  lemma {:induction false} LinesValid(b: Bytes)
    requires Utf8.IsValid(b)
    ensures AllUtf8(Lines(b))
    decreases |b|
  {
    var i := LineEnd(b);
    if i < |b| {
      CutValid(b, i);
      LinesValid(b[NextStart(b, i)..]);
    }
  }

  /** The value of a valid data line is valid. */
  lemma DataValueValid(line: Bytes)
    requires line != [] && Utf8.IsValid(line) && DataValue(line).Some?
    ensures IsBytes(DataValue(line).value) && Utf8.IsValid(DataValue(line).value)
  {
    var colon := IndexOf(line, COLON);
    if colon < |line| {
      assert line == line[..colon] + [COLON] + line[colon + 1..];
      Utf8.ToTextAscii(line[..colon], COLON, line[colon + 1..]);
    }
  }

  lemma FlattenFirst(g: seq<Str>, es: seq<seq<Str>>)
    ensures Flatten([g] + es) == g + Flatten(es)
    ensures [] + es == es
  {
  }

  lemma {:induction false} EventsValid(lines: seq<Str>, pending: seq<Str>)
    requires AllUtf8(lines) && AllUtf8(pending)
    ensures AllUtf8(Flatten(Events(lines, pending)))
  {
    if lines != [] {
      var rest := lines[1..];
      if lines[0] == [] {
        EventsValid(rest, []);
        FlattenFirst(pending, Events(rest, []));
      } else {
        match DataValue(lines[0])
        case None =>
          EventsValid(rest, pending);
        case Some(v) =>
          DataValueValid(lines[0]);
          EventsValid(rest, pending + [v]);
      }
    }
  }

  /** The data of a valid stream is valid. */
  lemma DataValid(raw: Bytes)
    requires Utf8.IsValid(raw)
    ensures AllUtf8(GoData(raw))
  {
    BomIsValid(raw);
    LinesValid(StripBom(raw));
    EventsValid(Lines(StripBom(raw)), []);
  }

  /** A join is valid exactly when its parts are. */
  lemma {:induction false} JoinValid(parts: seq<Str>)
    requires AllBytes(parts)
    ensures IsBytes(Join(parts, LF)) && (Utf8.IsValid(Join(parts, LF)) <==> AllUtf8(parts))
  {
    JoinBytes(parts, LF);
    if |parts| > 1 {
      JoinValid(parts[1..]);
      Utf8.ToTextAscii(parts[0], LF, Join(parts[1..], LF));
      assert parts == [parts[0]] + parts[1..];
    }
  }

  lemma TextsAppend(a: seq<Str>, b: seq<Str>)
    requires AllBytes(a) && AllBytes(b)
    ensures AllBytes(a + b) && Texts(a + b) == Texts(a) + Texts(b)
  {
  }

  lemma {:induction false} FlattenTexts(es: seq<seq<Str>>)
    requires AllBytes2(es)
    ensures AllBytes(Flatten(es)) && Flatten(TextGroups(es)) == Texts(Flatten(es))
  {
    if es != [] {
      FlattenTexts(es[1..]);
      assert es == [es[0]] + es[1..];
      TextGroupsFirst(es[0], es[1..]);
      FlattenFirst(Texts(es[0]), TextGroups(es[1..]));
      TextsAppend(es[0], Flatten(es[1..]));
    }
  }

  /** TypeScript dispatches the texts of the data Go dispatches, line by line. */
  lemma DataAgrees(raw: Bytes)
    ensures AllBytes(GoData(raw)) && TsData(raw) == Texts(GoData(raw))
  {
    var b := StripBom(raw);
    EventsAgree(b);
    FlattenTexts(Events(Lines(b), []));
  }

  /** Messages join to what their data lines join to. */
  lemma JoinedData(raw: Bytes)
    ensures Join(GoMessages(raw), LF) == Join(GoData(raw), LF)
    ensures Join(TsMessages(raw), LF) == Join(TsData(raw), LF)
  {
    var goLines, tsLines := Lines(StripBom(raw)), LinesAndTail(Utf8.ToText(StripBom(raw)));
    EventsNotEmpty(goLines, []);
    EventsNotEmpty(tsLines, []);
    JoinFlatten(Events(goLines, []));
    JoinFlatten(Events(tsLines, []));
  }

  lemma LinesLackLf(s: Str)
    ensures AllLack(Lines(s), LF) && AllLack(LinesAndTail(s), LF)
  {
    EveryStreamIsFramed(s);
    UnbrokenLacks(Tail(s));
    forall i | 0 <= i < |Lines(s)| ensures LF !in Lines(s)[i] {
      assert Lines(s)[i] == FramesOf(s)[i].line;
      UnbrokenLacks(FramesOf(s)[i].line);
    }
  }

  lemma DataLacksLineFeeds(raw: Bytes)
    ensures AllLack(GoData(raw), LF) && AllLack(TsData(raw), LF)
  {
    LinesLackLf(StripBom(raw));
    LinesLackLf(Utf8.ToText(StripBom(raw)));
    EventsLackLf(Lines(StripBom(raw)), []);
    EventsLackLf(LinesAndTail(Utf8.ToText(StripBom(raw))), []);
  }
}
