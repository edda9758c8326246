/**
 * From lines to messages (HTML Living Standard, section 9.2.6), restricted to `data`: comment,
 * `event`, `id`, `retry` and unknown lines are framing.
 */
module SseEvents {
  import opened Text

  const DATA := Ascii("data")

  /** One leading space of a field's value is not part of it. */
  function StripSpace(s: Str): (r: Str) {
    if s != [] && s[0] == SPACE then s[1..] else s
  }

  /** The value of a data line; `None` for a comment or any other field. */
  function DataValue(line: Str): (v: Option<Str>)
    requires line != []
  {
    if line[0] == COLON then None
    else
      var colon := IndexOf(line, COLON);
      if line[..colon] != DATA then None
      else if colon == |line| then Some([])
      else Some(StripSpace(line[colon + 1..]))
  }

  /** A line is its field name, then nothing or a colon and the value. */
  lemma DataValueOf(name: Str, rest: Str)
    requires COLON !in name
    ensures DataValue(name + [COLON] + rest) == if name == DATA then Some(StripSpace(rest)) else None
    ensures name != [] ==> DataValue(name) == if name == DATA then Some([]) else None
  {
    var line := name + [COLON] + rest;
    IndexOfAt(name, COLON, rest);
    assert line[..|name|] == name && line[|name| + 1..] == rest;
    IndexOfAbsent(name, COLON);
    assert name[..|name|] == name;
    assert name != [] ==> line[0] == name[0];
  }

  /** Exactly the lines that carry data, and what each carries: one leading space is not part of it. */
  lemma DataLineExactly(line: Str, v: Str)
    requires line != []
    ensures DataValue(line) == Some(v) <==>
            || (line == Ascii("data") && v == [])
            || (line == Ascii("data:") + v && !(v != [] && v[0] == ' ' as int))
            || line == Ascii("data: ") + v
  {
    var colon := IndexOf(line, COLON);
    SplitsAtColon(v);
    if colon < |line| {
      assert line == line[..colon] + [COLON] + line[colon + 1..];
      DataValueOf(line[..colon], line[colon + 1..]);
      SpaceStripped(line[colon + 1..], v);
      SamePrefix(line[..colon], line[colon + 1..], v);
      SamePrefix(line[..colon], line[colon + 1..], [SPACE] + v);
    } else {
      assert line[..colon] == line;
      DataValueOf(line, []);
    }
  }

  lemma SplitsAtColon(v: Str)
    ensures COLON !in DATA && DATA == Ascii("data")
    ensures Ascii("data:") + v == DATA + [COLON] + v && Ascii("data: ") + v == DATA + [COLON] + ([SPACE] + v)
  {
    assert DATA == [0x64, 0x61, 0x74, 0x61];
    assert Ascii("data:") == DATA + [COLON] && Ascii("data: ") == DATA + [COLON] + [SPACE];
    Assoc(DATA + [COLON], [SPACE], v);
  }

  lemma SpaceStripped(rest: Str, v: Str)
    ensures StripSpace(rest) == v <==> (rest == v && !(v != [] && v[0] == SPACE)) || rest == [SPACE] + v
  {
    if rest != [] {
      assert rest == [rest[0]] + rest[1..];
    }
    assert ([SPACE] + v)[1..] == v;
  }

  /** A line is cut at its first colon in one way. */
  lemma SamePrefix(name: Str, rest: Str, v: Str)
    requires COLON !in name && COLON !in DATA
    ensures name + [COLON] + rest == DATA + [COLON] + v <==> name == DATA && rest == v
  {
    IndexOfAt(name, COLON, rest);
    IndexOfAt(DATA, COLON, v);
    var a, b := name + [COLON] + rest, DATA + [COLON] + v;
    assert a[..|name|] == name && a[|name| + 1..] == rest;
    assert b[..|DATA|] == DATA && b[|DATA| + 1..] == v;
  }

  /** The groups of data values that blank lines dispatch, `pending` being those already read. */
  function Events(lines: seq<Str>, pending: seq<Str>): (es: seq<seq<Str>>) {
    if lines == [] then []
    else if lines[0] == [] then (if pending == [] then [] else [pending]) + Events(lines[1..], [])
    else match DataValue(lines[0])
      case None => Events(lines[1..], pending)
      case Some(v) => Events(lines[1..], pending + [v])
  }

  function JoinAll(es: seq<seq<Str>>): (ms: seq<Str>) {
    seq(|es|, i requires 0 <= i < |es| => Join(es[i], LF))
  }

  /** The messages dispatched on a list of lines. */
  function Messages(lines: seq<Str>): (ms: seq<Str>) {
    JoinAll(Events(lines, []))
  }

  lemma JoinAllAppend(a: seq<seq<Str>>, b: seq<seq<Str>>)
    ensures JoinAll(a + b) == JoinAll(a) + JoinAll(b)
  {
  }

  /** The event loop of the TypeScript `parseSse`. */
  method ParseEvents(lines: seq<Str>) returns (dispatched: seq<Str>)
    ensures dispatched == Messages(lines)
  {
    dispatched := [];
    var dataBuf: seq<Str> := [];
    ghost var done: seq<seq<Str>> := [];
    for i := 0 to |lines|
      invariant dispatched == JoinAll(done)
      invariant Events(lines, []) == done + Events(lines[i..], dataBuf)
    {
      var line := lines[i];
      assert lines[i..][0] == line && lines[i..][1..] == lines[i + 1..];
      if line == [] {
        if |dataBuf| > 0 {
          dispatched := dispatched + [Join(dataBuf, LF)];
          JoinAllAppend(done, [dataBuf]);
          done := done + [dataBuf];
        }
        dataBuf := [];
      } else if line[0] == COLON {
      } else {
        var colonIdx := IndexOf(line, COLON);
        var field, value;
        if colonIdx == |line| {
          field := line;
          value := [];
        } else {
          field := line[..colonIdx];
          value := line[colonIdx + 1..];
          if value != [] && value[0] == SPACE {
            value := value[1..];
          }
        }
        assert line[..colonIdx] == field;
        if field == DATA {
          dataBuf := dataBuf + [value];
        }
      }
    }
    assert lines[|lines|..] == [];
    assert done + [] == done;
  }

  /** The event loop of the Go `SSEDecode`, which keeps an empty buffer on a blank line. */
  method GoParseEvents(lines: seq<Str>) returns (messages: seq<Str>)
    ensures messages == Messages(lines)
  {
    messages := [];
    var dataBuf: seq<Str> := [];
    ghost var done: seq<seq<Str>> := [];
    for i := 0 to |lines|
      invariant messages == JoinAll(done)
      invariant Events(lines, []) == done + Events(lines[i..], dataBuf)
    {
      var line := lines[i];
      assert lines[i..][0] == line && lines[i..][1..] == lines[i + 1..];
      if line == [] {
        if |dataBuf| > 0 {
          var data := Join(dataBuf, LF);
          messages := messages + [data];
          JoinAllAppend(done, [dataBuf]);
          done := done + [dataBuf];
          dataBuf := [];
        }
      } else if line[0] != COLON {
        var field, value;
        var idx := IndexOf(line, COLON);
        if idx < |line| {
          field := line[..idx];
          var rest := line[idx + 1..];
          if |rest| > 0 && rest[0] == SPACE {
            rest := rest[1..];
          }
          value := rest;
        } else {
          field := line;
          value := [];
        }
        assert line[..idx] == field;
        if field == DATA {
          dataBuf := dataBuf + [value];
        }
      }
    }
    assert lines[|lines|..] == [];
    assert done + [] == done;
  }

  // ---- The standard's own event machine: one string buffer ----

  /** A data line appends its value and LF; a blank line dispatches a non-empty buffer less one LF. */
  function StandardMessages(lines: seq<Str>, data: Str): (ms: seq<Str>) {
    if lines == [] then []
    else if lines[0] == [] then (if data == [] then [] else [DropLastLf(data)]) + StandardMessages(lines[1..], [])
    else match DataValue(lines[0])
      case None => StandardMessages(lines[1..], data)
      case Some(v) => StandardMessages(lines[1..], data + v + [LF])
  }

  function DropLastLf(data: Str): (m: Str) {
    if data != [] && data[|data| - 1] == LF then data[..|data| - 1] else data
  }

  /** The string buffer that a list of pending values amounts to. */
  function BufferOf(pending: seq<Str>): (data: Str) {
    if pending == [] then [] else Join(pending, LF) + [LF]
  }

  lemma BufferAppend(pending: seq<Str>, v: Str)
    ensures BufferOf(pending + [v]) == BufferOf(pending) + v + [LF]
  {
    JoinAppend(pending, [v], LF);
    if pending == [] {
      assert pending + [v] == [v];
    }
  }

  lemma BufferDispatch(pending: seq<Str>)
    ensures BufferOf(pending) == [] <==> pending == []
    ensures pending != [] ==> DropLastLf(BufferOf(pending)) == Join(pending, LF)
  {
    var data := BufferOf(pending);
    if pending != [] {
      assert data[|data| - 1] == LF;
      assert data[..|data| - 1] == Join(pending, LF);
    }
  }

  /** The list of pending values refines the standard's string buffer on every sequence of lines. */
  lemma {:induction false} ListRefinesBuffer(lines: seq<Str>, pending: seq<Str>)
    ensures JoinAll(Events(lines, pending)) == StandardMessages(lines, BufferOf(pending))
  {
    if lines != [] {
      var rest := lines[1..];
      if lines[0] == [] {
        ListRefinesBuffer(rest, []);
        BufferDispatch(pending);
        if pending == [] {
          assert [] + Events(rest, []) == Events(rest, []);
        } else {
          JoinAllAppend([pending], Events(rest, []));
          assert JoinAll([pending]) == [Join(pending, LF)];
        }
      } else {
        match DataValue(lines[0])
        case None =>
          ListRefinesBuffer(rest, pending);
        case Some(v) =>
          BufferAppend(pending, v);
          ListRefinesBuffer(rest, pending + [v]);
      }
    }
  }

  /** What is decoded is what the standard's algorithm dispatches. */
  lemma MessagesAreStandard(lines: seq<Str>)
    ensures Messages(lines) == StandardMessages(lines, [])
  {
    ListRefinesBuffer(lines, []);
  }

  // ---- Framing lines do not matter ----

  /** A comment, an `event`, `id` or `retry` line, or any other line that is not data. */
  predicate IsFraming(line: Str) {
    line != [] && DataValue(line) == None
  }

  function WithoutFraming(lines: seq<Str>): (ls: seq<Str>) {
    if lines == [] then []
    else if IsFraming(lines[0]) then WithoutFraming(lines[1..])
    else [lines[0]] + WithoutFraming(lines[1..])
  }

  lemma {:induction false} FramingIgnored(lines: seq<Str>, pending: seq<Str>)
    ensures Events(WithoutFraming(lines), pending) == Events(lines, pending)
  {
    if lines != [] {
      var rest := lines[1..];
      if IsFraming(lines[0]) {
        FramingIgnored(rest, pending);
      } else {
        assert WithoutFraming(lines)[1..] == WithoutFraming(rest);
        if lines[0] == [] {
          FramingIgnored(rest, []);
        } else {
          FramingIgnored(rest, pending + [DataValue(lines[0]).value]);
        }
      }
    }
  }

  /** An unterminated last line dispatches nothing, whatever it holds. */
  lemma {:induction false} LastLineSilent(lines: seq<Str>, last: Str, pending: seq<Str>)
    requires last != []
    ensures Events(lines + [last], pending) == Events(lines, pending)
  {
    if lines == [] {
      assert ([last])[1..] == [];
      assert lines + [last] == [last];
    } else {
      var rest := lines[1..];
      assert (lines + [last])[1..] == rest + [last];
      if lines[0] == [] {
        LastLineSilent(rest, last, []);
      } else {
        match DataValue(lines[0])
        case None =>
          LastLineSilent(rest, last, pending);
        case Some(v) =>
          LastLineSilent(rest, last, pending + [v]);
      }
    }
  }

  // ---- What `sse` mode commits to ----

  function Flatten(es: seq<seq<Str>>): (vs: seq<Str>) {
    if es == [] then [] else es[0] + Flatten(es[1..])
  }

  /** The values of the data lines of dispatched events, in order. */
  function DispatchedData(lines: seq<Str>): (vs: seq<Str>) {
    Flatten(Events(lines, []))
  }

  ghost predicate NoneEmpty(es: seq<seq<Str>>) {
    forall i | 0 <= i < |es| :: es[i] != []
  }

  lemma {:induction false} EventsNotEmpty(lines: seq<Str>, pending: seq<Str>)
    ensures NoneEmpty(Events(lines, pending))
  {
    if lines != [] {
      if lines[0] == [] {
        EventsNotEmpty(lines[1..], []);
      } else {
        match DataValue(lines[0])
        case None =>
          EventsNotEmpty(lines[1..], pending);
        case Some(v) =>
          EventsNotEmpty(lines[1..], pending + [v]);
      }
    }
  }

  lemma {:induction false} JoinFlatten(es: seq<seq<Str>>)
    requires NoneEmpty(es)
    ensures Join(JoinAll(es), LF) == Join(Flatten(es), LF)
    ensures Flatten(es) == [] <==> es == []
  {
    if es != [] {
      JoinFlatten(es[1..]);
      JoinAppend(es[0], Flatten(es[1..]), LF);
      assert JoinAll(es)[1..] == JoinAll(es[1..]);
      assert JoinAll(es)[0] == Join(es[0], LF);
    }
  }

  lemma DataLacksLf(line: Str)
    requires line != [] && LF !in line && DataValue(line).Some?
    ensures LF !in DataValue(line).value
  {
  }

  lemma {:induction false} EventsLackLf(lines: seq<Str>, pending: seq<Str>)
    requires AllLack(lines, LF) && AllLack(pending, LF)
    ensures AllLack(Flatten(Events(lines, pending)), LF)
  {
    if lines != [] {
      assert AllLack(lines[1..], LF);
      if lines[0] == [] {
        EventsLackLf(lines[1..], []);
        var tail := Events(lines[1..], []);
        assert [] + tail == tail && ([pending] + tail)[1..] == tail;
      } else {
        match DataValue(lines[0])
        case None =>
          EventsLackLf(lines[1..], pending);
        case Some(v) =>
          DataLacksLf(lines[0]);
          EventsLackLf(lines[1..], pending + [v]);
      }
    }
  }
}
