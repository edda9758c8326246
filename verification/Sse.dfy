/**
 * `sse-outputs-hash`: decode an event stream, then commit to what it says. The TypeScript and
 * the Go decoder, on bytes.
 */
module Sse {
  import opened Text
  import opened SseLines
  import opened SseEvents
  import Utf8

  function StripBom(raw: Bytes): (b: Bytes) {
    if Utf8.BOM <= raw then raw[3..] else raw
  }

  /** What the TypeScript decoder dispatches: decode to text, then cut and collect. */
  function TsMessages(raw: Bytes): (ms: seq<Str>) {
    Messages(LinesAndTail(Utf8.ToText(StripBom(raw))))
  }

  /** What the Go decoder dispatches: cut and collect the bytes themselves. */
  function GoMessages(raw: Bytes): (ms: seq<Str>) {
    Messages(Lines(StripBom(raw)))
  }

  /** `parseSse` */
  method ParseSse(raw: Bytes) returns (dispatched: seq<Str>)
    ensures dispatched == TsMessages(raw)
  {
    var start := 0;
    if |raw| >= 3 && raw[0] == 0xEF && raw[1] == 0xBB && raw[2] == 0xBF {
      start := 3;
      assert raw[..3] == Utf8.BOM;
    }
    assert raw[start..] == StripBom(raw);
    var text := Utf8.ToText(raw[start..]);
    var lines := SplitLines(text);
    dispatched := ParseEvents(lines);
  }

  /** Go's `SSEDecode` */
  method SseDecode(raw: Bytes) returns (messages: seq<Str>)
    ensures messages == GoMessages(raw)
  {
    var data := raw;
    if Utf8.BOM <= data {
      data := data[3..];
    }
    var lines := GoSplitLines(data);
    messages := GoParseEvents(lines);
  }

  // ---- The two decoders agree on every byte stream ----

  ghost predicate AllBytes(ls: seq<Str>) {
    forall i | 0 <= i < |ls| :: IsBytes(ls[i])
  }

  /** The texts that byte strings decode to, ill-formed parts replaced. */
  function Texts(ls: seq<Str>): (ts: seq<Str>)
    requires AllBytes(ls)
    ensures |ts| == |ls|
  {
    seq(|ls|, i requires 0 <= i < |ls| => Utf8.ToText(ls[i]))
  }

  /** Decoding keeps where the first unit of a text is one given ASCII unit. */
  lemma FirstUnitKept(b: Bytes, x: Byte)
    requires x < 0x80
    ensures b == [] <==> Utf8.ToText(b) == []
    ensures b != [] ==> (b[0] == x <==> Utf8.ToText(b)[0] == x)
    ensures b != [] && b[0] == x ==> Utf8.ToText(b) == [x] + Utf8.ToText(b[1..])
  {
  }

  /** Only ASCII bytes decode to ASCII text. */
  lemma {:induction false} AsciiTextIsBytes(b: Bytes)
    requires forall i | 0 <= i < |Utf8.ToText(b)| :: Utf8.ToText(b)[i] < 0x80
    ensures Utf8.ToText(b) == b
  {
    if b != [] {
      var s := Utf8.DecodeChar(b);
      var t := Utf8.ToText(b);
      assert t[0] == s.units[0];
      assert b[0] < 0x80;
      assert t[1..] == Utf8.ToText(b[1..]);
      AsciiTextIsBytes(b[1..]);
      assert b == [b[0]] + b[1..];
    }
  }

  lemma {:induction false} AsciiDecodes(b: Bytes)
    requires forall i | 0 <= i < |b| :: b[i] < 0x80
    ensures Utf8.ToText(b) == b
  {
    if b != [] {
      AsciiDecodes(b[1..]);
      assert b == [b[0]] + b[1..];
    }
  }

  lemma DataIsAscii()
    ensures forall i | 0 <= i < |DATA| :: DATA[i] < 0x80
  {
  }

  lemma IsDataName(name: Bytes)
    ensures Utf8.ToText(name) == DATA <==> name == DATA
  {
    DataIsAscii();
    if Utf8.ToText(name) == DATA {
      AsciiTextIsBytes(name);
    }
    if name == DATA {
      AsciiDecodes(name);
    }
  }

  lemma UnbrokenText(b: Bytes)
    ensures Unbroken(Utf8.ToText(b)) <==> Unbroken(b)
  {
    Utf8.ToTextLacks(b, CR);
    Utf8.ToTextLacks(b, LF);
    UnbrokenLacks(b);
    UnbrokenLacks(Utf8.ToText(b));
  }

  lemma UnbrokenLacks(s: Str)
    ensures Unbroken(s) <==> CR !in s && LF !in s
  {
  }

  lemma AfterBreakText(x: Byte, rest: Bytes)
    ensures IsBytes(AfterBreak(x, rest)) && Utf8.ToText(AfterBreak(x, rest)) == AfterBreak(x, Utf8.ToText(rest))
  {
    FirstUnitKept(rest, LF);
  }

  lemma TextsFirst(b: Bytes, ls: seq<Str>)
    requires AllBytes(ls)
    ensures AllBytes([b] + ls) && Texts([b] + ls) == [Utf8.ToText(b)] + Texts(ls)
  {
  }

  lemma {:induction false} LinesText(b: Bytes)
    ensures AllBytes(Lines(b)) && Lines(Utf8.ToText(b)) == Texts(Lines(b))
    decreases |b|
  {
    var i := LineEnd(b);
    var t := Utf8.ToText(b);
    if i == |b| {
      assert b[..i] == b;
      UnbrokenText(b);
      assert t[..|t|] == t;
      LineEndAt(t, |t|);
    } else {
      var front, x, rest := b[..i], b[i], b[i + 1..];
      assert b == front + [x] + rest;
      CutAt(front, x, rest);
      Utf8.ToTextAscii(front, x, rest);
      UnbrokenText(front);
      CutAt(Utf8.ToText(front), x, Utf8.ToText(rest));
      AfterBreakText(x, rest);
      var after: Bytes := AfterBreak(x, rest);
      LinesText(after);
      TextsFirst(front, Lines(after));
    }
  }

  lemma StripSpaceText(b: Bytes)
    ensures IsBytes(StripSpace(b)) && StripSpace(Utf8.ToText(b)) == Utf8.ToText(StripSpace(b))
  {
    FirstUnitKept(b, SPACE);
  }

  ghost predicate SameValue(v: Option<Str>, t: Option<Str>) {
    match v
    case None => t == None
    case Some(b) => IsBytes(b) && t == Some(Utf8.ToText(b))
  }

  lemma PlainText(line: Bytes)
    requires line != [] && COLON !in line
    ensures Utf8.ToText(line) != [] && SameValue(DataValue(line), DataValue(Utf8.ToText(line)))
  {
    FirstUnitKept(line, COLON);
    Utf8.ToTextLacks(line, COLON);
    IsDataName(line);
    DataValueOf(line, []);
    DataValueOf(Utf8.ToText(line), []);
  }

  lemma FieldText(name: Bytes, rest: Bytes)
    requires COLON !in name
    ensures var line := name + [COLON] + rest;
            Utf8.ToText(line) != [] && SameValue(DataValue(line), DataValue(Utf8.ToText(line)))
  {
    Utf8.ToTextAscii(name, COLON, rest);
    Utf8.ToTextLacks(name, COLON);
    IsDataName(name);
    StripSpaceText(rest);
    DataValueOf(name, rest);
    DataValueOf(Utf8.ToText(name), Utf8.ToText(rest));
  }

  lemma DataValueText(line: Bytes)
    requires line != []
    ensures Utf8.ToText(line) != [] && SameValue(DataValue(line), DataValue(Utf8.ToText(line)))
  {
    var colon := IndexOf(line, COLON);
    if colon == |line| {
      assert line[..colon] == line;
      PlainText(line);
    } else {
      assert line == line[..colon] + [COLON] + line[colon + 1..];
      FieldText(line[..colon], line[colon + 1..]);
    }
  }

  lemma {:induction false} JoinText(parts: seq<Str>)
    requires AllBytes(parts)
    ensures IsBytes(Join(parts, LF)) && Join(Texts(parts), LF) == Utf8.ToText(Join(parts, LF))
  {
    JoinBytes(parts, LF);
    if |parts| > 1 {
      JoinText(parts[1..]);
      Utf8.ToTextAscii(parts[0], LF, Join(parts[1..], LF));
      assert Texts(parts)[1..] == Texts(parts[1..]);
    }
  }

  ghost predicate AllBytes2(es: seq<seq<Str>>) {
    forall i | 0 <= i < |es| :: AllBytes(es[i])
  }

  function TextGroups(es: seq<seq<Str>>): (ts: seq<seq<Str>>)
    requires AllBytes2(es)
    ensures |ts| == |es|
  {
    seq(|es|, i requires 0 <= i < |es| => Texts(es[i]))
  }

  lemma TextGroupsFirst(g: seq<Str>, es: seq<seq<Str>>)
    requires AllBytes(g) && AllBytes2(es)
    ensures AllBytes2([g] + es) && TextGroups([g] + es) == [Texts(g)] + TextGroups(es)
    ensures [] + es == es && [] + TextGroups(es) == TextGroups(es)
    ensures Texts([]) == []
  {
  }

  lemma TextsLast(ls: seq<Str>, b: Bytes)
    requires AllBytes(ls)
    ensures AllBytes(ls + [b]) && Texts(ls + [b]) == Texts(ls) + [Utf8.ToText(b)]
  {
  }

  lemma TextsRest(ls: seq<Str>)
    requires AllBytes(ls) && ls != []
    ensures AllBytes(ls[1..]) && Texts(ls)[0] == Utf8.ToText(ls[0]) && Texts(ls)[1..] == Texts(ls[1..])
  {
  }

  lemma {:induction false} EventsText(lines: seq<Str>, pending: seq<Str>)
    requires AllBytes(lines) && AllBytes(pending)
    ensures AllBytes2(Events(lines, pending))
    ensures Events(Texts(lines), Texts(pending)) == TextGroups(Events(lines, pending))
  {
    if lines != [] {
      var rest := lines[1..];
      TextsRest(lines);
      if lines[0] == [] {
        EventsText(rest, []);
        TextGroupsFirst(pending, Events(rest, []));
      } else {
        DataValueText(lines[0]);
        match DataValue(lines[0])
        case None =>
          EventsText(rest, pending);
        case Some(v) =>
          TextsLast(pending, v);
          EventsText(rest, pending + [v]);
      }
    }
  }

  lemma JoinAllText(es: seq<seq<Str>>)
    requires AllBytes2(es)
    ensures AllBytes(JoinAll(es)) && JoinAll(TextGroups(es)) == Texts(JoinAll(es))
  {
    forall i | 0 <= i < |es| ensures IsBytes(JoinAll(es)[i]) && JoinAll(TextGroups(es))[i] == Utf8.ToText(JoinAll(es)[i]) {
      JoinText(es[i]);
    }
  }

  /** TypeScript groups the texts of the data Go groups, an unterminated last line notwithstanding. */
  lemma EventsAgree(b: Bytes)
    ensures AllBytes2(Events(Lines(b), []))
    ensures Events(LinesAndTail(Utf8.ToText(b)), []) == TextGroups(Events(Lines(b), []))
  {
    var t := Utf8.ToText(b);
    LinesText(b);
    EventsText(Lines(b), []);
    assert Texts([]) == [];
    if Tail(t) != [] {
      LastLineSilent(Lines(t), Tail(t), []);
    } else {
      assert Lines(t) + [] == Lines(t);
    }
  }

  /**
   * On every byte stream the TypeScript decoder dispatches the texts of the messages the Go
   * decoder dispatches, although it decodes first and also reads an unterminated last line.
   */
  lemma DecodersAgree(raw: Bytes)
    ensures AllBytes(GoMessages(raw))
    ensures TsMessages(raw) == Texts(GoMessages(raw))
  {
    EventsAgree(StripBom(raw));
    JoinAllText(Events(Lines(StripBom(raw)), []));
  }

  // ---- The byte order mark ----

  /** A leading EF BB BF is no part of the stream, and nothing else is left out of it. */
  lemma BomExactly(raw: Bytes)
    ensures !([0xEF, 0xBB, 0xBF] <= raw) ==>
              GoMessages(raw) == Messages(Lines(raw)) && TsMessages(raw) == Messages(LinesAndTail(Utf8.ToText(raw)))
    ensures GoMessages([0xEF, 0xBB, 0xBF] + raw) == Messages(Lines(raw))
    ensures TsMessages([0xEF, 0xBB, 0xBF] + raw) == Messages(LinesAndTail(Utf8.ToText(raw)))
  {
    assert StripBom([0xEF, 0xBB, 0xBF] + raw) == raw;
  }
}
