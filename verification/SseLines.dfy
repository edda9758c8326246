/**
 * Cutting an event stream into lines (HTML Living Standard, section 9.2.5): CRLF, lone CR
 * and lone LF end a line. Works on code units and on bytes alike.
 */
module SseLines {
  import opened Text

  predicate IsBreak(u: Unit) { u == CR || u == LF }

  ghost predicate Unbroken(s: Str) {
    forall i | 0 <= i < |s| :: !IsBreak(s[i])
  }

  /** The position of the first line terminator, or the end. */
  function LineEnd(s: Str): (i: nat)
    ensures i <= |s|
    ensures i < |s| ==> IsBreak(s[i])
    ensures Unbroken(s[..i])
  {
    if s == [] || IsBreak(s[0]) then 0
    else
      var i := LineEnd(s[1..]);
      assert s[..1 + i] == [s[0]] + s[1..][..i];
      1 + i
  }

  /** Where the next line starts, CRLF counting as one terminator. */
  function NextStart(s: Str, i: nat): (j: nat)
    requires i < |s|
    ensures i < j <= |s|
  {
    if s[i] == CR && i + 1 < |s| && s[i + 1] == LF then i + 2 else i + 1
  }

  /** The terminated lines. */
  function Lines(s: Str): (ls: seq<Str>)
    decreases |s|
  {
    var i := LineEnd(s);
    if i == |s| then [] else [s[..i]] + Lines(s[NextStart(s, i)..])
  }

  /** What follows the last terminator. */
  function Tail(s: Str): (t: Str)
    decreases |s|
  {
    var i := LineEnd(s);
    if i == |s| then s else Tail(s[NextStart(s, i)..])
  }

  /** The lines TypeScript processes: an unterminated last one is kept if it is not empty. */
  function LinesAndTail(s: Str): (ls: seq<Str>) {
    Lines(s) + if Tail(s) == [] then [] else [Tail(s)]
  }

  lemma {:induction false} LineEndAt(s: Str, i: nat)
    requires i <= |s| && Unbroken(s[..i]) && (i < |s| ==> IsBreak(s[i]))
    ensures LineEnd(s) == i
  {
    if i > 0 {
      assert s[..i][0] == s[0];
      assert s[1..][..i - 1] == s[..i][1..];
      LineEndAt(s[1..], i - 1);
    }
  }

  /** What is left to read after a break and what follows it. */
  function AfterBreak(x: Unit, rest: Str): (r: Str) {
    if x == CR && rest != [] && rest[0] == LF then rest[1..] else rest
  }

  lemma CutAt(front: Str, x: Unit, rest: Str)
    requires Unbroken(front) && IsBreak(x)
    ensures var s := front + [x] + rest;
            && LineEnd(s) == |front| < |s|
            && Lines(s) == [front] + Lines(AfterBreak(x, rest))
            && Tail(s) == Tail(AfterBreak(x, rest))
  {
    var s, n := front + [x] + rest, |front|;
    assert s[..n] == front && s[n] == x && s[n + 1..] == rest;
    LineEndAt(s, n);
    assert s[NextStart(s, n)..] == AfterBreak(x, rest);
  }

  // ---- The index-driven scan ----

  datatype Cut = Cut(lines: seq<Str>, tail: Str)

  /** What a scan at `i`, the current line having started at `start`, still finds. */
  function CutFrom(text: Str, start: nat, i: nat): (c: Cut)
    requires start <= i <= |text|
    decreases |text| - i
  {
    if i == |text| then Cut([], text[start..])
    else if IsBreak(text[i]) then
      var next := NextStart(text, i);
      var rest := CutFrom(text, next, next);
      Cut([text[start..i]] + rest.lines, rest.tail)
    else CutFrom(text, start, i + 1)
  }

  lemma SliceAt(text: Str, start: nat, i: nat)
    requires start <= i < |text|
    ensures text[start..] == text[start..i] + [text[i]] + text[i + 1..]
    ensures text[start..i + 1] == text[start..i] + [text[i]]
  {
  }

  lemma AfterIsNext(text: Str, i: nat)
    requires i < |text|
    ensures AfterBreak(text[i], text[i + 1..]) == text[NextStart(text, i)..]
  {
  }

  lemma NoBreakLeft(s: Str)
    requires Unbroken(s)
    ensures Lines(s) == [] && Tail(s) == s
  {
    assert s[..|s|] == s;
    LineEndAt(s, |s|);
  }

  lemma BreakAt(text: Str, start: nat, i: nat)
    requires start <= i < |text| && Unbroken(text[start..i]) && IsBreak(text[i])
    ensures Lines(text[start..]) == [text[start..i]] + Lines(text[NextStart(text, i)..])
    ensures Tail(text[start..]) == Tail(text[NextStart(text, i)..])
  {
    SliceAt(text, start, i);
    AfterIsNext(text, i);
    CutAt(text[start..i], text[i], text[i + 1..]);
  }

  lemma {:induction false} ScanIsCut(text: Str, start: nat, i: nat)
    requires start <= i <= |text| && Unbroken(text[start..i])
    ensures CutFrom(text, start, i) == Cut(Lines(text[start..]), Tail(text[start..]))
    decreases |text| - i
  {
    if i == |text| {
      assert text[start..] == text[start..i];
      NoBreakLeft(text[start..]);
    } else if IsBreak(text[i]) {
      var next := NextStart(text, i);
      BreakAt(text, start, i);
      assert text[next..next] == [];
      ScanIsCut(text, next, next);
    } else {
      SliceAt(text, start, i);
      ScanIsCut(text, start, i + 1);
    }
  }

  lemma WholeScan(text: Str)
    ensures CutFrom(text, 0, 0) == Cut(Lines(text), Tail(text))
  {
    assert text[0..] == text && text[0..0] == [];
    ScanIsCut(text, 0, 0);
  }

  /** `splitLines` of the TypeScript decoder. */
  method SplitLines(text: Str) returns (lines: seq<Str>)
    ensures lines == LinesAndTail(text)
  {
    lines := [];
    var i := 0;
    var lineStart := 0;
    while i < |text|
      invariant lineStart <= i <= |text|
      invariant CutFrom(text, 0, 0).lines == lines + CutFrom(text, lineStart, i).lines
      invariant CutFrom(text, 0, 0).tail == CutFrom(text, lineStart, i).tail
    {
      var ch := text[i];
      if ch == CR {
        lines := lines + [text[lineStart..i]];
        if i + 1 < |text| && text[i + 1] == LF {
          i := i + 2;
        } else {
          i := i + 1;
        }
        lineStart := i;
      } else if ch == LF {
        lines := lines + [text[lineStart..i]];
        i := i + 1;
        lineStart := i;
      } else {
        i := i + 1;
      }
    }
    WholeScan(text);
    if lineStart < |text| {
      lines := lines + [text[lineStart..]];
    }
  }

  /** `splitLines` of the Go decoder: an unterminated last line is dropped. */
  method GoSplitLines(data: Bytes) returns (lines: seq<Str>)
    ensures lines == Lines(data)
  {
    lines := [];
    var start := 0;
    var i := 0;
    while i < |data|
      invariant start <= i <= |data|
      invariant CutFrom(data, 0, 0).lines == lines + CutFrom(data, start, i).lines
    {
      var b := data[i];
      if b == CR {
        lines := lines + [data[start..i]];
        if i + 1 < |data| && data[i + 1] == LF {
          i := i + 2;
        } else {
          i := i + 1;
        }
        start := i;
      } else if b == LF {
        lines := lines + [data[start..i]];
        i := i + 1;
        start := i;
      } else {
        i := i + 1;
      }
    }
    WholeScan(data);
  }

  // ---- Framing: lines and the terminators they were sent with ----

  datatype Terminator = Cr | Lf | CrLf

  function Units(t: Terminator): (u: Str) {
    match t
    case Cr => [CR]
    case Lf => [LF]
    case CrLf => [CR, LF]
  }

  /** The three terminators are carriage return, line feed, and the one before the other. */
  lemma TerminatorsAre()
    ensures Units(Cr) == ['\r' as int] && Units(Lf) == ['\n' as int] && Units(CrLf) == ['\r' as int, '\n' as int]
    ensures forall u: Unit :: IsBreak(u) <==> u == '\r' as int || u == '\n' as int
  {
  }

  datatype Frame = Frame(line: Str, end: Terminator)

  function Render(fs: seq<Frame>, tail: Str): (s: Str) {
    if fs == [] then tail else fs[0].line + (Units(fs[0].end) + Render(fs[1..], tail))
  }

  function LinesOf(fs: seq<Frame>): (ls: seq<Str>)
    ensures |ls| == |fs|
    ensures forall i | 0 <= i < |fs| :: ls[i] == fs[i].line
  {
    seq(|fs|, i requires 0 <= i < |fs| => fs[i].line)
  }

  ghost predicate Clean(fs: seq<Frame>) {
    forall i | 0 <= i < |fs| :: Unbroken(fs[i].line)
  }

  const BLANK_LF := Frame([], Lf)

  /** A lone CR directly before an empty LF-terminated line reads as CRLF. */
  predicate Fuses(fs: seq<Frame>) {
    |fs| > 1 && fs[0].end == Cr && fs[1] == BLANK_LF
  }

  predicate Ambiguous(fs: seq<Frame>) {
    fs != [] && (Fuses(fs) || Ambiguous(fs[1..]))
  }

  /** The framing a receiver sees. */
  function Fuse(fs: seq<Frame>): (gs: seq<Frame>)
    ensures |gs| <= |fs|
    decreases |fs|
  {
    if fs == [] then []
    else if Fuses(fs) then [Frame(fs[0].line, CrLf)] + Fuse(fs[2..])
    else [fs[0]] + Fuse(fs[1..])
  }

  /** A terminated line cut at its first break unit. */
  lemma FrameSplits(line: Str, end: Terminator, rest: Str)
    ensures line + (Units(end) + rest) ==
            match end
            case Cr => line + [CR] + rest
            case Lf => line + [LF] + rest
            case CrLf => line + [CR] + ([LF] + rest)
    ensures ([LF] + rest)[1..] == rest
  {
  }

  lemma CutLine(line: Str, end: Terminator, rest: Str)
    requires Unbroken(line) && (end == Cr && rest != [] ==> rest[0] != LF)
    ensures var s := line + (Units(end) + rest); Lines(s) == [line] + Lines(rest) && Tail(s) == Tail(rest)
  {
    FrameSplits(line, end, rest);
    match end {
      case Cr => CutAt(line, CR, rest);
      case Lf => CutAt(line, LF, rest);
      case CrLf => CutAt(line, CR, [LF] + rest);
    }
  }

  /** A rendering starts with LF only if its first frame is an empty LF-terminated line. */
  lemma RenderStart(fs: seq<Frame>, tail: Str)
    requires Clean(fs) && Unbroken(tail) && !(fs != [] && fs[0] == BLANK_LF)
    ensures Render(fs, tail) != [] ==> Render(fs, tail)[0] != LF
  {
    if fs != [] && fs[0].line != [] {
      assert Render(fs, tail)[0] == fs[0].line[0];
    }
  }

  lemma LinesOfFirst(fs: seq<Frame>)
    requires fs != []
    ensures LinesOf(fs) == [fs[0].line] + LinesOf(fs[1..])
  {
  }

  lemma {:induction false} FuseRenders(fs: seq<Frame>, tail: Str)
    ensures Render(Fuse(fs), tail) == Render(fs, tail)
    decreases |fs|
  {
    if fs != [] {
      if Fuses(fs) {
        var rest := Render(fs[2..], tail);
        FuseRenders(fs[2..], tail);
        assert Fuse(fs)[1..] == Fuse(fs[2..]);
        assert fs[1..][1..] == fs[2..];
        assert Render(fs[1..], tail) == [LF] + rest;
        assert [CR, LF] + rest == [CR] + ([LF] + rest);
      } else {
        FuseRenders(fs[1..], tail);
        assert Fuse(fs)[1..] == Fuse(fs[1..]);
      }
    }
  }

  lemma {:induction false} FuseClean(fs: seq<Frame>)
    requires Clean(fs)
    ensures Clean(Fuse(fs))
    decreases |fs|
  {
    if fs != [] {
      FuseClean(if Fuses(fs) then fs[2..] else fs[1..]);
    }
  }

  lemma {:induction false} FuseResolves(fs: seq<Frame>)
    ensures !Ambiguous(Fuse(fs))
    ensures !Ambiguous(fs) ==> Fuse(fs) == fs
    ensures Ambiguous(fs) ==> |Fuse(fs)| < |fs|
    decreases |fs|
  {
    if fs != [] {
      var gs := Fuse(fs);
      if Fuses(fs) {
        FuseResolves(fs[2..]);
        assert gs[1..] == Fuse(fs[2..]);
      } else {
        FuseResolves(fs[1..]);
        assert gs[1..] == Fuse(fs[1..]);
        assert !Fuses(gs);
      }
    }
  }

  lemma {:induction false} LinesOfRender(fs: seq<Frame>, tail: Str)
    requires Clean(fs) && Unbroken(tail) && !Ambiguous(fs)
    ensures Lines(Render(fs, tail)) == LinesOf(fs) && Tail(Render(fs, tail)) == tail
  {
    if fs == [] {
      assert tail[..|tail|] == tail;
      LineEndAt(tail, |tail|);
    } else {
      var rest := Render(fs[1..], tail);
      if fs[0].end == Cr {
        RenderStart(fs[1..], tail);
      }
      CutLine(fs[0].line, fs[0].end, rest);
      LinesOfRender(fs[1..], tail);
      LinesOfFirst(fs);
    }
  }

  /**
   * Whatever terminators are chosen, the lines read are those of the fused framing; they are
   * the lines sent exactly when no lone CR stands before an empty LF-terminated line.
   */
  lemma ReframedLines(fs: seq<Frame>, tail: Str)
    requires Clean(fs) && Unbroken(tail)
    ensures Lines(Render(fs, tail)) == LinesOf(Fuse(fs)) && Tail(Render(fs, tail)) == tail
    ensures Lines(Render(fs, tail)) == LinesOf(fs) <==> !Ambiguous(fs)
  {
    FuseRenders(fs, tail);
    FuseClean(fs);
    FuseResolves(fs);
    LinesOfRender(Fuse(fs), tail);
  }

  function TerminatorAt(s: Str, i: nat): (end: Terminator)
    requires i < |s| && IsBreak(s[i])
    ensures s[i..NextStart(s, i)] == Units(end)
  {
    if NextStart(s, i) == i + 2 then CrLf else if s[i] == CR then Cr else Lf
  }

  lemma Slices(s: Str, i: nat, j: nat)
    requires i <= j <= |s|
    ensures s == s[..i] + (s[i..j] + s[j..])
  {
  }

  /** The framing under which a receiver reads a stream. */
  function FramesOf(s: Str): (fs: seq<Frame>)
    decreases |s|
  {
    var i := LineEnd(s);
    if i == |s| then [] else [Frame(s[..i], TerminatorAt(s, i))] + FramesOf(s[NextStart(s, i)..])
  }

  /** Every stream is the rendering of its lines. */
  lemma {:induction false} EveryStreamIsFramed(s: Str)
    ensures Clean(FramesOf(s)) && Unbroken(Tail(s))
    ensures Render(FramesOf(s), Tail(s)) == s && LinesOf(FramesOf(s)) == Lines(s)
    decreases |s|
  {
    var i := LineEnd(s);
    if i == |s| {
      assert s[..i] == s;
    } else {
      var j := NextStart(s, i);
      EveryStreamIsFramed(s[j..]);
      Slices(s, i, j);
      LinesOfFirst(FramesOf(s));
      assert FramesOf(s)[1..] == FramesOf(s[j..]);
    }
  }
}
