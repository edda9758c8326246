/**
 * The documented rules on empty messages, against what the decoders commit to. The contract
 * does not dispatch an event with empty data; the design drops an empty trailing message. The
 * code keeps both.
 */
module SseEmpty {
  import opened Text
  import opened SseLines
  import opened SseEvents
  import opened Sse
  import opened SseCommit
  import Utf8

  /** The messages of the events whose data is not empty. */
  function NonEmpty(ms: seq<Str>): (kept: seq<Str>) {
    if ms == [] then [] else (if ms[0] == [] then [] else [ms[0]]) + NonEmpty(ms[1..])
  }

  /** The messages without an empty last one. */
  function WithoutEmptyLast(ms: seq<Str>): (kept: seq<Str>) {
    if ms != [] && ms[|ms| - 1] == [] then ms[..|ms| - 1] else ms
  }

  ghost predicate NoneBlank(ms: seq<Str>) {
    forall i | 0 <= i < |ms| :: ms[i] != []
  }

  lemma NonEmptyFirst(m: Str, rest: seq<Str>)
    ensures NonEmpty([m] + rest) == (if m == [] then [] else [m]) + NonEmpty(rest)
    ensures NoneBlank([m] + rest) <==> m != [] && NoneBlank(rest)
  {
    var ms := [m] + rest;
    assert ms[1..] == rest;
    if NoneBlank(ms) {
      forall i | 0 <= i < |rest| ensures rest[i] != [] {
        assert ms[i + 1] == rest[i];
      }
    }
  }

  lemma {:induction false} NonEmptyAll(ms: seq<Str>)
    ensures NonEmpty(ms) == [] <==> forall i | 0 <= i < |ms| :: ms[i] == []
  {
    if ms != [] {
      NonEmptyAll(ms[1..]);
      assert ms == [ms[0]] + ms[1..];
    }
  }

  lemma JoinFirst(m: Str, rest: seq<Str>)
    ensures Join([m] + rest, LF) == if rest == [] then m else m + [LF] + Join(rest, LF)
  {
    assert ([m] + rest)[1..] == rest;
  }

  lemma SameFront(front: Str, a: Str, b: Str)
    ensures front + a == front + b <==> a == b
  {
    assert (front + a)[|front|..] == a && (front + b)[|front|..] == b;
  }

  /** Dropping empty messages changes the join exactly when one is dropped beside another message. */
  lemma {:induction false} NonEmptyJoin(ms: seq<Str>)
    ensures |Join(NonEmpty(ms), LF)| <= |Join(ms, LF)|
    ensures Join(NonEmpty(ms), LF) == Join(ms, LF) <==> NoneBlank(ms) || ms == [[]]
  {
    if ms != [] {
      var m, rest := ms[0], ms[1..];
      assert ms == [m] + rest;
      NonEmptyFirst(m, rest);
      NonEmptyJoin(rest);
      JoinFirst(m, rest);
      if m == [] {
        assert [] + NonEmpty(rest) == NonEmpty(rest);
        assert rest == [] ==> ms == [m];
      } else {
        JoinFirst(m, NonEmpty(rest));
        NonEmptyAll(rest);
        SameFront(m + [LF], Join(NonEmpty(rest), LF), Join(rest, LF));
        assert ms != [[]] && (rest != [] && NonEmpty(rest) == [] ==> rest[0] == []);
      }
    }
  }

  lemma JoinBlank(front: seq<Str>)
    ensures Join(front + [[]], LF) == Join(front, LF) <==> front == []
  {
    JoinAppend(front, [[]], LF);
    assert |Join(front, LF) + [LF] + []| == |Join(front, LF)| + 1;
  }

  lemma BlankLast(ms: seq<Str>)
    requires ms != [] && ms[|ms| - 1] == []
    ensures ms == WithoutEmptyLast(ms) + [[]]
  {
  }

  lemma WithoutEmptyLastJoin(ms: seq<Str>)
    ensures Join(WithoutEmptyLast(ms), LF) == Join(ms, LF) <==> ms == [] || ms[|ms| - 1] != [] || |ms| == 1
  {
    if ms != [] && ms[|ms| - 1] == [] {
      BlankLast(ms);
      JoinBlank(WithoutEmptyLast(ms));
    }
  }

  // ---- Over events ----

  /** An event of one data line whose value is empty. */
  ghost predicate IsBlank(event: seq<Str>) {
    event == [[]]
  }

  lemma BlankMessage(event: seq<Str>)
    requires event != []
    ensures Join(event, LF) == [] <==> IsBlank(event)
  {
  }

  /** No event is blank, or the only one is. */
  ghost predicate BlankHarmless(es: seq<seq<Str>>) {
    |es| == 1 || forall i | 0 <= i < |es| :: !IsBlank(es[i])
  }

  /** The last event is not blank, or is the only one. */
  ghost predicate BlankLastHarmless(es: seq<seq<Str>>) {
    |es| <= 1 || !IsBlank(es[|es| - 1])
  }

  lemma BlankMessages(es: seq<seq<Str>>)
    requires NoneEmpty(es)
    ensures Join(NonEmpty(JoinAll(es)), LF) == Join(JoinAll(es), LF) <==> BlankHarmless(es)
    ensures Join(WithoutEmptyLast(JoinAll(es)), LF) == Join(JoinAll(es), LF) <==> BlankLastHarmless(es)
  {
    var ms := JoinAll(es);
    forall i | 0 <= i < |es| ensures ms[i] == [] <==> IsBlank(es[i]) {
      BlankMessage(es[i]);
    }
    assert |es| == 1 && IsBlank(es[0]) ==> ms == [[]];
    NonEmptyJoin(ms);
    WithoutEmptyLastJoin(ms);
  }

  /** The events of a stream, as Go groups their data. */
  function EventsOf(raw: Bytes): (es: seq<seq<Str>>) {
    Events(Lines(StripBom(raw)), [])
  }

  /**
   * Go commits to what the contract's rule commits to exactly when no event of the stream is
   * blank or the only one is; to what the design's rule does exactly when the last one is not
   * blank or is the only one.
   */
  lemma EmptyRulesExact(raw: Bytes)
    ensures Join(NonEmpty(GoMessages(raw)), LF) == GoCommitted(raw) <==> BlankHarmless(EventsOf(raw))
    ensures Join(WithoutEmptyLast(GoMessages(raw)), LF) == GoCommitted(raw) <==> BlankLastHarmless(EventsOf(raw))
  {
    EventsNotEmpty(Lines(StripBom(raw)), []);
    BlankMessages(EventsOf(raw));
  }

  // ---- TypeScript ----

  lemma TextBlank(b: Bytes)
    ensures Utf8.ToText(b) == [] <==> b == []
  {
    FirstUnitKept(b, LF);
  }

  lemma TextsRestAppend(m: Bytes, ms: seq<Str>)
    requires AllBytes(ms)
    ensures AllBytes([m] + ms) && Texts([m] + ms) == [Utf8.ToText(m)] + Texts(ms)
  {
  }

  lemma {:induction false} NonEmptyTexts(ms: seq<Str>)
    requires AllBytes(ms)
    ensures AllBytes(NonEmpty(ms)) && NonEmpty(Texts(ms)) == Texts(NonEmpty(ms))
  {
    if ms != [] {
      var m: Bytes := ms[0];
      NonEmptyTexts(ms[1..]);
      TextBlank(m);
      assert ms == [m] + ms[1..];
      TextsRestAppend(m, ms[1..]);
      TextsRestAppend(m, NonEmpty(ms[1..]));
      NonEmptyFirst(m, ms[1..]);
      NonEmptyFirst(Utf8.ToText(m), Texts(ms[1..]));
    }
  }

  lemma WithoutEmptyLastTexts(ms: seq<Str>)
    requires AllBytes(ms)
    ensures AllBytes(WithoutEmptyLast(ms)) && WithoutEmptyLast(Texts(ms)) == Texts(WithoutEmptyLast(ms))
  {
    if ms != [] {
      TextBlank(ms[|ms| - 1]);
    }
  }

  lemma EncodeTextsInjective(ms: seq<Str>, ns: seq<Str>)
    requires AllBytes(ms) && AllBytes(ns)
    ensures Utf8.Encode(Join(Texts(ms), LF)) == Utf8.Encode(Join(Texts(ns), LF)) <==> Join(Texts(ms), LF) == Join(Texts(ns), LF)
  {
    JoinText(ms);
    JoinText(ns);
    Utf8.EncodeDecode(Join(ms, LF));
    Utf8.EncodeDecode(Join(ns, LF));
    Utf8.DecodeEncode(Join(Texts(ms), LF));
    Utf8.DecodeEncode(Join(Texts(ns), LF));
  }

  lemma BlankTexts(es: seq<seq<Str>>)
    requires AllBytes2(es)
    ensures BlankHarmless(TextGroups(es)) <==> BlankHarmless(es)
    ensures BlankLastHarmless(TextGroups(es)) <==> BlankLastHarmless(es)
  {
    forall i | 0 <= i < |es| ensures IsBlank(TextGroups(es)[i]) <==> IsBlank(es[i]) {
      if |es[i]| == 1 {
        TextBlank(es[i][0]);
      }
    }
  }

  /** TypeScript meets the two rules on the streams on which Go does. */
  lemma EmptyRulesExactInTs(raw: Bytes)
    ensures Utf8.Encode(Join(NonEmpty(TsMessages(raw)), LF)) == TsCommitted(raw) <==> BlankHarmless(EventsOf(raw))
    ensures Utf8.Encode(Join(WithoutEmptyLast(TsMessages(raw)), LF)) == TsCommitted(raw) <==>
            BlankLastHarmless(EventsOf(raw))
  {
    var ms := GoMessages(raw);
    DecodersAgree(raw);
    NonEmptyTexts(ms);
    WithoutEmptyLastTexts(ms);
    EncodeTextsInjective(NonEmpty(ms), ms);
    EncodeTextsInjective(WithoutEmptyLast(ms), ms);
    EventsAgree(StripBom(raw));
    BlankTexts(EventsOf(raw));
    EventsNotEmpty(LinesAndTail(Utf8.ToText(StripBom(raw))), []);
    BlankMessages(TextGroups(EventsOf(raw)));
  }

  lemma ResultsLast(ms: seq<Str>, m: Str)
    ensures Results(ms + [m]) == match ResultOf(m) case None => Results(ms) case Some(v) => Results(ms) + [v]
  {
    assert (ms + [m])[..|ms|] == ms;
  }

  lemma EmptyNoResult()
    ensures ResultOf([]) == None
  {
  }

  /** In `sse-jsonrpc` mode the contract's rule makes no difference: an empty message is not JSON. */
  lemma {:induction false} EmptyHasNoResult(ms: seq<Str>)
    ensures Results(NonEmpty(ms)) == Results(ms)
  {
    if ms != [] {
      var front, last := ms[..|ms| - 1], ms[|ms| - 1];
      assert ms == front + [last];
      EmptyHasNoResult(front);
      EmptyNoResult();
      NonEmptyLast(front, last);
      ResultsLast(front, last);
      if last == [] {
        assert NonEmpty(front) + [] == NonEmpty(front);
      } else {
        ResultsLast(NonEmpty(front), last);
      }
    }
  }

  lemma {:induction false} NonEmptyLast(ms: seq<Str>, m: Str)
    ensures NonEmpty(ms + [m]) == NonEmpty(ms) + if m == [] then [] else [m]
  {
    if ms == [] {
      assert ms + [m] == [m];
      assert [m][1..] == [];
    } else {
      NonEmptyLast(ms[1..], m);
      assert (ms + [m])[1..] == ms[1..] + [m];
    }
  }

  lemma BlankAfter(m: Str)
    requires m != []
    ensures NonEmpty([m, []]) == [m] && WithoutEmptyLast([m, []]) == [m]
    ensures Join([m, []], LF) == m + [LF] && Join([m], LF) == m
  {
    var ms: seq<Str> := [m];
    NonEmptyLast(ms, []);
    NonEmptyLast([], m);
    assert [m, []] == ms + [[]] && [] + ms == ms;
    JoinAppend(ms, [[]], LF);
    assert m + [LF] + [] == m + [LF];
  }

  /**
   * A message and then an event whose one data line is empty: both implementations commit to
   * the message and LF, either rule to the message alone.
   */
  lemma EmptyRulesPart(m: Bytes) returns (raw: Bytes)
    requires m != [] && CR !in m && LF !in m
    ensures raw == DATA_PREFIX + m + [LF, LF] + (DATA_PREFIX + [LF, LF])
    ensures GoCommitted(raw) == m + ['\n' as int] && TsCommitted(raw) == Utf8.Encode(Utf8.ToText(m + ['\n' as int]))
    ensures Join(NonEmpty(GoMessages(raw)), LF) == Join(WithoutEmptyLast(GoMessages(raw)), LF) == m
  {
    var blank: seq<Str>, none: seq<Str> := [[]], [];
    raw := WrittenCommits([m, []]);
    OneLineFirst(m, blank);
    OneLineFirst([], none);
    assert [m] + blank == [m, []] && blank + none == blank;
    assert DATA_PREFIX + [] == DATA_PREFIX && DATA_PREFIX + [LF, LF] + EncodeStream(none) == DATA_PREFIX + [LF, LF];
    BlankAfter(m);
  }
}
