/**
 * Reading an object's members as raw text and parsing those later, as Go does, gives what
 * parsing the object gives.
 */
module RawMembers {
  import opened Text
  import opened Json
  import opened JsonParse

  // ---- What follows a value does not change how it is read ----

  predicate Suffix(r: Str, t: Str) {
    |r| <= |t| && t[|t| - |r|..] == r
  }

  /** `t` with its end `r` replaced. */
  function Swap(t: Str, r: Str, r': Str): (s: Str)
    requires Suffix(r, t)
  {
    t[..|t| - |r|] + r'
  }

  /** The new end does not extend a token that the old one ended. */
  predicate Follows(r: Str, r': Str) {
    r' == [] || (r != [] && r'[0] == r[0])
  }

  lemma SuffixTrans(r: Str, u: Str, t: Str)
    requires Suffix(r, u) && Suffix(u, t)
    ensures Suffix(r, t)
  {
    assert t[|t| - |u|..][|u| - |r|..] == t[|t| - |r|..];
  }

  /** Replacing an end within an end. */
  lemma SwapWithin(t: Str, u: Str, r: Str, r': Str)
    requires Suffix(r, u) && Suffix(u, t)
    ensures Suffix(r, t) && Swap(t, r, r') == Swap(t, u, Swap(u, r, r'))
    ensures |r| < |u| ==> Follows(u, Swap(u, r, r'))
  {
    SuffixTrans(r, u, t);
    assert t[..|t| - |r|] == t[..|t| - |u|] + u[..|u| - |r|];
  }

  lemma SuffixRest(t: Str, n: nat)
    requires n <= |t|
    ensures Suffix(t[n..], t)
  {
  }

  /** Replacing an end after the first `n` units. */
  lemma SwapRest(t: Str, n: nat, r: Str, r': Str)
    requires n <= |t| && Suffix(r, t[n..])
    ensures Suffix(r, t) && Swap(t, r, r') == t[..n] + Swap(t[n..], r, r')
    ensures Swap(t, r, r')[n..] == Swap(t[n..], r, r')
    ensures forall i | 0 <= i < n :: Swap(t, r, r')[i] == t[i]
  {
    SuffixRest(t, n);
    SuffixTrans(r, t[n..], t);
    assert t[..|t| - |r|] == t[..n] + t[n..][..|t| - n - |r|];
  }

  lemma {:induction false} SkipSuffix(t: Str)
    ensures Suffix(SkipSpace(t), t)
    ensures SkipSpace(SkipSpace(t)) == SkipSpace(t)
  {
    if t != [] && IsSpace(t[0]) {
      SkipSuffix(t[1..]);
      SuffixRest(t, 1);
      SuffixTrans(SkipSpace(t), t[1..], t);
    }
  }

  /** Spaces are skipped the same way when what follows them changes further on. */
  lemma {:induction false} SkipLocal(t: Str, r: Str, r': Str)
    requires Suffix(r, SkipSpace(t)) && |r| < |SkipSpace(t)|
    ensures Suffix(r, t) && SkipSpace(Swap(t, r, r')) == Swap(SkipSpace(t), r, r')
  {
    SkipSuffix(t);
    SuffixTrans(r, SkipSpace(t), t);
    if t != [] && IsSpace(t[0]) {
      SkipLocal(t[1..], r, r');
      SwapRest(t, 1, r, r');
    } else {
      assert Swap(t, r, r')[0] == t[0];
    }
  }

  lemma UnitLocal(t: Str, r': Str)
    requires StringUnit(t).Ok?
    ensures var r := StringUnit(t).rest;
            Suffix(r, t) && StringUnit(Swap(t, r, r')) == Ok(StringUnit(t).value, r')
  {
    var r := StringUnit(t).rest;
    var n := |t| - |r|;
    assert r == t[n..];
    SuffixRest(t, n);
    var s := t[..n] + r';
    assert s[n..] == r' && forall i | 0 <= i < n :: s[i] == t[i];
    if t[0] == BACKSLASH && t[1] == 0x75 {
      assert s[2..][4..] == r';
    }
  }

  lemma {:induction false} TailLocal(t: Str, r': Str)
    requires StringTail(t).Ok?
    ensures var r := StringTail(t).rest;
            Suffix(r, t) && StringTail(Swap(t, r, r')) == Ok(StringTail(t).value, r')
    decreases |t|
  {
    var r := StringTail(t).rest;
    if t[0] == QUOTE {
      SuffixRest(t, 1);
      assert Swap(t, r, r') == [QUOTE] + r';
      assert Swap(t, r, r')[1..] == r';
    } else {
      var u := StringUnit(t).rest;
      TailLocal(u, r');
      UnitLocal(t, Swap(u, r, r'));
      SwapWithin(t, u, r, r');
      assert Swap(t, r, r')[0] == t[0];
    }
  }

  lemma {:induction false} DigitCountStops(t: Str)
    ensures DigitCount(t) < |t| ==> !IsDigit(t[DigitCount(t)])
  {
    if t != [] && IsDigit(t[0]) {
      DigitCountStops(t[1..]);
    }
  }

  lemma MagnitudeLocal(t: Str, r': Str)
    requires Magnitude(t).Ok? && Follows(Magnitude(t).rest, r')
    ensures var r := Magnitude(t).rest;
            Suffix(r, t) && Magnitude(Swap(t, r, r')) == Ok(Magnitude(t).value, r')
  {
    var r := Magnitude(t).rest;
    var n := DigitCount(t);
    DigitCountStops(t);
    assert r == t[n..];
    SuffixRest(t, n);
    var s := t[..n] + r';
    assert s[n..] == r' && s[..n] == t[..n] && forall i | 0 <= i < n :: s[i] == t[i];
    assert r' != [] ==> s[n] == t[n];
    DigitCountAt(s, n);
  }

  function Sign(negative: bool, m: Parsed<int>): (r: Parsed<JSON>) {
    match m
    case Fail => Fail
    case Ok(n, rest) => Ok(JNum(if negative then -n else n), rest)
  }

  lemma NumberIs(t: Str)
    ensures t != [] && t[0] == MINUS ==> Number(t) == Sign(true, Magnitude(t[1..]))
    ensures t != [] && t[0] != MINUS ==> Number(t) == Sign(false, Magnitude(t))
  {
  }

  lemma NegativeIs(u: Str)
    ensures Number([MINUS] + u) == Sign(true, Magnitude(u))
  {
    assert ([MINUS] + u)[1..] == u;
  }

  lemma NegativeSwap(u: Str, r: Str, r': Str)
    requires Suffix(r, u)
    ensures Suffix(r, [MINUS] + u) && Swap([MINUS] + u, r, r') == [MINUS] + Swap(u, r, r')
  {
    assert ([MINUS] + u)[1..] == u;
    SwapRest([MINUS] + u, 1, r, r');
  }

  lemma SignLocal(negative: bool, u: Str, r': Str)
    requires Sign(negative, Magnitude(u)).Ok? && Follows(Sign(negative, Magnitude(u)).rest, r')
    ensures var r := Sign(negative, Magnitude(u)).rest;
            Suffix(r, u) && Sign(negative, Magnitude(Swap(u, r, r'))) == Ok(Sign(negative, Magnitude(u)).value, r')
  {
    MagnitudeLocal(u, r');
  }

  lemma NegativeLocal(u: Str, r': Str)
    requires Number([MINUS] + u).Ok? && Follows(Number([MINUS] + u).rest, r')
    ensures var r := Number([MINUS] + u).rest;
            Suffix(r, [MINUS] + u) && Number(Swap([MINUS] + u, r, r')) == Ok(Number([MINUS] + u).value, r')
  {
    NegativeIs(u);
    SignLocal(true, u, r');
    var r := Sign(true, Magnitude(u)).rest;
    NegativeSwap(u, r, r');
    NegativeIs(Swap(u, r, r'));
  }

  lemma NumberLocal(t: Str, r': Str)
    requires t != [] && Number(t).Ok? && Follows(Number(t).rest, r')
    ensures var r := Number(t).rest;
            Suffix(r, t) && Number(Swap(t, r, r')) == Ok(Number(t).value, r')
  {
    if t[0] == MINUS {
      assert t == [MINUS] + t[1..];
      NegativeLocal(t[1..], r');
    } else {
      NumberIs(t);
      SignLocal(false, t, r');
      assert Swap(t, Number(t).rest, r')[0] == t[0];
      NumberIs(Swap(t, Number(t).rest, r'));
    }
  }

  // ---- Values ----

  lemma ValueOfSkipped(text: Str)
    ensures Value(text) == Value(SkipSpace(text))
  {
    SkipSuffix(text);
  }

  /** What a reader that stopped before `after` sees of a token and what follows it. */
  lemma NextLocal(after: Str, r: Str, r': Str)
    requires SkipSpace(after) != [] && Suffix(r, SkipSpace(after)[1..])
    ensures var u := SkipSpace(after);
            && Suffix(r, after) && |r| < |after| && Suffix(r, u)
            && Follows(after, Swap(after, r, r'))
            && SkipSpace(Swap(after, r, r')) != [] && SkipSpace(Swap(after, r, r'))[0] == u[0]
            && SkipSpace(Swap(after, r, r'))[1..] == Swap(u[1..], r, r')
  {
    var u := SkipSpace(after);
    SkipSuffix(after);
    SwapRest(u, 1, r, r');
    SkipLocal(after, r, r');
    SwapWithin(after, u, r, r');
    SwapWithin(after, after, r, r');
    assert Swap(u, r, r')[0] == u[0];
  }

  lemma SameEnd(r: Str, r': Str)
    ensures Suffix(r, r) && Swap(r, r, r') == r'
  {
  }

  lemma LiteralLocal(t: Str, word: Str, v: JSON, r': Str)
    requires Literal(t, word, v).Ok?
    ensures var r := Literal(t, word, v).rest;
            Suffix(r, t) && Literal(Swap(t, r, r'), word, v) == Ok(v, r')
  {
    SuffixRest(t, |word|);
    assert t[..|word|] == word;
  }

  lemma {:induction false} ValueLocal(text: Str, r': Str)
    requires Value(text).Ok? && Follows(Value(text).rest, r')
    ensures var r := Value(text).rest;
            && Suffix(r, SkipSpace(text)) && |r| < |SkipSpace(text)| && Suffix(r, text)
            && Value(Swap(text, r, r')) == Ok(Value(text).value, r')
    decreases |text|, 1
  {
    var t, r := SkipSpace(text), Value(text).rest;
    SkipSuffix(text);
    ValueOfSkipped(text);
    if t[0] == LBRACKET || t[0] == LBRACE {
      BracketLocal(t, r');
    } else {
      ScalarIs(t);
      ScalarLocal(t, r');
      ScalarIs(Swap(t, r, r'));
    }
    SkipLocal(text, r, r');
    ValueOfSkipped(Swap(text, r, r'));
    ValueOfSkipped(Swap(t, r, r'));
    assert SkipSpace(Swap(t, r, r')) == Swap(t, r, r');
  }

  /** The reader that a value which is not a list is left to. */
  function Scalar(t: Str): (r: Parsed<JSON>)
    requires t != []
  {
    if t[0] == 0x6E then Literal(t, NULL, JNull)
    else if t[0] == 0x74 then Literal(t, TRUE, JBool(true))
    else if t[0] == 0x66 then Literal(t, FALSE, JBool(false))
    else if t[0] == QUOTE then StringValue(StringTail(t[1..]))
    else Number(t)
  }

  function StringValue(r: Parsed<Str>): Parsed<JSON> {
    match r
    case Fail => Fail
    case Ok(s, rest) => Ok(JStr(s), rest)
  }

  lemma ScalarIs(t: Str)
    requires t != [] && !IsSpace(t[0]) && t[0] != LBRACKET && t[0] != LBRACE
    ensures Value(t) == Scalar(t)
  {
  }

  lemma StringValueLocal(t: Str, r': Str)
    requires StringValue(StringTail(t)).Ok?
    ensures var r := StringTail(t).rest;
            Suffix(r, t) && StringValue(StringTail(Swap(t, r, r'))) == Ok(StringValue(StringTail(t)).value, r')
  {
    TailLocal(t, r');
  }

  lemma ScalarLocal(t: Str, r': Str)
    requires t != [] && Scalar(t).Ok? && Follows(Scalar(t).rest, r')
    ensures var r := Scalar(t).rest;
            && Suffix(r, t) && |r| < |t|
            && Swap(t, r, r')[0] == t[0] && Scalar(Swap(t, r, r')) == Ok(Scalar(t).value, r')
  {
    if t[0] == 0x6E {
      LiteralLocal(t, NULL, JNull, r');
    } else if t[0] == 0x74 {
      LiteralLocal(t, TRUE, JBool(true), r');
    } else if t[0] == 0x66 {
      LiteralLocal(t, FALSE, JBool(false), r');
    } else if t[0] == QUOTE {
      StringValueLocal(t[1..], r');
      SwapRest(t, 1, StringTail(t[1..]).rest, r');
    } else {
      NumberLocal(t, r');
    }
    assert Swap(t, Scalar(t).rest, r')[0] == t[0];
  }

  /** What a reader sees of the brackets: nothing, or a list by `Elements` or `Entries`. */
  function Bracketed(open: Unit, body: Str): (r: Parsed<JSON>) {
    var u := SkipSpace(body);
    if u != [] && u[0] == open + 2 then Ok(if open == LBRACKET then JArr([]) else JObj([]), u[1..])
    else if open == LBRACKET then Listed(Elements(body))
    else Assembled(Entries(body))
  }

  function Listed(r: Parsed<seq<JSON>>): Parsed<JSON> {
    match r
    case Fail => Fail
    case Ok(items, rest) => Ok(JArr(items), rest)
  }

  function Assembled(r: Parsed<seq<Entry>>): Parsed<JSON> {
    match r
    case Fail => Fail
    case Ok(es, rest) => Ok(JObj(Assemble(es)), rest)
  }

  lemma ValueIsBracketed(t: Str)
    requires t != [] && (t[0] == LBRACKET || t[0] == LBRACE)
    ensures Value(t) == Bracketed(t[0], t[1..])
  {
  }

  lemma EmptyLocal(open: Unit, body: Str, r': Str)
    requires SkipSpace(body) != [] && SkipSpace(body)[0] == open + 2
    ensures var r := SkipSpace(body)[1..];
            && Suffix(r, body) && |r| < |body|
            && Bracketed(open, body) == Ok(if open == LBRACKET then JArr([]) else JObj([]), r)
            && Bracketed(open, Swap(body, r, r')) == Ok(if open == LBRACKET then JArr([]) else JObj([]), r')
  {
    var r := SkipSpace(body)[1..];
    SameEnd(r, r');
    NextLocal(body, r, r');
  }

  /** A list that is not empty still is not when what follows it changes. */
  lemma StillListed(open: Unit, body: Str, r: Str, r': Str)
    requires Suffix(r, SkipSpace(body)) && |r| < |SkipSpace(body)| && SkipSpace(body)[0] != open + 2
    ensures Suffix(r, body)
    ensures var s := Swap(body, r, r');
            Bracketed(open, s) == if open == LBRACKET then Listed(Elements(s)) else Assembled(Entries(s))
  {
    SkipLocal(body, r, r');
    assert Swap(SkipSpace(body), r, r')[0] == SkipSpace(body)[0];
  }

  lemma {:induction false} BracketedLocal(open: Unit, body: Str, r': Str)
    requires open == LBRACKET || open == LBRACE
    requires Bracketed(open, body).Ok? && Follows(Bracketed(open, body).rest, r')
    ensures var r := Bracketed(open, body).rest;
            && Suffix(r, body) && |r| < |body|
            && Bracketed(open, Swap(body, r, r')) == Ok(Bracketed(open, body).value, r')
    decreases |body|, 4
  {
    var r := Bracketed(open, body).rest;
    var u := SkipSpace(body);
    if u != [] && u[0] == open + 2 {
      EmptyLocal(open, body, r');
    } else {
      if open == LBRACKET {
        ElementsLocal(body, r');
      } else {
        EntriesLocal(body, r');
      }
      StillListed(open, body, r, r');
    }
  }

  lemma {:induction false} BracketLocal(t: Str, r': Str)
    requires t != [] && (t[0] == LBRACKET || t[0] == LBRACE)
    requires Value(t).Ok? && Follows(Value(t).rest, r')
    ensures var r := Value(t).rest;
            && Suffix(r, t) && |r| < |t|
            && Value(Swap(t, r, r')) == Ok(Value(t).value, r')
    decreases |t|, 0
  {
    var r := Value(t).rest;
    ValueIsBracketed(t);
    BracketedLocal(t[0], t[1..], r');
    SwapRest(t, 1, r, r');
    ValueIsBracketed(Swap(t, r, r'));
  }

  /** A reader that took `first` and stopped at `after` goes on to the token after the spaces. */
  function MoreElements(first: JSON, after: Str): (r: Parsed<seq<JSON>>) {
    var u := SkipSpace(after);
    if u == [] then Fail
    else if u[0] == RBRACKET then Ok([first], u[1..])
    else if u[0] != COMMA then Fail
    else match Elements(u[1..])
      case Fail => Fail
      case Ok(vs, rest) => Ok([first] + vs, rest)
  }

  function MoreEntries(first: Entry, after: Str): (r: Parsed<seq<Entry>>) {
    var u := SkipSpace(after);
    if u == [] then Fail
    else if u[0] == RBRACE then Ok([first], u[1..])
    else if u[0] != COMMA then Fail
    else match Entries(u[1..])
      case Fail => Fail
      case Ok(es, rest) => Ok([first] + es, rest)
  }

  lemma ElementsIs(t: Str)
    ensures Elements(t) == match Value(t) case Fail => Fail case Ok(v, after) => MoreElements(v, after)
  {
  }

  lemma EntriesIs(t: Str)
    ensures Entries(t) == match OneEntry(t) case Fail => Fail case Ok(e, after) => MoreEntries(e, after)
  {
  }

  lemma Continue(t: Str, after: Str, r: Str, r': Str)
    requires Suffix(after, SkipSpace(t)) && |after| < |SkipSpace(t)| && Suffix(after, t)
    requires Suffix(r, after) && |r| < |after|
    ensures Suffix(r, SkipSpace(t)) && |r| < |SkipSpace(t)| && Suffix(r, t)
    ensures Swap(t, r, r') == Swap(t, after, Swap(after, r, r'))
  {
    SwapWithin(t, after, r, r');
    SuffixTrans(r, after, SkipSpace(t));
  }

  lemma {:induction false} MoreElementsLocal(first: JSON, after: Str, r': Str)
    requires MoreElements(first, after).Ok? && Follows(MoreElements(first, after).rest, r')
    ensures var r := MoreElements(first, after).rest;
            && Suffix(r, after) && |r| < |after| && Follows(after, Swap(after, r, r'))
            && MoreElements(first, Swap(after, r, r')) == Ok(MoreElements(first, after).value, r')
    decreases |after|, 3
  {
    var r := MoreElements(first, after).rest;
    var u := SkipSpace(after);
    if u[0] == RBRACKET {
      SameEnd(r, r');
    } else {
      ElementsLocal(u[1..], r');
    }
    NextLocal(after, r, r');
  }

  lemma {:induction false} ElementsLocal(t: Str, r': Str)
    requires Elements(t).Ok? && Follows(Elements(t).rest, r')
    ensures var r := Elements(t).rest;
            && Suffix(r, SkipSpace(t)) && |r| < |SkipSpace(t)| && Suffix(r, t)
            && Elements(Swap(t, r, r')) == Ok(Elements(t).value, r')
    decreases |t|, 2
  {
    ElementsIs(t);
    var first, after := Value(t).value, Value(t).rest;
    var r := MoreElements(first, after).rest;
    MoreElementsLocal(first, after, r');
    ValueLocal(t, Swap(after, r, r'));
    Continue(t, after, r, r');
    ElementsIs(Swap(t, r, r'));
  }

  /** A value with its raw text. */
  function RawEntry(key: Str, w: Str): (r: Parsed<Entry>) {
    match Value(w)
    case Fail => Fail
    case Ok(val, rest) => Ok(Entry(key, val, w[..|w| - |rest|]), rest)
  }

  /** What `OneEntry` makes of what follows a name. */
  function EntryValue(key: Str, after: Str): (r: Parsed<Entry>) {
    var u := SkipSpace(after);
    if u == [] || u[0] != COLON then Fail else RawEntry(key, SkipSpace(u[1..]))
  }

  lemma EntryIs(text: Str)
    ensures var t := SkipSpace(text);
            OneEntry(text) ==
            if t == [] || t[0] != QUOTE then Fail
            else match StringTail(t[1..]) case Fail => Fail case Ok(key, after) => EntryValue(key, after)
  {
  }

  lemma {:induction false} RawEntryLocal(key: Str, w: Str, r': Str)
    requires RawEntry(key, w).Ok? && Follows(RawEntry(key, w).rest, r')
    ensures var r := RawEntry(key, w).rest;
            && Suffix(r, SkipSpace(w)) && |r| < |SkipSpace(w)| && Suffix(r, w)
            && RawEntry(key, Swap(w, r, r')) == Ok(RawEntry(key, w).value, r')
    ensures Parse(RawEntry(key, w).value.raw) == Some(RawEntry(key, w).value.val)
    decreases |w|, 2
  {
    ValueLocal(w, r');
    ValueLocal(w, []);
    SwapPrefix(w, RawEntry(key, w).rest, r');
  }

  lemma {:induction false} EntryValueLocal(key: Str, after: Str, r': Str)
    requires EntryValue(key, after).Ok? && Follows(EntryValue(key, after).rest, r')
    ensures var r := EntryValue(key, after).rest;
            && Suffix(r, after) && |r| < |after|
            && EntryValue(key, Swap(after, r, r')) == Ok(EntryValue(key, after).value, r')
    ensures Parse(EntryValue(key, after).value.raw) == Some(EntryValue(key, after).value.val)
    decreases |after|, 2
  {
    var r := EntryValue(key, after).rest;
    var u := SkipSpace(after);
    SkipSuffix(u[1..]);
    RawEntryLocal(key, SkipSpace(u[1..]), r');
    SkipLocal(u[1..], r, r');
    NextLocal(after, r, r');
  }

  lemma SwapPrefix(t: Str, r: Str, r': Str)
    requires Suffix(r, t)
    ensures var s := Swap(t, r, r'); s[..|s| - |r'|] == t[..|t| - |r|]
    ensures Swap(t, r, []) == t[..|t| - |r|]
  {
  }

  lemma {:induction false} EntryLocal(text: Str, r': Str)
    requires OneEntry(text).Ok? && Follows(OneEntry(text).rest, r')
    ensures var r := OneEntry(text).rest;
            && Suffix(r, SkipSpace(text)) && |r| < |SkipSpace(text)| && Suffix(r, text)
            && OneEntry(Swap(text, r, r')) == Ok(OneEntry(text).value, r')
    ensures Parse(OneEntry(text).value.raw) == Some(OneEntry(text).value.val)
    decreases |text|, 2
  {
    EntryIs(text);
    var r := OneEntry(text).rest;
    var t := SkipSpace(text);
    var key, after := StringTail(t[1..]).value, StringTail(t[1..]).rest;
    EntryValueLocal(key, after, r');
    TailLocal(t[1..], Swap(after, r, r'));
    SwapWithin(t[1..], after, r, r');
    SwapRest(t, 1, r, r');
    SkipLocal(text, r, r');
    EntryIs(Swap(text, r, r'));
  }

  lemma {:induction false} MoreEntriesLocal(first: Entry, after: Str, r': Str)
    requires MoreEntries(first, after).Ok? && Follows(MoreEntries(first, after).rest, r')
    requires Parse(first.raw) == Some(first.val)
    ensures var r := MoreEntries(first, after).rest;
            && Suffix(r, after) && |r| < |after| && Follows(after, Swap(after, r, r'))
            && MoreEntries(first, Swap(after, r, r')) == Ok(MoreEntries(first, after).value, r')
    ensures RawParses(MoreEntries(first, after).value)
    decreases |after|, 3
  {
    var r := MoreEntries(first, after).rest;
    var u := SkipSpace(after);
    if u[0] == RBRACE {
      SameEnd(r, r');
    } else {
      EntriesLocal(u[1..], r');
    }
    NextLocal(after, r, r');
  }

  lemma {:induction false} EntriesLocal(t: Str, r': Str)
    requires Entries(t).Ok? && Follows(Entries(t).rest, r')
    ensures var r := Entries(t).rest;
            && Suffix(r, SkipSpace(t)) && |r| < |SkipSpace(t)| && Suffix(r, t)
            && Entries(Swap(t, r, r')) == Ok(Entries(t).value, r')
    ensures RawParses(Entries(t).value)
    decreases |t|, 3
  {
    EntriesIs(t);
    var first, after := OneEntry(t).value, OneEntry(t).rest;
    var r := MoreEntries(first, after).rest;
    EntryLocal(t, after);
    MoreEntriesLocal(first, after, r');
    EntryLocal(t, Swap(after, r, r'));
    Continue(t, after, r, r');
    EntriesIs(Swap(t, r, r'));
  }

  /** The raw text of every entry parses to the entry's value. */
  ghost predicate RawParses(es: seq<Entry>) {
    forall i | 0 <= i < |es| :: Parse(es[i].raw) == Some(es[i].val)
  }

  // ---- Raw members of an object ----

  lemma MembersOfLast(es: seq<Entry>)
    requires es != []
    ensures var last := es[|es| - 1]; MembersOf(es) == MembersOf(es[..|es| - 1]) + [Member(last.key, last.val)]
  {
  }

  lemma {:induction false} RawMapParses(es: seq<Entry>, k: Str)
    requires RawParses(es)
    ensures k in RawMap(es) <==> Get(Assemble(es), k).Some?
    ensures k in RawMap(es) ==> Parse(RawMap(es)[k]) == Get(Assemble(es), k)
  {
    if es != [] {
      var front, last := es[..|es| - 1], es[|es| - 1];
      RawMapParses(front, k);
      MembersOfLast(es);
      SetAllLast(MembersOf(front), Member(last.key, last.val), k);
    }
  }

  /**
   * An object's members read raw and parsed one by one are those of the object parsed whole,
   * whatever spaces, nesting and repeated names it has; and one reading fails when the other does.
   */
  lemma RawMembersAgree(text: Str, k: Str)
    ensures ParseEntries(text).Some? <==> ParseObject(text).Some?
    ensures ParseEntries(text).Some? ==>
              var m, ms := RawMap(ParseEntries(text).value), ParseObject(text).value;
              && (k in m <==> Get(ms, k).Some?)
              && (k in m ==> Parse(m[k]) == Get(ms, k))
  {
    EntriesOfObject(text);
    if ParseEntries(text).Some? {
      RawMapParses(ParseEntries(text).value, k);
    }
  }

  /** What stands between the braces. */
  function EntryList(body: Str): (r: Parsed<seq<Entry>>) {
    var u := SkipSpace(body);
    if u != [] && u[0] == RBRACE then Ok([], u[1..]) else Entries(body)
  }

  lemma EntryListParses(body: Str)
    requires EntryList(body).Ok?
    ensures RawParses(EntryList(body).value)
  {
    if Entries(body).Ok? {
      EntriesLocal(body, []);
    }
  }

  lemma ObjectIs(text: Str)
    requires SkipSpace(text) != [] && SkipSpace(text)[0] == LBRACE
    ensures Value(text) == Assembled(EntryList(SkipSpace(text)[1..]))
  {
    ValueOfSkipped(text);
    ValueIsBracketed(SkipSpace(text));
  }

  lemma EntriesOfObject(text: Str)
    ensures match ParseEntries(text)
            case None => ParseObject(text) == None
            case Some(es) => ParseObject(text) == Some(Assemble(es)) && RawParses(es)
  {
    var t := SkipSpace(text);
    if t != [] && t[0] == LBRACE {
      ObjectIs(text);
      if EntryList(t[1..]).Ok? {
        EntryListParses(t[1..]);
      }
    } else {
      NotAnObject(text);
    }
  }

  lemma NotAnObject(text: Str)
    requires var t := SkipSpace(text); t == [] || t[0] != LBRACE
    ensures ParseObject(text) == None && ParseEntries(text) == None
  {
  }
}
