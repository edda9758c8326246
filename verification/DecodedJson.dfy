/**
 * Go reads JSON from bytes, TypeScript from the text the bytes decode to. Both readings of any
 * bytes, valid UTF-8 or not, succeed together and find the same names with the same raw values,
 * decoded.
 */
module DecodedJson {
  import opened Text
  import opened Json
  import opened JsonParse
  import opened RawMembers
  import Utf8

  // ---- ASCII units stand for themselves ----

  lemma FirstAscii(b: Bytes)
    ensures b == [] <==> Utf8.ToText(b) == []
    ensures b != [] ==> (b[0] < 0x80 <==> Utf8.ToText(b)[0] < 0x80)
    ensures b != [] && b[0] < 0x80 ==> Utf8.ToText(b) == [b[0]] + Utf8.ToText(b[1..])
    ensures b != [] && b[0] < 0x80 ==> Utf8.ToText(b)[1..] == Utf8.ToText(b[1..])
  {
  }

  ghost predicate AsciiTo(s: Str, n: nat) {
    n <= |s| && forall i | 0 <= i < n :: s[i] < 0x80
  }

  lemma AsciiToRest(s: Str, n: nat)
    requires 0 < n && AsciiTo(s, n)
    ensures AsciiTo(s[1..], n - 1) && s[0] < 0x80
  {
  }

  lemma RestSlices(s: Str, n: nat)
    requires 0 < n <= |s|
    ensures s[..n] == [s[0]] + s[1..][..n - 1] && s[1..][n - 1..] == s[n..]
  {
  }

  lemma {:induction false} AsciiFront(b: Bytes, n: nat)
    requires AsciiTo(b, n) || AsciiTo(Utf8.ToText(b), n)
    ensures n <= |b| && n <= |Utf8.ToText(b)|
    ensures b[..n] == Utf8.ToText(b)[..n] && Utf8.ToText(b)[n..] == Utf8.ToText(b[n..])
  {
    if n > 0 {
      var t := Utf8.ToText(b);
      FirstAscii(b);
      if AsciiTo(b, n) {
        AsciiToRest(b, n);
      } else {
        AsciiToRest(t, n);
      }
      AsciiFront(b[1..], n - 1);
      RestSlices(b, n);
      RestSlices(t, n);
    }
  }

  lemma {:induction false} SkipText(b: Bytes)
    ensures IsBytes(SkipSpace(b)) && SkipSpace(Utf8.ToText(b)) == Utf8.ToText(SkipSpace(b))
  {
    FirstAscii(b);
    if b != [] && IsSpace(b[0]) {
      SkipText(b[1..]);
    }
  }

  /** Both fail, or both stop at the same place. */
  ghost predicate Alike<T(!new), U(!new)>(p: Parsed<T>, q: Parsed<U>) {
    match (p, q)
    case (Fail, Fail) => true
    case (Ok(_, r), Ok(_, r')) => IsBytes(r) && r' == Utf8.ToText(r)
    case _ => false
  }

  // ---- Strings ----

  ghost predicate AllAscii(s: Str) {
    forall i | 0 <= i < |s| :: s[i] < 0x80
  }

  /** The two are one ASCII string, or neither is ASCII. */
  ghost predicate SameAscii(s: Str, s': Str) {
    AllAscii(s) || AllAscii(s') ==> s == s'
  }

  lemma HexAscii(t: Str)
    requires Hex4(t).Ok?
    ensures AsciiTo(t, 4)
  {
  }

  lemma HexFour(b: Bytes)
    requires AsciiTo(b, 4) || AsciiTo(Utf8.ToText(b), 4)
    ensures Hex4(Utf8.ToText(b)) ==
            match Hex4(b) case Fail => Fail case Ok(u, _) => Ok(u, Utf8.ToText(b[4..]))
  {
    AsciiFront(b, 4);
    FirstFour(b, Utf8.ToText(b));
  }

  lemma HexText(b: Bytes)
    ensures Alike(Hex4(b), Hex4(Utf8.ToText(b)))
    ensures Hex4(b).Ok? ==> Hex4(Utf8.ToText(b)) == Ok(Hex4(b).value, Utf8.ToText(b[4..]))
  {
    if Hex4(b).Ok? {
      HexAscii(b);
      HexFour(b);
    } else if Hex4(Utf8.ToText(b)).Ok? {
      HexAscii(Utf8.ToText(b));
      HexFour(b);
    }
  }

  lemma FirstFour(b: Str, t: Str)
    requires |b| >= 4 && |t| >= 4 && b[..4] == t[..4]
    ensures b[0] == t[0] && b[1] == t[1] && b[2] == t[2] && b[3] == t[3]
  {
    assert b[..4][0] == t[..4][0] && b[..4][1] == t[..4][1] && b[..4][2] == t[..4][2] && b[..4][3] == t[..4][3];
  }

  /** What a backslash is followed by. */
  function Escaped(t: Str): (r: Parsed<Unit>) {
    if t == [] then Fail
    else if t[0] == 0x75 then Hex4(t[1..])
    else match ShortEscape(t[0])
      case Some(u) => Ok(u, t[1..])
      case None => Fail
  }

  lemma EscapeIs(t: Str)
    requires t != [] && t[0] == BACKSLASH
    ensures StringUnit(t) == Escaped(t[1..])
  {
  }

  lemma EscapeText(b: Bytes)
    ensures Alike(Escaped(b), Escaped(Utf8.ToText(b)))
    ensures Escaped(b).Ok? ==> Escaped(Utf8.ToText(b)).value == Escaped(b).value
  {
    FirstAscii(b);
    if b != [] {
      ShortEscapeAscii(b[0]);
      ShortEscapeAscii(Utf8.ToText(b)[0]);
      if b[0] == 0x75 {
        HexText(b[1..]);
      }
    }
  }

  lemma ShortEscapeAscii(u: Unit)
    ensures ShortEscape(u).Some? ==> u < 0x80
  {
  }

  /** A unit that starts with an ASCII byte. */
  lemma UnitText(b: Bytes)
    requires b != [] && b[0] < 0x80
    ensures Alike(StringUnit(b), StringUnit(Utf8.ToText(b)))
    ensures StringUnit(b).Ok? ==> StringUnit(Utf8.ToText(b)).value == StringUnit(b).value
  {
    FirstAscii(b);
    if b[0] == BACKSLASH {
      EscapeIs(b);
      EscapeIs(Utf8.ToText(b));
      EscapeText(b[1..]);
    }
  }

  lemma HighStep(u: Unit, t: Str)
    requires u >= 0x80
    ensures StringTail([u] + t) == match StringTail(t) case Fail => Fail case Ok(s, r) => Ok([u] + s, r)
  {
    assert ([u] + t)[1..] == t;
  }

  lemma ConsAppend(c: Str, s: Str)
    requires c != []
    ensures c + s == [c[0]] + (c[1..] + s)
  {
  }

  /** Units from U+0080 on stand for themselves in a string. */
  lemma {:induction false} TailSkips(c: Str, t: Str)
    requires forall i | 0 <= i < |c| :: c[i] >= 0x80
    ensures StringTail(c + t) == match StringTail(t) case Fail => Fail case Ok(s, r) => Ok(c + s, r)
  {
    if c == [] {
      assert c + t == t;
      assert StringTail(t).Ok? ==> c + StringTail(t).value == StringTail(t).value;
    } else {
      TailSkips(c[1..], t);
      HighStep(c[0], c[1..] + t);
      ConsAppend(c, t);
      if StringTail(t).Ok? {
        ConsAppend(c, StringTail(t).value);
      }
    }
  }

  ghost predicate AlikeStrings(p: Parsed<Str>, q: Parsed<Str>) {
    Alike(p, q) && (p.Ok? ==> SameAscii(p.value, q.value))
  }

  lemma SameAsciiCons(u: Unit, s: Str, s': Str)
    requires SameAscii(s, s')
    ensures SameAscii([u] + s, [u] + s')
  {
    assert ([u] + s)[1..] == s && ([u] + s')[1..] == s';
    assert AllAscii([u] + s) ==> AllAscii(([u] + s)[1..]);
    assert AllAscii([u] + s') ==> AllAscii(([u] + s')[1..]);
  }

  lemma NotAscii(c: Str, s: Str)
    requires c != [] && c[0] >= 0x80
    ensures !AllAscii(c + s)
  {
    assert (c + s)[0] == c[0];
  }

  lemma TailAfterUnit(b: Bytes, rest: Bytes)
    requires b != [] && b[0] < 0x80 && b[0] != QUOTE
    requires StringUnit(b).Ok? && rest == StringUnit(b).rest
    requires AlikeStrings(StringTail(rest), StringTail(Utf8.ToText(rest)))
    ensures AlikeStrings(StringTail(b), StringTail(Utf8.ToText(b)))
  {
    FirstAscii(b);
    UnitText(b);
    if StringTail(rest).Ok? {
      SameAsciiCons(StringUnit(b).value, StringTail(rest).value, StringTail(Utf8.ToText(rest)).value);
    }
  }

  lemma TailAfterHigh(c: Str, c': Str, rest: Bytes)
    requires c != [] && c' != [] && (forall i | 0 <= i < |c| :: c[i] >= 0x80) && (forall i | 0 <= i < |c'| :: c'[i] >= 0x80)
    requires AlikeStrings(StringTail(rest), StringTail(Utf8.ToText(rest)))
    ensures AlikeStrings(StringTail(c + rest), StringTail(c' + Utf8.ToText(rest)))
  {
    TailSkips(c, rest);
    TailSkips(c', Utf8.ToText(rest));
    if StringTail(rest).Ok? {
      NotAscii(c, StringTail(rest).value);
      NotAscii(c', StringTail(Utf8.ToText(rest)).value);
    }
  }

  lemma TailAtOnce(b: Bytes)
    requires b == [] || b[0] == QUOTE
    ensures AlikeStrings(StringTail(b), StringTail(Utf8.ToText(b)))
  {
    FirstAscii(b);
  }

  lemma {:induction false} TailText(b: Bytes)
    ensures AlikeStrings(StringTail(b), StringTail(Utf8.ToText(b)))
    decreases |b|
  {
    if b == [] || b[0] == QUOTE {
      TailAtOnce(b);
    } else if b[0] < 0x80 {
      UnitText(b);
      if StringUnit(b).Ok? {
        TailText(StringUnit(b).rest);
        TailAfterUnit(b, StringUnit(b).rest);
      }
    } else {
      var n := Utf8.DecodeChar(b).width;
      assert b == b[..n] + b[n..];
      HighChar(b);
      TailText(b[n..]);
      TailAfterHigh(b[..n], Utf8.DecodeChar(b).units, b[n..]);
    }
  }

  lemma HighChar(b: Bytes)
    requires b != [] && b[0] >= 0x80
    ensures forall i | 0 <= i < Utf8.DecodeChar(b).width :: b[i] >= 0x80
    ensures forall i | 0 <= i < |Utf8.DecodeChar(b).units| :: Utf8.DecodeChar(b).units[i] >= 0x80
  {
  }

  // ---- Numbers and words ----

  lemma {:induction false} DigitCountText(b: Bytes)
    ensures DigitCount(Utf8.ToText(b)) == DigitCount(b)
  {
    FirstAscii(b);
    if b != [] && IsDigit(b[0]) {
      DigitCountText(b[1..]);
    }
  }

  lemma DigitsAscii(b: Bytes, n: nat)
    requires n <= DigitCount(b)
    ensures var t := Utf8.ToText(b);
            n <= |t| && t[..n] == b[..n] && t[n..] == Utf8.ToText(b[n..])
  {
    assert AsciiTo(b, n);
    AsciiFront(b, n);
  }

  /** How many digits a number token has. */
  function NumberLength(u: Str): (n: nat)
    ensures n <= DigitCount(u)
  {
    if DigitCount(u) > 0 && u[0] == 0x30 then 1 else DigitCount(u)
  }

  /** The number token of the first `n` digits. */
  function Counted(u: Str, n: nat): (r: Parsed<int>)
    requires n <= |u|
  {
    if n == 0 || DigitsValue(u[..n]) > MAX_SAFE_INTEGER then Fail
    else if u[n..] != [] && IsNumberUnit(u[n..][0]) then Fail
    else Ok(DigitsValue(u[..n]), u[n..])
  }

  lemma MagnitudeIs(u: Str)
    ensures Magnitude(u) == Counted(u, NumberLength(u))
  {
    var n := NumberLength(u);
    assert n < |u| ==> u[n] == u[n..][0];
  }

  lemma NumberUnitText(b: Bytes)
    ensures b != [] && IsNumberUnit(b[0]) <==> Utf8.ToText(b) != [] && IsNumberUnit(Utf8.ToText(b)[0])
  {
    FirstAscii(b);
  }

  lemma CountedText(b: Bytes, n: nat)
    requires n <= DigitCount(b)
    ensures n <= |Utf8.ToText(b)|
    ensures Alike(Counted(b, n), Counted(Utf8.ToText(b), n))
    ensures Counted(b, n).Ok? ==> Counted(Utf8.ToText(b), n).value == Counted(b, n).value
  {
    DigitsAscii(b, n);
    NumberUnitText(b[n..]);
  }

  lemma MagnitudeText(b: Bytes)
    ensures Alike(Magnitude(b), Magnitude(Utf8.ToText(b)))
    ensures Magnitude(b).Ok? ==> Magnitude(Utf8.ToText(b)).value == Magnitude(b).value
  {
    DigitCountText(b);
    FirstAscii(b);
    CountedText(b, NumberLength(b));
    MagnitudeIs(b);
    MagnitudeIs(Utf8.ToText(b));
  }

  lemma NumberText(b: Bytes)
    ensures Alike(Number(b), Number(Utf8.ToText(b)))
  {
    FirstAscii(b);
    if b != [] {
      NumberIs(b);
      NumberIs(Utf8.ToText(b));
      MagnitudeText(if b[0] == MINUS then b[1..] else b);
    }
  }

  lemma WordText(b: Bytes, word: Str, v: JSON)
    requires AllAscii(word)
    ensures Alike(Literal(b, word, v), Literal(Utf8.ToText(b), word, v))
  {
    var t, n := Utf8.ToText(b), |word|;
    if word <= b || word <= t {
      assert word <= b ==> AsciiTo(b, n);
      assert word <= t ==> AsciiTo(t, n);
      AsciiFront(b, n);
      assert word <= b <==> b[..n] == word;
      assert word <= t <==> t[..n] == word;
    }
  }

  // ---- Values end in ASCII, so the cut after one is a cut of the text ----

  ghost predicate EndsAscii(t: Str, r: Str) {
    Suffix(r, t) && |r| < |t| && t[|t| - |r| - 1] < 0x80
  }

  lemma EndsWithin(t: Str, u: Str, r: Str)
    requires Suffix(u, t) && EndsAscii(u, r)
    ensures EndsAscii(t, r)
  {
    SuffixTrans(r, u, t);
    assert u[|u| - |r| - 1] == t[|t| - |r| - 1];
  }

  lemma EndsAfterOne(t: Str)
    requires t != [] && t[0] < 0x80
    ensures EndsAscii(t, t[1..])
  {
  }

  lemma {:induction false} TailEnds(t: Str)
    requires StringTail(t).Ok?
    ensures EndsAscii(t, StringTail(t).rest)
    decreases |t|
  {
    if t[0] == QUOTE {
      EndsAfterOne(t);
    } else {
      var u := StringUnit(t).rest;
      UnitLocal(t, u);
      TailEnds(u);
      EndsWithin(t, u, StringTail(t).rest);
    }
  }

  lemma NumberEnds(t: Str)
    requires t != [] && Number(t).Ok?
    ensures EndsAscii(t, Number(t).rest)
  {
    NumberIs(t);
    var u := if t[0] == MINUS then t[1..] else t;
    MagnitudeIs(u);
    var n := NumberLength(u);
    SuffixRest(u, n);
    assert IsDigit(u[n - 1]);
    assert EndsAscii(u, u[n..]);
    EndsWithin(t, u, u[n..]);
  }

  lemma WordEnds(t: Str, word: Str, v: JSON)
    requires Literal(t, word, v).Ok? && word != [] && AllAscii(word)
    ensures EndsAscii(t, Literal(t, word, v).rest)
  {
    SuffixRest(t, |word|);
    assert t[|word| - 1] == word[|word| - 1];
  }

  /** From the token after a value to the value. */
  lemma EndsAfter(t: Str, after: Str, r: Str)
    requires Suffix(after, t) && EndsAscii(SkipSpace(after), r)
    ensures EndsAscii(t, r)
  {
    SkipSuffix(after);
    EndsWithin(after, SkipSpace(after), r);
    EndsWithin(t, after, r);
  }

  lemma {:induction false} ElementsEnds(t: Str)
    requires Elements(t).Ok?
    ensures EndsAscii(t, Elements(t).rest)
    decreases |t|
  {
    ElementsIs(t);
    var after := Value(t).rest;
    var u := SkipSpace(after);
    ValueLocal(t, after);
    EndsAfterOne(u);
    if u[0] == COMMA {
      ElementsEnds(u[1..]);
      EndsWithin(u, u[1..], Elements(t).rest);
    }
    EndsAfter(t, after, Elements(t).rest);
  }

  lemma {:induction false} EntriesEnds(t: Str)
    requires Entries(t).Ok?
    ensures EndsAscii(t, Entries(t).rest)
    decreases |t|
  {
    EntriesIs(t);
    var after := OneEntry(t).rest;
    var u := SkipSpace(after);
    EntryLocal(t, after);
    EndsAfterOne(u);
    if u[0] == COMMA {
      EntriesEnds(u[1..]);
      EndsWithin(u, u[1..], Entries(t).rest);
    }
    EndsAfter(t, after, Entries(t).rest);
  }

  lemma ValueEnds(text: Str)
    requires Value(text).Ok?
    ensures EndsAscii(text, Value(text).rest)
  {
    var t := SkipSpace(text);
    ValueOfSkipped(text);
    SkipSuffix(text);
    if t[0] == LBRACKET || t[0] == LBRACE {
      BracketEnds(t);
    } else {
      ScalarIs(t);
      ScalarEnds(t);
    }
    EndsWithin(text, t, Value(text).rest);
  }

  lemma BracketEnds(t: Str)
    requires t != [] && (t[0] == LBRACKET || t[0] == LBRACE) && Value(t).Ok?
    ensures EndsAscii(t, Value(t).rest)
  {
    ValueIsBracketed(t);
    var body := t[1..];
    var u := SkipSpace(body);
    SuffixRest(t, 1);
    if u != [] && u[0] == t[0] + 2 {
      EndsAfterOne(u);
      EndsAfter(t, body, u[1..]);
    } else {
      if t[0] == LBRACKET {
        ElementsEnds(body);
      } else {
        EntriesEnds(body);
      }
      EndsWithin(t, body, Value(t).rest);
    }
  }

  lemma WordsAscii()
    ensures AllAscii(NULL) && AllAscii(TRUE) && AllAscii(FALSE)
    ensures NULL != [] && TRUE != [] && FALSE != []
  {
    assert |NULL| == 4 && |TRUE| == 4 && |FALSE| == 5;
  }

  lemma ScalarEnds(t: Str)
    requires t != [] && Scalar(t).Ok?
    ensures EndsAscii(t, Scalar(t).rest)
  {
    WordsAscii();
    if t[0] == 0x6E {
      WordEnds(t, NULL, JNull);
    } else if t[0] == 0x74 {
      WordEnds(t, TRUE, JBool(true));
    } else if t[0] == 0x66 {
      WordEnds(t, FALSE, JBool(false));
    } else if t[0] == QUOTE {
      SuffixRest(t, 1);
      TailEnds(t[1..]);
      EndsWithin(t, t[1..], StringTail(t[1..]).rest);
    } else {
      NumberEnds(t);
    }
  }

  lemma LastAscii(a: Bytes, x: Byte)
    requires x < 0x80
    ensures Utf8.ToText(a + [x]) == Utf8.ToText(a) + [x]
  {
    Utf8.ToTextAscii(a, x, []);
    assert a + [x] + [] == a + [x];
  }

  /** What stands before the end decodes by itself. */
  lemma FrontText(w: Bytes, r: Bytes)
    requires EndsAscii(w, r)
    ensures var front := w[..|w| - |r|]; Utf8.ToText(w) == Utf8.ToText(front) + Utf8.ToText(r)
  {
    var n := |w| - |r| - 1;
    assert w == w[..n] + [w[n]] + r;
    assert w[..n + 1] == w[..n] + [w[n]];
    Utf8.ToTextAscii(w[..n], w[n], r);
    LastAscii(w[..n], w[n]);
  }

  // ---- Values ----

  ghost predicate AlikeEntry(e: Entry, e': Entry) {
    SameAscii(e.key, e'.key) && IsBytes(e.raw) && e'.raw == Utf8.ToText(e.raw)
  }

  ghost predicate AlikeEntries(es: seq<Entry>, es': seq<Entry>) {
    |es| == |es'| && forall i | 0 <= i < |es| :: AlikeEntry(es[i], es'[i])
  }

  lemma {:induction false} ValueText(b: Bytes)
    ensures Alike(Value(b), Value(Utf8.ToText(b)))
    decreases |b|, 1
  {
    SkipText(b);
    var t: Bytes := SkipSpace(b);
    ValueOfSkipped(b);
    ValueOfSkipped(Utf8.ToText(b));
    FirstAscii(t);
    if t != [] {
      SkipSuffix(b);
      if t[0] == LBRACKET || t[0] == LBRACE {
        BracketText(t);
      } else {
        ScalarIs(t);
        ScalarIs(Utf8.ToText(t));
        ScalarText(t);
      }
    }
  }

  lemma ScalarText(t: Bytes)
    requires t != []
    ensures Utf8.ToText(t) != [] && Alike(Scalar(t), Scalar(Utf8.ToText(t)))
  {
    FirstAscii(t);
    WordsAscii();
    if t[0] == 0x6E {
      WordText(t, NULL, JNull);
    } else if t[0] == 0x74 {
      WordText(t, TRUE, JBool(true));
    } else if t[0] == 0x66 {
      WordText(t, FALSE, JBool(false));
    } else if t[0] == QUOTE {
      TailText(t[1..]);
    } else {
      NumberText(t);
    }
  }

  lemma {:induction false} BracketText(t: Bytes)
    requires t != [] && (t[0] == LBRACKET || t[0] == LBRACE)
    ensures Alike(Value(t), Value(Utf8.ToText(t)))
    decreases |t|, 0
  {
    FirstAscii(t);
    ValueIsBracketed(t);
    ValueIsBracketed(Utf8.ToText(t));
    SkipText(t[1..]);
    FirstAscii(SkipSpace(t[1..]));
    ElementsText(t[1..]);
    EntriesText(t[1..]);
  }

  lemma {:induction false} ElementsText(b: Bytes)
    ensures Alike(Elements(b), Elements(Utf8.ToText(b)))
    decreases |b|, 2
  {
    ElementsIs(b);
    ElementsIs(Utf8.ToText(b));
    ValueText(b);
    match Value(b)
    case Fail =>
    case Ok(v, after) =>
      SkipText(after);
      var u: Bytes := SkipSpace(after);
      FirstAscii(u);
      if u != [] && u[0] == COMMA {
        ElementsText(u[1..]);
      }
  }

  lemma {:induction false} RawEntryText(key: Str, key': Str, w: Bytes)
    requires SameAscii(key, key')
    ensures var e, e' := RawEntry(key, w), RawEntry(key', Utf8.ToText(w));
            Alike(e, e') && (e.Ok? ==> AlikeEntry(e.value, e'.value))
    decreases |w|, 2
  {
    ValueText(w);
    match Value(w)
    case Fail =>
    case Ok(_, rest) =>
      ValueEnds(w);
      FrontText(w, rest);
  }

  lemma {:induction false} EntryText(b: Bytes)
    ensures var e, e' := OneEntry(b), OneEntry(Utf8.ToText(b));
            Alike(e, e') && (e.Ok? ==> AlikeEntry(e.value, e'.value))
    decreases |b|, 2
  {
    EntryIs(b);
    EntryIs(Utf8.ToText(b));
    SkipText(b);
    var t: Bytes := SkipSpace(b);
    FirstAscii(t);
    if t != [] && t[0] == QUOTE {
      TailText(t[1..]);
      match StringTail(t[1..])
      case Fail =>
      case Ok(key, after) =>
        EntryValueText(key, StringTail(Utf8.ToText(t[1..])).value, after);
    }
  }

  lemma {:induction false} EntryValueText(key: Str, key': Str, after: Bytes)
    requires SameAscii(key, key')
    ensures var e, e' := EntryValue(key, after), EntryValue(key', Utf8.ToText(after));
            Alike(e, e') && (e.Ok? ==> AlikeEntry(e.value, e'.value))
    decreases |after|, 2
  {
    SkipText(after);
    var u: Bytes := SkipSpace(after);
    FirstAscii(u);
    if u != [] && u[0] == COLON {
      SkipText(u[1..]);
      RawEntryText(key, key', SkipSpace(u[1..]));
    }
  }

  lemma AlikeCons(e: Entry, e': Entry, es: seq<Entry>, es': seq<Entry>)
    requires AlikeEntry(e, e') && AlikeEntries(es, es')
    ensures AlikeEntries([e] + es, [e'] + es')
  {
  }

  lemma {:induction false} MoreEntriesText(e: Entry, e': Entry, after: Bytes)
    requires AlikeEntry(e, e')
    ensures var es, es' := MoreEntries(e, after), MoreEntries(e', Utf8.ToText(after));
            Alike(es, es') && (es.Ok? ==> AlikeEntries(es.value, es'.value))
    decreases |after|, 4
  {
    SkipText(after);
    var u: Bytes := SkipSpace(after);
    FirstAscii(u);
    if u != [] && u[0] == COMMA {
      EntriesText(u[1..]);
      var es, es' := Entries(u[1..]), Entries(Utf8.ToText(u[1..]));
      if es.Ok? {
        AlikeCons(e, e', es.value, es'.value);
      }
    }
  }

  lemma {:induction false} EntriesText(b: Bytes)
    ensures var es, es' := Entries(b), Entries(Utf8.ToText(b));
            Alike(es, es') && (es.Ok? ==> AlikeEntries(es.value, es'.value))
    decreases |b|, 3
  {
    EntriesIs(b);
    EntriesIs(Utf8.ToText(b));
    EntryText(b);
    if OneEntry(b).Ok? {
      MoreEntriesText(OneEntry(b).value, OneEntry(Utf8.ToText(b)).value, OneEntry(b).rest);
    }
  }

  // ---- Raw members ----

  lemma EntryListText(body: Bytes)
    ensures var es, es' := EntryList(body), EntryList(Utf8.ToText(body));
            Alike(es, es') && (es.Ok? ==> AlikeEntries(es.value, es'.value))
  {
    SkipText(body);
    FirstAscii(SkipSpace(body));
    EntriesText(body);
  }

  /** The list when nothing but space follows it. */
  function Alone(r: Parsed<seq<Entry>>): Option<seq<Entry>> {
    match r
    case Fail => None
    case Ok(es, rest) => if SkipSpace(rest) == [] then Some(es) else None
  }

  lemma ParseEntriesIs(text: Str)
    ensures var t := SkipSpace(text);
            ParseEntries(text) == if t == [] || t[0] != LBRACE then None else Alone(EntryList(t[1..]))
  {
  }

  lemma AllSpaceText(b: Bytes)
    ensures SkipSpace(b) == [] <==> SkipSpace(Utf8.ToText(b)) == []
  {
    SkipText(b);
    FirstAscii(SkipSpace(b));
  }

  lemma ParseEntriesText(b: Bytes)
    ensures match (ParseEntries(b), ParseEntries(Utf8.ToText(b)))
            case (None, None) => true
            case (Some(es), Some(es')) => AlikeEntries(es, es')
            case _ => false
  {
    SkipText(b);
    var t: Bytes := SkipSpace(b);
    FirstAscii(t);
    ParseEntriesIs(b);
    ParseEntriesIs(Utf8.ToText(b));
    if t != [] && t[0] == LBRACE {
      EntryListText(t[1..]);
      if EntryList(t[1..]).Ok? {
        AllSpaceText(EntryList(t[1..]).rest);
      }
    }
  }

  lemma {:induction false} RawMapText(es: seq<Entry>, es': seq<Entry>, k: Str)
    requires AlikeEntries(es, es') && AllAscii(k)
    ensures k in RawMap(es) <==> k in RawMap(es')
    ensures k in RawMap(es) ==> IsBytes(RawMap(es)[k]) && RawMap(es')[k] == Utf8.ToText(RawMap(es)[k])
  {
    if es != [] {
      var n := |es| - 1;
      RawMapText(es[..n], es'[..n], k);
      assert AlikeEntry(es[n], es'[n]);
    }
  }

  /**
   * The raw value an ASCII name has in the bytes decodes to the one it has in their text, and
   * parses to the value of that name in the object the text parses to; one is there when the
   * other is.
   */
  lemma RawMemberDecodes(b: Bytes, k: Str)
    requires AllAscii(k)
    ensures match RawMember(b, k)
            case None => RawMember(Utf8.ToText(b), k) == None
            case Some(raw) => IsBytes(raw) && RawMember(Utf8.ToText(b), k) == Some(Utf8.ToText(raw))
    ensures match RawMember(b, k)
            case None => ParseObject(Utf8.ToText(b)).None? || Get(ParseObject(Utf8.ToText(b)).value, k) == None
            case Some(raw) =>
              && IsBytes(raw) && ParseObject(Utf8.ToText(b)).Some?
              && Parse(Utf8.ToText(raw)).Some?
              && Get(ParseObject(Utf8.ToText(b)).value, k) == Parse(Utf8.ToText(raw))
  {
    ParseEntriesText(b);
    if ParseEntries(b).Some? {
      RawMapText(ParseEntries(b).value, ParseEntries(Utf8.ToText(b)).value, k);
    }
    RawMembersAgree(Utf8.ToText(b), k);
  }
}
