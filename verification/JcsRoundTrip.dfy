/** Printing then parsing is the identity, and what follows from it. */
module JcsRoundTrip {
  import opened Text
  import opened Json
  import opened JsonParse
  import opened Jcs
  import Utf8

  // ---- Strings ----

  lemma HexDigits(u: Unit)
    ensures Hex4(UnicodeEscape(u)[2..]) == Ok(u, [])
  {
    var e := UnicodeEscape(u);
    assert HexValue(e[2]) == Some(u / 16 / 16 / 16);
    assert HexValue(e[3]) == Some(u / 16 / 16 % 16);
    assert HexValue(e[4]) == Some(u / 16 % 16);
    assert HexValue(e[5]) == Some(u % 16);
  }

  lemma UnitRoundTrip(u: Unit, rest: Str)
    ensures EscapeUnit(u) != [] && EscapeUnit(u)[0] != QUOTE
    ensures StringUnit(EscapeUnit(u) + rest) == Ok(u, rest)
  {
    var e := EscapeUnit(u);
    var t := e + rest;
    assert t[|e|..] == rest;
    if e == UnicodeEscape(u) {
      HexDigits(u);
      assert t[2..][4..] == rest;
    }
  }

  lemma StringStep(text: Str, u: Unit, tail: Str, s: Str, rest: Str)
    requires text != [] && text[0] != QUOTE && StringUnit(text) == Ok(u, tail)
    requires StringTail(tail) == Ok(s, rest)
    ensures StringTail(text) == Ok([u] + s, rest)
  {
  }

  lemma PairStep(hi: Unit, lo: Unit, tail: Str, s: Str, rest: Str)
    requires Utf8.IsHigh(hi) && Utf8.IsLow(lo) && StringTail(tail) == Ok(s, rest)
    ensures StringTail([hi, lo] + tail) == Ok([hi, lo] + s, rest)
  {
    var inner := [lo] + tail;
    assert inner[1..] == tail;
    StringStep(inner, lo, tail, s, rest);
    assert ([hi, lo] + tail)[1..] == inner;
    StringStep([hi, lo] + tail, hi, inner, [lo] + s, rest);
    assert [hi] + ([lo] + s) == [hi, lo] + s;
  }

  lemma {:induction false} StringRoundTrip(s: Str, rest: Str)
    ensures StringTail(Escape(s) + ([QUOTE] + rest)) == Ok(s, rest)
    decreases |s|
  {
    var end := [QUOTE] + rest;
    if s == [] {
      assert Escape(s) + end == end && end[1..] == rest;
    } else if Utf8.StartsPair(s) {
      var tail := Escape(s[2..]) + end;
      StringRoundTrip(s[2..], rest);
      PairStep(s[0], s[1], tail, s[2..], rest);
      Assoc([s[0], s[1]], Escape(s[2..]), end);
      assert s == [s[0], s[1]] + s[2..];
    } else {
      var tail := Escape(s[1..]) + end;
      StringRoundTrip(s[1..], rest);
      UnitRoundTrip(s[0], tail);
      StringStep(EscapeUnit(s[0]) + tail, s[0], tail, s[1..], rest);
      Assoc(EscapeUnit(s[0]), Escape(s[1..]), end);
      assert s == [s[0]] + s[1..];
    }
  }

  lemma QuoteRoundTrip(s: Str, rest: Str)
    ensures (Quote(s) + rest)[0] == QUOTE
    ensures StringTail((Quote(s) + rest)[1..]) == Ok(s, rest)
  {
    assert (Quote(s) + rest)[1..] == Escape(s) + ([QUOTE] + rest);
    StringRoundTrip(s, rest);
  }

  // ---- Numbers ----

  lemma {:induction false} DigitsRoundTrip(n: nat)
    ensures DigitsValue(Digits(n)) == n
    ensures Digits(n)[0] == 0x30 <==> n == 0
  {
    var ds := Digits(n);
    if n >= 10 {
      DigitsRoundTrip(n / 10);
      assert ds[..|ds| - 1] == Digits(n / 10);
    } else {
      assert DigitsValue(ds[..0]) == 0;
    }
  }

  lemma MagnitudeRoundTrip(n: nat, rest: Str)
    requires n <= MAX_SAFE_INTEGER
    requires rest == [] || !IsNumberUnit(rest[0])
    ensures Magnitude(Digits(n) + rest) == Ok(n, rest)
  {
    var ds := Digits(n);
    var u := ds + rest;
    DigitsRoundTrip(n);
    DigitCountAt(u, |ds|);
    assert u[..|ds|] == ds && u[|ds|..] == rest;
    assert n == 0 ==> ds == [0x30];
  }

  lemma NumberSign(u: Str, n: int, rest: Str)
    requires u != [] && u[0] != MINUS && Magnitude(u) == Ok(n, rest)
    ensures Number(u) == Ok(JNum(n), rest) && Number([MINUS] + u) == Ok(JNum(-n), rest)
  {
    assert ([MINUS] + u)[1..] == u;
  }

  lemma NumberRoundTrip(n: int, rest: Str)
    requires -MAX_SAFE_INTEGER <= n <= MAX_SAFE_INTEGER
    requires rest == [] || !IsNumberUnit(rest[0])
    ensures Number(Decimal(n) + rest) == Ok(JNum(n), rest)
  {
    var m := if n < 0 then -n else n;
    MagnitudeRoundTrip(m, rest);
    NumberSign(Digits(m) + rest, m, rest);
    Assoc([MINUS], Digits(m), rest);
  }

  // ---- Values ----

  /** A continuation that does not extend the value just printed. */
  predicate Delimits(v: JSON, rest: Str) {
    v.JNum? && rest != [] ==> !IsNumberUnit(rest[0])
  }

  /** Every printed value starts with an ASCII character that is not space and not a bracket's end. */
  lemma FirstUnit(v: JSON)
    ensures Stringify(v) != []
    ensures var c := Stringify(v)[0]; !IsSpace(c) && c != RBRACKET && c != RBRACE && c < 0x80
  {
  }

  lemma NoSpace(t: Str, rest: Str)
    requires t != [] && !IsSpace(t[0])
    ensures SkipSpace(t + rest) == t + rest
  {
  }

  lemma WordRoundTrip(rest: Str)
    ensures Value(NULL + rest) == Ok(JNull, rest)
    ensures Value(TRUE + rest) == Ok(JBool(true), rest)
    ensures Value(FALSE + rest) == Ok(JBool(false), rest)
  {
    assert (NULL + rest)[|NULL|..] == rest && (NULL + rest)[0] == 0x6E;
    assert (TRUE + rest)[|TRUE|..] == rest && (TRUE + rest)[0] == 0x74;
    assert (FALSE + rest)[|FALSE|..] == rest && (FALSE + rest)[0] == 0x66;
  }

  lemma ScalarRoundTrip(v: JSON, rest: Str)
    requires Valid(v) && Delimits(v, rest) && !v.JArr? && !v.JObj?
    ensures Value(Stringify(v) + rest) == Ok(v, rest)
  {
    FirstUnit(v);
    NoSpace(Stringify(v), rest);
    match v {
      case JNull =>
        WordRoundTrip(rest);
      case JBool(b) =>
        WordRoundTrip(rest);
      case JNum(n) =>
        NumberRoundTrip(n, rest);
      case JStr(s) =>
        QuoteRoundTrip(s, rest);
    }
  }

  lemma {:induction false} ValueRoundTrip(v: JSON, rest: Str)
    requires Valid(v) && Delimits(v, rest)
    ensures Value(Stringify(v) + rest) == Ok(v, rest)
    decreases v
  {
    match v {
      case JArr(items) =>
        ArrayRoundTrip(items, rest);
      case JObj(ms) =>
        ObjectRoundTrip(ms, rest);
      case _ =>
        ScalarRoundTrip(v, rest);
    }
  }

  lemma ArrayStep(body: Str, items: seq<JSON>, rest: Str)
    requires body != [] && !IsSpace(body[0]) && body[0] != RBRACKET && Elements(body) == Ok(items, rest)
    ensures Value([LBRACKET] + body) == Ok(JArr(items), rest)
  {
    assert ([LBRACKET] + body)[1..] == body;
  }

  lemma ObjectStep(body: Str, es: seq<Entry>, rest: Str)
    requires body != [] && !IsSpace(body[0]) && body[0] != RBRACE && Entries(body) == Ok(es, rest)
    ensures Value([LBRACE] + body) == Ok(JObj(Assemble(es)), rest)
  {
    assert ([LBRACE] + body)[1..] == body;
  }

  lemma EmptyStep(rest: Str)
    ensures Value([LBRACKET] + ([RBRACKET] + rest)) == Ok(JArr([]), rest)
    ensures Value([LBRACE] + ([RBRACE] + rest)) == Ok(JObj([]), rest)
  {
    assert ([LBRACKET] + ([RBRACKET] + rest))[1..] == [RBRACKET] + rest;
    assert ([LBRACE] + ([RBRACE] + rest))[1..] == [RBRACE] + rest;
    assert ([RBRACKET] + rest)[1..] == rest && ([RBRACE] + rest)[1..] == rest;
  }

  lemma {:induction false} ArrayRoundTrip(items: seq<JSON>, rest: Str)
    requires Valid(JArr(items))
    ensures Value(Stringify(JArr(items)) + rest) == Ok(JArr(items), rest)
    decreases items, 1
  {
    var list := Join(ItemTexts(items), COMMA);
    var body := list + [RBRACKET] + rest;
    assert Stringify(JArr(items)) + rest == [LBRACKET] + body;
    if items == [] {
      assert body == [RBRACKET] + rest;
      EmptyStep(rest);
    } else {
      ElementsRoundTrip(items, rest);
      FirstUnit(items[0]);
      assert body[0] == Stringify(items[0])[0];
      ArrayStep(body, items, rest);
    }
  }

  /** How a list of elements is read: one, then the closing bracket or a comma and the others. */
  lemma ElementsStep(text: Str, v: JSON, tail: Str, vs: seq<JSON>, rest: Str)
    ensures Value(text) == Ok(v, [RBRACKET] + rest) ==> Elements(text) == Ok([v], rest)
    ensures Value(text) == Ok(v, [COMMA] + tail) && Elements(tail) == Ok(vs, rest) ==>
            Elements(text) == Ok([v] + vs, rest)
  {
    assert ([RBRACKET] + rest)[1..] == rest && ([COMMA] + tail)[1..] == tail;
  }

  /** A closed comma-separated list: its first text, then what follows it. */
  lemma ListText(ts: seq<Str>, close: Unit, rest: Str)
    requires ts != []
    ensures var t := Join(ts, COMMA) + [close] + rest;
            && (|ts| == 1 ==> t == ts[0] + ([close] + rest))
            && (|ts| > 1 ==> t == ts[0] + ([COMMA] + (Join(ts[1..], COMMA) + [close] + rest)))
  {
    var end := [close] + rest;
    Assoc(Join(ts, COMMA), [close], rest);
    if |ts| > 1 {
      var others := Join(ts[1..], COMMA);
      Assoc(others, [close], rest);
      Regroup(ts[0], [COMMA], others, end);
    }
  }

  lemma FirstItem(items: seq<JSON>)
    requires items != [] && Valid(JArr(items))
    ensures Valid(items[0]) && Valid(JArr(items[1..]))
    ensures ItemTexts(items)[0] == Stringify(items[0]) && ItemTexts(items)[1..] == ItemTexts(items[1..])
  {
  }

  lemma LastElement(item: JSON, rest: Str)
    requires Value(Stringify(item) + ([RBRACKET] + rest)) == Ok(item, [RBRACKET] + rest)
    ensures Elements(Join(ItemTexts([item]), COMMA) + [RBRACKET] + rest) == Ok([item], rest)
  {
    ListText(ItemTexts([item]), RBRACKET, rest);
    ElementsStep(Stringify(item) + ([RBRACKET] + rest), item, [], [], rest);
  }

  lemma MoreElements(items: seq<JSON>, tail: Str, rest: Str)
    requires |items| > 1 && tail == Join(ItemTexts(items)[1..], COMMA) + [RBRACKET] + rest
    requires Value(Stringify(items[0]) + ([COMMA] + tail)) == Ok(items[0], [COMMA] + tail)
    requires Elements(tail) == Ok(items[1..], rest)
    ensures Elements(Join(ItemTexts(items), COMMA) + [RBRACKET] + rest) == Ok(items, rest)
  {
    ListText(ItemTexts(items), RBRACKET, rest);
    ElementsStep(Stringify(items[0]) + ([COMMA] + tail), items[0], tail, items[1..], rest);
    assert items == [items[0]] + items[1..];
  }

  lemma {:induction false} ElementsRoundTrip(items: seq<JSON>, rest: Str)
    requires Valid(JArr(items)) && items != []
    ensures Elements(Join(ItemTexts(items), COMMA) + [RBRACKET] + rest) == Ok(items, rest)
    decreases items, 0
  {
    FirstItem(items);
    if |items| == 1 {
      ValueRoundTrip(items[0], [RBRACKET] + rest);
      LastElement(items[0], rest);
      assert items == [items[0]];
    } else {
      var others := items[1..];
      var tail := Join(ItemTexts(others), COMMA) + [RBRACKET] + rest;
      ValueRoundTrip(items[0], [COMMA] + tail);
      ElementsRoundTrip(others, rest);
      MoreElements(items, tail, rest);
    }
  }

  /** The members as entries of the printed text. */
  function EntriesOf(ms: seq<Member>): (es: seq<Entry>) {
    seq(|ms|, i requires 0 <= i < |ms| => Entry(ms[i].key, ms[i].val, Stringify(ms[i].val)))
  }

  lemma AssembleEntries(ms: seq<Member>)
    requires UniqueKeys(ms)
    ensures Assemble(EntriesOf(ms)) == ms
  {
    assert MembersOf(EntriesOf(ms)) == ms;
    SetAllDistinct(ms);
  }

  lemma {:induction false} ObjectRoundTrip(ms: seq<Member>, rest: Str)
    requires ValidMembers(ms)
    ensures Value(Stringify(JObj(ms)) + rest) == Ok(JObj(ms), rest)
    decreases ms, 2
  {
    var list := Join(MemberTexts(ms), COMMA);
    var body := list + [RBRACE] + rest;
    assert Stringify(JObj(ms)) + rest == [LBRACE] + body;
    if ms == [] {
      assert body == [RBRACE] + rest;
      EmptyStep(rest);
    } else {
      EntriesRoundTrip(ms, rest);
      AssembleEntries(ms);
      assert body[0] == MemberText(ms[0])[0] == QUOTE;
      ObjectStep(body, EntriesOf(ms), rest);
    }
  }

  lemma EntriesStep(text: Str, e: Entry, tail: Str, es: seq<Entry>, rest: Str)
    ensures OneEntry(text) == Ok(e, [RBRACE] + rest) ==> Entries(text) == Ok([e], rest)
    ensures OneEntry(text) == Ok(e, [COMMA] + tail) && Entries(tail) == Ok(es, rest) ==>
            Entries(text) == Ok([e] + es, rest)
  {
    assert ([RBRACE] + rest)[1..] == rest && ([COMMA] + tail)[1..] == tail;
  }

  lemma FirstMember(ms: seq<Member>)
    requires ms != []
    ensures EntriesOf(ms) == [EntriesOf(ms)[0]] + EntriesOf(ms[1..])
    ensures |ms| == 1 ==> EntriesOf(ms) == [EntriesOf(ms)[0]]
  {
  }

  lemma FirstMemberText(ms: seq<Member>)
    requires ms != []
    ensures MemberTexts(ms)[1..] == MemberTexts(ms[1..])
  {
  }

  lemma {:induction false} EntriesRoundTrip(ms: seq<Member>, rest: Str)
    requires ms != [] && forall i | 0 <= i < |ms| :: Valid(ms[i].val)
    ensures Entries(Join(MemberTexts(ms), COMMA) + [RBRACE] + rest) == Ok(EntriesOf(ms), rest)
    decreases ms, 1
  {
    var t := Join(MemberTexts(ms), COMMA) + [RBRACE] + rest;
    var first := EntriesOf(ms)[0];
    FirstMember(ms);
    FirstMemberText(ms);
    ListText(MemberTexts(ms), RBRACE, rest);
    if |ms| == 1 {
      OneEntryRoundTrip(ms[0], [RBRACE] + rest);
      EntriesStep(t, first, [], [], rest);
    } else {
      var others := ms[1..];
      var tail := Join(MemberTexts(others), COMMA) + [RBRACE] + rest;
      OneEntryRoundTrip(ms[0], [COMMA] + tail);
      EntriesRoundTrip(others, rest);
      EntriesStep(t, first, tail, EntriesOf(others), rest);
    }
  }

  lemma {:induction false} OneEntryRoundTrip(m: Member, rest: Str)
    requires Valid(m.val) && Delimits(m.val, rest)
    ensures OneEntry(MemberText(m) + rest) == Ok(Entry(m.key, m.val, Stringify(m.val)), rest)
    decreases m
  {
    var raw := Stringify(m.val);
    FirstUnit(m.val);
    ValueRoundTrip(m.val, rest);
    OneEntryStep(m.key, m.val, raw, rest);
    Regroup(Quote(m.key), [COLON], raw, rest);
  }

  lemma OneEntryStep(key: Str, val: JSON, raw: Str, rest: Str)
    requires raw != [] && !IsSpace(raw[0]) && Value(raw + rest) == Ok(val, rest)
    ensures OneEntry(Quote(key) + ([COLON] + (raw + rest))) == Ok(Entry(key, val, raw), rest)
  {
    var w := raw + rest;
    QuoteRoundTrip(key, [COLON] + w);
    assert ([COLON] + w)[1..] == w;
    assert w[..|w| - |rest|] == raw;
  }

  /** The raw values of a printed object are the printed values. */
  lemma ParseEntriesRoundTrip(ms: seq<Member>)
    requires ValidMembers(ms)
    ensures ParseEntries(Stringify(JObj(ms))) == Some(EntriesOf(ms))
  {
    var list := Join(MemberTexts(ms), COMMA);
    var t := Stringify(JObj(ms));
    assert t[1..] == list + [RBRACE];
    if ms == [] {
      assert t[1..] == [RBRACE] && [RBRACE][1..] == [];
      assert EntriesOf(ms) == [];
    } else {
      EntriesRoundTrip(ms, []);
      assert list + [RBRACE] + [] == t[1..];
      assert t[1..][0] == MemberText(ms[0])[0] == QUOTE;
    }
  }
}
