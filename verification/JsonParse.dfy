/** `JSON.parse` (RFC 8259) on integers: any other number token fails. */
module JsonParse {
  import opened Text
  import opened Json

  datatype Parsed<+T> = Fail | Ok(value: T, rest: Str)

  const LBRACKET: Unit := 0x5B
  const RBRACKET: Unit := 0x5D
  const LBRACE: Unit := 0x7B
  const RBRACE: Unit := 0x7D
  const MINUS: Unit := 0x2D
  const NULL := Ascii("null")
  const TRUE := Ascii("true")
  const FALSE := Ascii("false")

  predicate IsSpace(u: Unit) { u == 0x20 || u == 0x09 || u == 0x0A || u == 0x0D }

  predicate IsDigit(u: Unit) { 0x30 <= u <= 0x39 }

  /** A unit that would extend a number token: a digit, `.`, `e` or `E`. */
  predicate IsNumberUnit(u: Unit) { IsDigit(u) || u == 0x2E || u == 0x45 || u == 0x65 }

  function SkipSpace(t: Str): (r: Str)
    ensures |r| <= |t|
  {
    if t != [] && IsSpace(t[0]) then SkipSpace(t[1..]) else t
  }

  function Literal(t: Str, word: Str, v: JSON): (r: Parsed<JSON>) {
    if word <= t then Ok(v, t[|word|..]) else Fail
  }

  // ---- Strings ----

  function HexValue(u: Unit): (v: Option<int>)
    ensures v.Some? ==> 0 <= v.value < 16
  {
    if IsDigit(u) then Some(u - 0x30)
    else if 0x41 <= u <= 0x46 then Some(u - 0x41 + 10)
    else if 0x61 <= u <= 0x66 then Some(u - 0x61 + 10)
    else None
  }

  function Hex4(t: Str): (r: Parsed<Unit>)
    ensures r.Ok? ==> |r.rest| < |t|
  {
    if |t| < 4 then Fail
    else match (HexValue(t[0]), HexValue(t[1]), HexValue(t[2]), HexValue(t[3]))
      case (Some(a), Some(b), Some(c), Some(d)) => Ok(((a * 16 + b) * 16 + c) * 16 + d, t[4..])
      case _ => Fail
  }

  /** What stands for itself or for a control after a backslash. */
  function ShortEscape(u: Unit): (r: Option<Unit>) {
    if u == QUOTE || u == BACKSLASH || u == 0x2F then Some(u)
    else if u == 0x62 then Some(0x08)
    else if u == 0x66 then Some(0x0C)
    else if u == 0x6E then Some(0x0A)
    else if u == 0x72 then Some(0x0D)
    else if u == 0x74 then Some(0x09)
    else None
  }

  /** One code unit of a string's contents. */
  function StringUnit(t: Str): (r: Parsed<Unit>)
    ensures r.Ok? ==> |r.rest| < |t|
  {
    if t == [] || t[0] == QUOTE || t[0] < 0x20 then Fail
    else if t[0] != BACKSLASH then Ok(t[0], t[1..])
    else if |t| < 2 then Fail
    else if t[1] == 0x75 then Hex4(t[2..])
    else match ShortEscape(t[1])
      case Some(u) => Ok(u, t[2..])
      case None => Fail
  }

  /** The contents of a string up to and including its closing quote. */
  function StringTail(t: Str): (r: Parsed<Str>)
    ensures r.Ok? ==> |r.rest| < |t|
    decreases |t|
  {
    if t != [] && t[0] == QUOTE then Ok([], t[1..])
    else match StringUnit(t)
      case Fail => Fail
      case Ok(u, rest) =>
        match StringTail(rest)
        case Fail => Fail
        case Ok(s, end) => Ok([u] + s, end)
  }

  // ---- Numbers ----

  function DigitCount(t: Str): (n: nat)
    ensures n <= |t|
    ensures forall i | 0 <= i < n :: IsDigit(t[i])
  {
    if t == [] || !IsDigit(t[0]) then 0 else 1 + DigitCount(t[1..])
  }

  lemma {:induction false} DigitCountAt(t: Str, n: nat)
    requires n <= |t| && (forall i | 0 <= i < n :: IsDigit(t[i])) && (n < |t| ==> !IsDigit(t[n]))
    ensures DigitCount(t) == n
  {
    if n > 0 {
      DigitCountAt(t[1..], n - 1);
    }
  }

  function DigitsValue(ds: Str): (n: int) {
    if ds == [] then 0 else DigitsValue(ds[..|ds| - 1]) * 10 + (ds[|ds| - 1] as int - 0x30)
  }

  /** Digits without a leading zero, that no fraction or exponent follows. */
  function Magnitude(u: Str): (r: Parsed<int>)
    ensures r.Ok? ==> |r.rest| < |u|
  {
    var run := DigitCount(u);
    var len := if run > 0 && u[0] == 0x30 then 1 else run;
    var n := DigitsValue(u[..len]);
    if len == 0 || n > MAX_SAFE_INTEGER then Fail
    else if len < |u| && IsNumberUnit(u[len]) then Fail
    else Ok(n, u[len..])
  }

  function Number(t: Str): (r: Parsed<JSON>)
    ensures r.Ok? ==> |r.rest| < |t|
  {
    var negative := t != [] && t[0] == MINUS;
    match Magnitude(if negative then t[1..] else t)
    case Fail => Fail
    case Ok(n, rest) => Ok(JNum(if negative then -n else n), rest)
  }

  // ---- Values ----

  /** A member as it stands in the text, with the raw text of its value. */
  datatype Entry = Entry(key: Str, val: JSON, raw: Str)

  function Value(text: Str): (r: Parsed<JSON>)
    ensures r.Ok? ==> |r.rest| < |text|
    decreases |text|, 1
  {
    var t := SkipSpace(text);
    if t == [] then Fail
    else if t[0] == 0x6E then Literal(t, NULL, JNull)
    else if t[0] == 0x74 then Literal(t, TRUE, JBool(true))
    else if t[0] == 0x66 then Literal(t, FALSE, JBool(false))
    else if t[0] == QUOTE then
      (match StringTail(t[1..])
       case Fail => Fail
       case Ok(s, rest) => Ok(JStr(s), rest))
    else if t[0] == LBRACKET then
      var u := SkipSpace(t[1..]);
      if u != [] && u[0] == RBRACKET then Ok(JArr([]), u[1..])
      else (match Elements(t[1..])
            case Fail => Fail
            case Ok(items, rest) => Ok(JArr(items), rest))
    else if t[0] == LBRACE then
      var u := SkipSpace(t[1..]);
      if u != [] && u[0] == RBRACE then Ok(JObj([]), u[1..])
      else (match Entries(t[1..])
            case Fail => Fail
            case Ok(es, rest) => Ok(JObj(Assemble(es)), rest))
    else Number(t)
  }

  /** One or more elements and the closing bracket. */
  function Elements(t: Str): (r: Parsed<seq<JSON>>)
    ensures r.Ok? ==> |r.rest| < |t|
    decreases |t|, 2
  {
    match Value(t)
    case Fail => Fail
    case Ok(v, after) =>
      var u := SkipSpace(after);
      if u == [] then Fail
      else if u[0] == RBRACKET then Ok([v], u[1..])
      else if u[0] != COMMA then Fail
      else match Elements(u[1..])
        case Fail => Fail
        case Ok(vs, rest) => Ok([v] + vs, rest)
  }

  function OneEntry(text: Str): (r: Parsed<Entry>)
    ensures r.Ok? ==> |r.rest| < |text|
    decreases |text|, 2
  {
    var t := SkipSpace(text);
    if t == [] || t[0] != QUOTE then Fail
    else match StringTail(t[1..])
      case Fail => Fail
      case Ok(key, after) =>
        var u := SkipSpace(after);
        if u == [] || u[0] != COLON then Fail
        else
          var w := SkipSpace(u[1..]);
          match Value(w)
          case Fail => Fail
          case Ok(val, rest) => Ok(Entry(key, val, w[..|w| - |rest|]), rest)
  }

  /** One or more members and the closing brace. */
  function Entries(t: Str): (r: Parsed<seq<Entry>>)
    ensures r.Ok? ==> |r.rest| < |t|
    decreases |t|, 3
  {
    match OneEntry(t)
    case Fail => Fail
    case Ok(e, after) =>
      var u := SkipSpace(after);
      if u == [] then Fail
      else if u[0] == RBRACE then Ok([e], u[1..])
      else if u[0] != COMMA then Fail
      else match Entries(u[1..])
        case Fail => Fail
        case Ok(es, rest) => Ok([e] + es, rest)
  }

  function MembersOf(es: seq<Entry>): (ms: seq<Member>) {
    seq(|es|, i requires 0 <= i < |es| => Member(es[i].key, es[i].val))
  }

  /** Of members with the same name the last value wins. */
  function Assemble(es: seq<Entry>): (ms: seq<Member>) {
    SetAll(MembersOf(es))
  }

  /** `JSON.parse(text)` */
  function Parse(text: Str): (r: Option<JSON>) {
    match Value(text)
    case Fail => None
    case Ok(v, rest) => if SkipSpace(rest) == [] then Some(v) else None
  }

  /** `JSON.parse` where only an object will do: not null, not an array, not a scalar. */
  function ParseObject(text: Str): (r: Option<seq<Member>>) {
    match Parse(text)
    case Some(JObj(ms)) => Some(ms)
    case _ => None
  }

  /** Go's `json.Unmarshal` into `map[string]json.RawMessage`: an object's members, values unread. */
  function ParseEntries(text: Str): (r: Option<seq<Entry>>) {
    var t := SkipSpace(text);
    if t == [] || t[0] != LBRACE then None
    else
      var u := SkipSpace(t[1..]);
      var body := if u != [] && u[0] == RBRACE then Ok([], u[1..]) else Entries(t[1..]);
      match body
      case Fail => None
      case Ok(es, rest) => if SkipSpace(rest) == [] then Some(es) else None
  }

  /** Raw values by name, the last of a name winning. */
  type RawClaims = map<Str, Str>

  function RawMap(es: seq<Entry>): (m: RawClaims) {
    if es == [] then map[] else RawMap(es[..|es| - 1])[es[|es| - 1].key := es[|es| - 1].raw]
  }

  /** The raw value of a name in an object. */
  function RawMember(text: Str, k: Str): (r: Option<Str>) {
    match ParseEntries(text)
    case None => None
    case Some(es) => if k in RawMap(es) then Some(RawMap(es)[k]) else None
  }

  // ---- Everything parsed is a valid value ----

  ghost predicate ValidEntries(es: seq<Entry>) {
    forall i | 0 <= i < |es| :: Valid(es[i].val)
  }

  lemma {:induction false} DigitsNonNegative(ds: Str)
    requires forall i | 0 <= i < |ds| :: IsDigit(ds[i])
    ensures DigitsValue(ds) >= 0
  {
    if ds != [] {
      DigitsNonNegative(ds[..|ds| - 1]);
    }
  }

  lemma {:induction false} ValueValid(text: Str)
    ensures Value(text).Ok? ==> Valid(Value(text).value)
    decreases |text|, 1
  {
    var t := SkipSpace(text);
    if t != [] {
      if t[0] == LBRACKET {
        ElementsValid(t[1..]);
      } else if t[0] == LBRACE {
        EntriesValid(t[1..]);
        var es := Entries(t[1..]);
        if es.Ok? {
          SetAllValid(MembersOf(es.value));
        }
      } else {
        var u := if t[0] == MINUS then t[1..] else t;
        DigitsNonNegative(u[..DigitCount(u)]);
        if u != [] && DigitCount(u) > 0 {
          DigitsNonNegative(u[..1]);
        }
      }
    }
  }

  lemma {:induction false} ElementsValid(t: Str)
    ensures Elements(t).Ok? ==> Valid(JArr(Elements(t).value))
    decreases |t|, 2
  {
    ValueValid(t);
    var v := Value(t);
    if v.Ok? {
      var u := SkipSpace(v.rest);
      if u != [] && u[0] == COMMA {
        ElementsValid(u[1..]);
      }
    }
  }

  lemma {:induction false} EntriesValid(t: Str)
    ensures Entries(t).Ok? ==> ValidEntries(Entries(t).value)
    decreases |t|, 3
  {
    var e := OneEntry(t);
    if e.Ok? {
      OneEntryValid(t);
      var u := SkipSpace(e.rest);
      if u != [] && u[0] == COMMA {
        EntriesValid(u[1..]);
        var more := Entries(u[1..]);
        if more.Ok? {
          assert Entries(t).value == [e.value] + more.value;
        }
      }
    }
  }

  lemma {:induction false} OneEntryValid(text: Str)
    ensures OneEntry(text).Ok? ==> Valid(OneEntry(text).value.val)
    decreases |text|, 2
  {
    var t := SkipSpace(text);
    if t != [] && t[0] == QUOTE {
      var k := StringTail(t[1..]);
      if k.Ok? {
        var u := SkipSpace(k.rest);
        if u != [] && u[0] == COLON {
          ValueValid(SkipSpace(u[1..]));
        }
      }
    }
  }

  lemma ParseValid(text: Str)
    ensures Parse(text).Some? ==> Valid(Parse(text).value)
  {
    ValueValid(text);
  }
}
