/**
 * The JSON Canonicalization Scheme (RFC 8785): `JSON.stringify` for scalars, members
 * sorted by UTF-16 code units, no whitespace.
 */
module Jcs {
  import opened Text
  import opened Json
  import opened JsonParse
  import Utf8

  // ---- Scalars ----

  /** `\uXXXX`, lower case */
  function UnicodeEscape(u: Unit): (r: Str) {
    [BACKSLASH, 0x75, HexDigit(u / 16 / 16 / 16), HexDigit(u / 16 / 16 % 16), HexDigit(u / 16 % 16), HexDigit(u % 16)]
  }

  /** A unit that is not half of a surrogate pair, as `JSON.stringify` writes it. */
  function EscapeUnit(u: Unit): (r: Str) {
    if u == QUOTE || u == BACKSLASH then [BACKSLASH, u]
    else if u == 0x08 then [BACKSLASH, 0x62]
    else if u == 0x09 then [BACKSLASH, 0x74]
    else if u == 0x0A then [BACKSLASH, 0x6E]
    else if u == 0x0C then [BACKSLASH, 0x66]
    else if u == 0x0D then [BACKSLASH, 0x72]
    else if u < 0x20 || Utf8.IsSurrogate(u) then UnicodeEscape(u)
    else [u]
  }

  function Escape(s: Str): (r: Str) {
    if s == [] then []
    else if Utf8.StartsPair(s) then [s[0], s[1]] + Escape(s[2..])
    else EscapeUnit(s[0]) + Escape(s[1..])
  }

  /** `JSON.stringify` of a string */
  function Quote(s: Str): (r: Str) {
    [QUOTE] + Escape(s) + [QUOTE]
  }

  function Digits(n: nat): (ds: Str)
    ensures ds != [] && forall i | 0 <= i < |ds| :: IsDigit(ds[i])
  {
    if n < 10 then [0x30 + n] else Digits(n / 10) + [0x30 + n % 10]
  }

  /** `JSON.stringify` of an integer in the safe range */
  function Decimal(n: int): (r: Str) {
    if n < 0 then [MINUS] + Digits(-n) else Digits(n)
  }

  // ---- Key order ----

  /** `a < b` on JavaScript strings: by code unit, not by code point. */
  predicate Less(a: Str, b: Str) {
    b != [] && (a == [] || a[0] < b[0] || (a[0] == b[0] && Less(a[1..], b[1..])))
  }

  function Insert(k: Str, ks: seq<Str>): (r: seq<Str>)
    ensures |r| == |ks| + 1
  {
    if ks == [] || !Less(ks[0], k) then [k] + ks else [ks[0]] + Insert(k, ks[1..])
  }

  /** `keys.sort()` */
  function Sort(ks: seq<Str>): (r: seq<Str>)
    ensures |r| == |ks|
  {
    if ks == [] then [] else Insert(ks[0], Sort(ks[1..]))
  }

  /** `Object.keys(obj)` */
  function Keys(ms: seq<Member>): (ks: seq<Str>)
    ensures |ks| == |ms|
    ensures forall i | 0 <= i < |ms| :: ks[i] == ms[i].key
  {
    seq(|ms|, i requires 0 <= i < |ms| => ms[i].key)
  }

  lemma {:induction false} InsertKeeps(k: Str, ks: seq<Str>)
    ensures forall x :: x in Insert(k, ks) <==> x == k || x in ks
  {
    if !(ks == [] || !Less(ks[0], k)) {
      InsertKeeps(k, ks[1..]);
      assert ks == [ks[0]] + ks[1..];
    }
  }

  lemma {:induction false} SortKeeps(ks: seq<Str>)
    ensures forall x :: x in Sort(ks) <==> x in ks
  {
    if ks != [] {
      SortKeeps(ks[1..]);
      InsertKeeps(ks[0], Sort(ks[1..]));
      assert ks == [ks[0]] + ks[1..];
    }
  }

  lemma SortedKeysFound(ms: seq<Member>)
    ensures forall i | 0 <= i < |ms| :: HasKey(ms, Sort(Keys(ms))[i])
  {
    SortKeeps(Keys(ms));
    forall i | 0 <= i < |ms| ensures HasKey(ms, Sort(Keys(ms))[i]) {
      assert Sort(Keys(ms))[i] in Keys(ms);
    }
  }

  // ---- The printers ----

  /** `jcsString` */
  function JcsString(v: JSON): (t: Str)
    decreases v
  {
    match v
    case JNull => NULL
    case JBool(b) => if b then TRUE else FALSE
    case JNum(n) => Decimal(n)
    case JStr(s) => Quote(s)
    case JArr(items) => [LBRACKET] + Join(JcsItems(items), COMMA) + [RBRACKET]
    case JObj(ms) => [LBRACE] + Join(JcsPairs(ms), COMMA) + [RBRACE]
  }

  /** `value.map((v) => jcsString(v))` */
  function JcsItems(items: seq<JSON>): (ts: seq<Str>)
    decreases items
  {
    seq(|items|, i requires 0 <= i < |items| => JcsString(items[i]))
  }

  /** The sorted keys, each with its looked-up value. */
  function JcsPairs(ms: seq<Member>): (ts: seq<Str>)
    decreases ms
  {
    var keys := Sort(Keys(ms));
    SortedKeysFound(ms);
    seq(|keys|, i requires 0 <= i < |keys| => Quote(keys[i]) + [COLON] + JcsString(ms[Find(ms, keys[i])].val))
  }

  /** `jcsBytes` */
  function JcsBytes(v: JSON): (b: Bytes) {
    Utf8.Encode(JcsString(v))
  }

  /** The same value with the members of every object in canonical order. */
  function Canon(v: JSON): (w: JSON)
    decreases v
  {
    match v
    case JArr(items) => JArr(seq(|items|, i requires 0 <= i < |items| => Canon(items[i])))
    case JObj(ms) =>
      var keys := Sort(Keys(ms));
      SortedKeysFound(ms);
      JObj(seq(|keys|, i requires 0 <= i < |keys| => Member(keys[i], Canon(ms[Find(ms, keys[i])].val))))
    case _ => v
  }

  /** Plain `JSON.stringify`: members in the order they have. */
  function Stringify(v: JSON): (t: Str)
    decreases v
  {
    match v
    case JNull => NULL
    case JBool(b) => if b then TRUE else FALSE
    case JNum(n) => Decimal(n)
    case JStr(s) => Quote(s)
    case JArr(items) => [LBRACKET] + Join(ItemTexts(items), COMMA) + [RBRACKET]
    case JObj(ms) => [LBRACE] + Join(MemberTexts(ms), COMMA) + [RBRACE]
  }

  function ItemTexts(items: seq<JSON>): (ts: seq<Str>)
    decreases items
  {
    seq(|items|, i requires 0 <= i < |items| => Stringify(items[i]))
  }

  function MemberText(m: Member): (t: Str)
    decreases m
  {
    Quote(m.key) + [COLON] + Stringify(m.val)
  }

  function MemberTexts(ms: seq<Member>): (ts: seq<Str>)
    decreases ms
  {
    seq(|ms|, i requires 0 <= i < |ms| => MemberText(ms[i]))
  }
}
