/**
 * The grammar of RFC 8259, written down as the texts it generates, and that the reader accepts
 * those texts and no others. Numbers are integers in the safe range.
 */
module Grammar {
  import opened Text
  import opened Json
  import opened JsonParse

  // ---- Concrete syntax ----

  /** One unit of a string as it is spelled. */
  datatype Piece = Raw(u: Unit) | Short(letter: Unit) | Long(hex: Str)

  datatype Doc =
    | Word(name: Str)
    | Integer(negative: bool, digits: Str)
    | Text(pieces: seq<Piece>)
    | List(items: seq<Item>, blank: Str)
    | Object(fields: seq<Field>, blank: Str)

  datatype Item = Item(before: Str, doc: Doc, after: Str)

  datatype Field = Field(before: Str, name: seq<Piece>, middle: Str, item: Item)

  const SPACES := [0x20, 0x09, 0x0A, 0x0D]
  const LETTERS := Ascii("\"\\/bfnrt")
  const LETTER_UNITS: Str := [0x22, 0x5C, 0x2F, 0x08, 0x0C, 0x0A, 0x0D, 0x09]
  const LOWER_HEX := Ascii("0123456789abcdef")
  const UPPER_HEX := Ascii("0123456789ABCDEF")

  ghost predicate Blank(s: Str) {
    forall i | 0 <= i < |s| :: s[i] in SPACES
  }

  ghost predicate IsHexText(h: Str) {
    |h| == 4 && forall i | 0 <= i < 4 :: h[i] in LOWER_HEX || h[i] in UPPER_HEX
  }

  ghost predicate OkPiece(p: Piece) {
    match p
    case Raw(u) => u >= 0x20 && u != 0x22 && u != 0x5C
    case Short(letter) => letter in LETTERS
    case Long(hex) => IsHexText(hex)
  }

  ghost predicate OkPieces(ps: seq<Piece>) {
    forall i | 0 <= i < |ps| :: OkPiece(ps[i])
  }

  ghost predicate OkDigits(ds: Str) {
    && ds != [] && (forall i | 0 <= i < |ds| :: 0x30 <= ds[i] <= 0x39)
    && (ds[0] == 0x30 ==> |ds| == 1)
    && DigitsValue(ds) <= 9007199254740991
  }

  ghost predicate OkDoc(d: Doc)
    decreases d
  {
    match d
    case Word(name) => name == Ascii("null") || name == Ascii("true") || name == Ascii("false")
    case Integer(_, digits) => OkDigits(digits)
    case Text(pieces) => OkPieces(pieces)
    case List(items, blank) => Blank(blank) && forall i | 0 <= i < |items| :: OkItem(items[i])
    case Object(fields, blank) => Blank(blank) && forall i | 0 <= i < |fields| :: OkField(fields[i])
  }

  ghost predicate OkItem(e: Item)
    decreases e
  {
    Blank(e.before) && OkDoc(e.doc) && Blank(e.after)
  }

  ghost predicate OkField(f: Field)
    decreases f
  {
    Blank(f.before) && OkPieces(f.name) && Blank(f.middle) && OkItem(f.item)
  }

  // ---- Spelling ----

  function SpellPiece(p: Piece): (t: Str) {
    match p
    case Raw(u) => [u]
    case Short(letter) => [0x5C, letter]
    case Long(hex) => [0x5C, 0x75] + hex
  }

  function SpellPieces(ps: seq<Piece>): (t: Str) {
    if ps == [] then [] else SpellPiece(ps[0]) + SpellPieces(ps[1..])
  }

  function SpellString(ps: seq<Piece>): (t: Str) {
    [0x22] + (SpellPieces(ps) + [0x22])
  }

  function Spell(d: Doc): (t: Str)
    decreases d
  {
    match d
    case Word(name) => name
    case Integer(negative, digits) => (if negative then [0x2D] else []) + digits
    case Text(pieces) => SpellString(pieces)
    case List(items, blank) => [0x5B] + ((if items == [] then blank else Join(SpellItems(items), 0x2C)) + [0x5D])
    case Object(fields, blank) => [0x7B] + ((if fields == [] then blank else Join(SpellFields(fields), 0x2C)) + [0x7D])
  }

  function SpellItem(e: Item): (t: Str)
    decreases e
  {
    e.before + (Spell(e.doc) + e.after)
  }

  function SpellItems(items: seq<Item>): (ts: seq<Str>)
    decreases items
  {
    seq(|items|, i requires 0 <= i < |items| => SpellItem(items[i]))
  }

  function SpellField(f: Field): (t: Str)
    decreases f
  {
    f.before + (SpellString(f.name) + (f.middle + ([0x3A] + SpellItem(f.item))))
  }

  function SpellFields(fields: seq<Field>): (ts: seq<Str>)
    decreases fields
  {
    seq(|fields|, i requires 0 <= i < |fields| => SpellField(fields[i]))
  }

  // ---- Meaning ----

  function Position(c: Unit, s: Str): (i: nat)
    ensures i <= |s| && (i < |s| ==> s[i] == c)
  {
    IndexOf(s, c)
  }

  function HexDigitValue(c: Unit): (n: nat) {
    if c in LOWER_HEX then Position(c, LOWER_HEX) else Position(c, UPPER_HEX)
  }

  function MeanPiece(p: Piece): (u: int) {
    match p
    case Raw(u) => u
    case Short(letter) => if Position(letter, LETTERS) < 8 then LETTER_UNITS[Position(letter, LETTERS)] else 0
    case Long(h) =>
      if |h| != 4 then 0
      else HexDigitValue(h[0]) * 4096 + HexDigitValue(h[1]) * 256 + HexDigitValue(h[2]) * 16 + HexDigitValue(h[3])
  }

  ghost predicate MeanPieces(ps: seq<Piece>, s: Str) {
    |s| == |ps| && forall i | 0 <= i < |ps| :: s[i] == MeanPiece(ps[i])
  }

  /** The document stands for the value. */
  ghost predicate Means(d: Doc, v: JSON)
    decreases d
  {
    match d
    case Word(name) =>
      if name == Ascii("null") then v == JNull else if name == Ascii("true") then v == JBool(true) else v == JBool(false)
    case Integer(negative, digits) => v == JNum(if negative then -DigitsValue(digits) else DigitsValue(digits))
    case Text(pieces) => v.JStr? && MeanPieces(pieces, v.s)
    case List(items, _) => v.JArr? && |v.items| == |items| && forall i | 0 <= i < |items| :: Means(items[i].doc, v.items[i])
    case Object(fields, _) => exists ms :: MeanFields(fields, ms) && v == JObj(SetAll(ms))
  }

  ghost predicate MeanFields(fields: seq<Field>, ms: seq<Member>)
    decreases fields
  {
    |ms| == |fields| && forall i | 0 <= i < |fields| :: MeanPieces(fields[i].name, ms[i].key) && Means(fields[i].item.doc, ms[i].val)
  }
}
