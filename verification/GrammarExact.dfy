/** The reader accepts exactly the texts of the grammar, and reads each as what it stands for. */
module GrammarExact {
  import opened Text
  import opened Json
  import opened JsonParse
  import opened RawMembers
  import opened Grammar

  // ---- Spaces ----

  lemma SpacesAre(u: Unit)
    ensures IsSpace(u) <==> u in SPACES
  {
    assert SPACES[0] == 0x20 && SPACES[1] == 0x09 && SPACES[2] == 0x0A && SPACES[3] == 0x0D;
  }

  lemma {:induction false} SkippedBlank(t: Str) returns (s: Str)
    ensures Blank(s) && t == s + SkipSpace(t)
  {
    if t != [] && IsSpace(t[0]) {
      SpacesAre(t[0]);
      var more := SkippedBlank(t[1..]);
      s := [t[0]] + more;
      assert t == [t[0]] + t[1..];
    } else {
      s := [];
    }
  }

  lemma {:induction false} SkipBlank(s: Str, rest: Str)
    requires Blank(s) && (rest == [] || !IsSpace(rest[0]))
    ensures SkipSpace(s + rest) == rest
  {
    if s == [] {
      assert s + rest == rest;
    } else {
      SpacesAre(s[0]);
      SkipBlank(s[1..], rest);
      assert (s + rest)[1..] == s[1..] + rest;
    }
  }

  // ---- Strings ----

  lemma LowerHexAt(i: nat)
    requires i < 16
    ensures LOWER_HEX[i] == if i < 10 then 0x30 + i else 0x61 + (i - 10)
    ensures UPPER_HEX[i] == if i < 10 then 0x30 + i else 0x41 + (i - 10)
  {
    assert LOWER_HEX == [0x30, 0x31, 0x32, 0x33, 0x34, 0x35, 0x36, 0x37, 0x38, 0x39, 0x61, 0x62, 0x63, 0x64, 0x65, 0x66];
    assert UPPER_HEX == [0x30, 0x31, 0x32, 0x33, 0x34, 0x35, 0x36, 0x37, 0x38, 0x39, 0x41, 0x42, 0x43, 0x44, 0x45, 0x46];
  }

  lemma InAt(s: Str, c: Unit)
    ensures c in s <==> Position(c, s) < |s|
  {
    assert c in s ==> c in s[..|s|];
    assert s[..|s|] == s;
  }

  lemma HexDigitRead(c: Unit)
    ensures HexValue(c) == if c in LOWER_HEX || c in UPPER_HEX then Some(HexDigitValue(c)) else None
  {
    InAt(LOWER_HEX, c);
    InAt(UPPER_HEX, c);
    if c in LOWER_HEX {
      LowerHexAt(Position(c, LOWER_HEX));
    } else if c in UPPER_HEX {
      LowerHexAt(Position(c, UPPER_HEX));
    } else if HexValue(c).Some? {
      LowerHexAt(HexValue(c).value);
    }
  }

  lemma LettersAre()
    ensures LETTERS == [0x22, 0x5C, 0x2F, 0x62, 0x66, 0x6E, 0x72, 0x74]
  {
  }

  lemma LetterAt(i: nat)
    requires i < 8
    ensures |LETTERS| == 8 && ShortEscape(LETTERS[i]) == Some(LETTER_UNITS[i]) && LETTERS[i] != 0x75
  {
    LettersAre();
  }

  lemma LettersRead(c: Unit)
    ensures ShortEscape(c) == if c in LETTERS then Some(MeanPiece(Short(c))) else None
    ensures c in LETTERS ==> c != 0x75
  {
    InAt(LETTERS, c);
    LettersAre();
    if c in LETTERS {
      LetterAt(Position(c, LETTERS));
    } else {
      assert forall i | 0 <= i < 8 :: LETTERS[i] != c;
      assert c != LETTERS[0] && c != LETTERS[1] && c != LETTERS[2] && c != LETTERS[3];
      assert c != LETTERS[4] && c != LETTERS[5] && c != LETTERS[6] && c != LETTERS[7];
    }
  }

  ghost predicate IsHexUnit(c: Unit) {
    c in LOWER_HEX || c in UPPER_HEX
  }

  lemma HexUnits(h: Str)
    requires |h| == 4
    ensures IsHexText(h) <==> IsHexUnit(h[0]) && IsHexUnit(h[1]) && IsHexUnit(h[2]) && IsHexUnit(h[3])
  {
  }

  lemma HexSum(a: int, b: int, c: int, d: int)
    ensures ((a * 16 + b) * 16 + c) * 16 + d == a * 4096 + b * 256 + c * 16 + d
  {
  }

  lemma FirstUnits(h: Str, rest: Str)
    requires |h| == 4
    ensures var t := h + rest;
            t[0] == h[0] && t[1] == h[1] && t[2] == h[2] && t[3] == h[3] && t[4..] == rest
  {
  }

  lemma Hex4Good(h: Str, rest: Str, a: nat, b: nat, c: nat, d: nat)
    requires |h| == 4
    requires HexValue(h[0]) == Some(a) && HexValue(h[1]) == Some(b) && HexValue(h[2]) == Some(c) && HexValue(h[3]) == Some(d)
    ensures Hex4(h + rest) == Ok(((a * 16 + b) * 16 + c) * 16 + d, rest)
  {
    FirstUnits(h, rest);
  }

  lemma Hex4Bad(h: Str, rest: Str)
    requires |h| == 4
    requires HexValue(h[0]) == None || HexValue(h[1]) == None || HexValue(h[2]) == None || HexValue(h[3]) == None
    ensures Hex4(h + rest) == Fail
  {
    FirstUnits(h, rest);
  }

  lemma HexUnitRead(c: Unit)
    ensures HexValue(c) == if IsHexUnit(c) then Some(HexDigitValue(c)) else None
  {
    HexDigitRead(c);
  }

  lemma HexTextRead(h: Str, rest: Str)
    requires |h| == 4
    ensures Hex4(h + rest) == if IsHexText(h) then Ok(MeanPiece(Long(h)), rest) else Fail
  {
    HexUnits(h);
    HexUnitRead(h[0]);
    HexUnitRead(h[1]);
    HexUnitRead(h[2]);
    HexUnitRead(h[3]);
    if IsHexText(h) {
      var a, b, c, d := HexDigitValue(h[0]), HexDigitValue(h[1]), HexDigitValue(h[2]), HexDigitValue(h[3]);
      Hex4Good(h, rest, a, b, c, d);
      LongIs(h, a, b, c, d);
      HexSum(a, b, c, d);
    } else {
      Hex4Bad(h, rest);
    }
  }

  lemma LongIs(h: Str, a: nat, b: nat, c: nat, d: nat)
    requires |h| == 4
    requires a == HexDigitValue(h[0]) && b == HexDigitValue(h[1]) && c == HexDigitValue(h[2]) && d == HexDigitValue(h[3])
    ensures MeanPiece(Long(h)) == a * 4096 + b * 256 + c * 16 + d
  {
  }

  lemma ShortUnit(letter: Unit, rest: Str)
    requires letter in LETTERS
    ensures StringUnit([0x5C, letter] + rest) == Ok(MeanPiece(Short(letter)), rest)
  {
    var t := [0x5C, letter] + rest;
    LettersRead(letter);
    assert t[1] == letter && t[2..] == rest;
  }

  lemma LongStep(t: Str)
    ensures StringUnit([0x5C, 0x75] + t) == Hex4(t)
  {
    assert ([0x5C, 0x75] + t)[2..] == t;
  }

  lemma LongUnit(hex: Str, rest: Str)
    requires IsHexText(hex)
    ensures StringUnit([0x5C, 0x75] + hex + rest) == Ok(MeanPiece(Long(hex)), rest)
  {
    LongStep(hex + rest);
    HexTextRead(hex, rest);
    Assoc([0x5C, 0x75], hex, rest);
  }

  lemma {:induction false} PieceUnit(p: Piece, rest: Str)
    requires OkPiece(p)
    ensures SpellPiece(p) != [] && SpellPiece(p)[0] != QUOTE
    ensures StringUnit(SpellPiece(p) + rest) == Ok(MeanPiece(p), rest)
  {
    match p
    case Raw(u) => assert ([u] + rest)[1..] == rest;
    case Short(letter) => ShortUnit(letter, rest);
    case Long(hex) => LongUnit(hex, rest);
  }

  lemma LongPiece(t: Str) returns (p: Piece)
    requires Hex4(t).Ok?
    ensures OkPiece(p) && [0x5C, 0x75] + t == SpellPiece(p) + Hex4(t).rest && MeanPiece(p) == Hex4(t).value
  {
    var h := t[..4];
    p := Long(h);
    assert t == h + t[4..];
    HexTextRead(h, t[4..]);
    Assoc([0x5C, 0x75], h, t[4..]);
  }

  lemma ShortPiece(letter: Unit, rest: Str) returns (p: Piece)
    requires ShortEscape(letter).Some?
    ensures OkPiece(p) && [0x5C, letter] + rest == SpellPiece(p) + rest && MeanPiece(p) == ShortEscape(letter).value
  {
    LettersRead(letter);
    p := Short(letter);
  }

  lemma UnitPiece(t: Str) returns (p: Piece)
    requires StringUnit(t).Ok?
    ensures OkPiece(p) && t == SpellPiece(p) + StringUnit(t).rest && MeanPiece(p) == StringUnit(t).value
  {
    if t[0] != BACKSLASH {
      p := Raw(t[0]);
      assert t == [t[0]] + t[1..];
    } else {
      assert t == [0x5C, t[1]] + t[2..];
      if t[1] == 0x75 {
        LongStep(t[2..]);
        p := LongPiece(t[2..]);
      } else {
        p := ShortPiece(t[1], t[2..]);
      }
    }
  }

  lemma {:induction false} FirstPiece(ps: seq<Piece>, s: Str)
    requires ps != [] && OkPieces(ps) && MeanPieces(ps, s)
    ensures OkPiece(ps[0]) && s[0] == MeanPiece(ps[0]) && OkPieces(ps[1..]) && MeanPieces(ps[1..], s[1..])
    ensures s == [s[0]] + s[1..]
  {
  }

  lemma {:induction false} PiecesTail(ps: seq<Piece>, s: Str, rest: Str)
    requires OkPieces(ps) && MeanPieces(ps, s)
    ensures StringTail(SpellPieces(ps) + ([QUOTE] + rest)) == Ok(s, rest)
  {
    var end := [QUOTE] + rest;
    if ps == [] {
      assert SpellPieces(ps) + end == end && end[1..] == rest;
      assert s == [];
    } else {
      FirstPiece(ps, s);
      PieceUnit(ps[0], SpellPieces(ps[1..]) + end);
      PiecesTail(ps[1..], s[1..], rest);
      Assoc(SpellPiece(ps[0]), SpellPieces(ps[1..]), end);
    }
  }

  lemma {:induction false} TailPieces(t: Str) returns (ps: seq<Piece>)
    requires StringTail(t).Ok?
    ensures OkPieces(ps) && MeanPieces(ps, StringTail(t).value)
    ensures t == SpellPieces(ps) + ([QUOTE] + StringTail(t).rest)
    decreases |t|
  {
    if t[0] == QUOTE {
      ps := [];
      assert t == [] + ([QUOTE] + t[1..]);
    } else {
      var p := UnitPiece(t);
      var u := StringUnit(t).rest;
      var more := TailPieces(u);
      ps := [p] + more;
      assert ps[1..] == more;
      Assoc(SpellPiece(p), SpellPieces(more), [QUOTE] + StringTail(t).rest);
    }
  }

  // ---- Numbers ----

  lemma {:induction false} RunStops(t: Str)
    ensures DigitCount(t) < |t| ==> !IsDigit(t[DigitCount(t)])
  {
    if t != [] && IsDigit(t[0]) {
      RunStops(t[1..]);
    }
  }

  lemma DigitsMagnitude(ds: Str, rest: Str)
    requires OkDigits(ds) && (rest == [] || !IsNumberUnit(rest[0]))
    ensures Magnitude(ds + rest) == Ok(DigitsValue(ds), rest)
  {
    var u := ds + rest;
    assert u[..|ds|] == ds && u[|ds|..] == rest;
    DigitCountAt(u, |ds|);
  }

  lemma MagnitudeDigits(u: Str) returns (ds: Str)
    requires Magnitude(u).Ok?
    ensures OkDigits(ds) && u == ds + Magnitude(u).rest && DigitsValue(ds) == Magnitude(u).value
  {
    var run := DigitCount(u);
    ds := u[..if u[0] == 0x30 then 1 else run];
  }

  lemma IntegerNumber(negative: bool, ds: Str, rest: Str)
    requires OkDigits(ds) && (rest == [] || !IsNumberUnit(rest[0]))
    ensures Number(Spell(Integer(negative, ds)) + rest) == Sign(negative, Ok(DigitsValue(ds), rest))
  {
    DigitsMagnitude(ds, rest);
    if negative {
      Assoc([MINUS], ds, rest);
      NegativeIs(ds + rest);
    } else {
      assert Spell(Integer(negative, ds)) == ds;
      assert (ds + rest)[0] == ds[0];
      NumberIs(ds + rest);
    }
  }

  lemma SignOk(negative: bool, m: Parsed<int>)
    requires Sign(negative, m).Ok?
    ensures m.Ok? && Sign(negative, m) == Ok(JNum(if negative then -m.value else m.value), m.rest)
  {
  }

  lemma NumberInteger(t: Str) returns (d: Doc)
    requires t != [] && Number(t).Ok?
    ensures d.Integer? && OkDoc(d) && Means(d, Number(t).value) && t == Spell(d) + Number(t).rest
  {
    var negative := t[0] == MINUS;
    var u := if negative then t[1..] else t;
    NumberIs(t);
    SignOk(negative, Magnitude(u));
    var ds := MagnitudeDigits(u);
    d := SignedDoc(negative, ds);
    assert t == (if negative then [0x2D] else []) + u;
  }

  lemma SignedDoc(negative: bool, ds: Str) returns (d: Doc)
    requires OkDigits(ds)
    ensures d == Integer(negative, ds) && OkDoc(d)
    ensures Means(d, JNum(if negative then -DigitsValue(ds) else DigitsValue(ds)))
    ensures forall rest: Str :: Spell(d) + rest == (if negative then [0x2D] else []) + (ds + rest)
  {
    d := Integer(negative, ds);
  }

  // ---- Values ----

  ghost predicate MeanItems(items: seq<Item>, vs: seq<JSON>) {
    |vs| == |items| && forall i | 0 <= i < |items| :: Means(items[i].doc, vs[i])
  }

  ghost predicate OkItems(items: seq<Item>) {
    forall i | 0 <= i < |items| :: OkItem(items[i])
  }

  ghost predicate OkFields(fields: seq<Field>) {
    forall i | 0 <= i < |fields| :: OkField(fields[i])
  }

  lemma {:induction false} WordDoc(t: Str, name: Str, v: JSON) returns (d: Doc)
    requires Literal(t, name, v).Ok?
    requires (name == NULL && v == JNull) || (name == TRUE && v == JBool(true)) || (name == FALSE && v == JBool(false))
    ensures OkDoc(d) && Means(d, v) && t == Spell(d) + Literal(t, name, v).rest
  {
    assert |NULL| == |TRUE| == 4 && |FALSE| == 5 && NULL[0] == 0x6E && TRUE[0] == 0x74;
    d := Word(name);
    assert t[..|name|] == name;
  }

  lemma ScalarDoc(t: Str) returns (d: Doc)
    requires t != [] && Scalar(t).Ok?
    ensures OkDoc(d) && Means(d, Scalar(t).value) && t == Spell(d) + Scalar(t).rest
  {
    if t[0] == 0x6E {
      d := WordDoc(t, NULL, JNull);
    } else if t[0] == 0x74 {
      d := WordDoc(t, TRUE, JBool(true));
    } else if t[0] == 0x66 {
      d := WordDoc(t, FALSE, JBool(false));
    } else if t[0] == QUOTE {
      var ps := TailPieces(t[1..]);
      d := Text(ps);
      QuotedIs(t, ps, StringTail(t[1..]).rest);
    } else {
      d := NumberInteger(t);
    }
  }

  lemma {:induction false} QuotedIs(t: Str, ps: seq<Piece>, rest: Str)
    requires t != [] && t[0] == QUOTE && t[1..] == SpellPieces(ps) + ([QUOTE] + rest)
    ensures t == SpellString(ps) + rest
  {
    Assoc(SpellPieces(ps), [QUOTE], rest);
    assert t == [QUOTE] + t[1..];
    Assoc([QUOTE], SpellPieces(ps) + [QUOTE], rest);
  }

  /** One more element before the others of a list. */
  lemma {:induction false} SpellFirst(e: Item, more: seq<Item>)
    ensures SpellItems([e] + more) == [SpellItem(e)] + SpellItems(more)
    ensures Join(SpellItems([e] + more), COMMA) ==
            if more == [] then SpellItem(e) else SpellItem(e) + [COMMA] + Join(SpellItems(more), COMMA)
  {
    assert SpellItems([e] + more) == [SpellItem(e)] + SpellItems(more);
    assert ([SpellItem(e)] + SpellItems(more))[1..] == SpellItems(more);
  }

  lemma {:induction false} SpellFirstField(f: Field, more: seq<Field>)
    ensures SpellFields([f] + more) == [SpellField(f)] + SpellFields(more)
    ensures Join(SpellFields([f] + more), COMMA) ==
            if more == [] then SpellField(f) else SpellField(f) + [COMMA] + Join(SpellFields(more), COMMA)
  {
    assert SpellFields([f] + more) == [SpellField(f)] + SpellFields(more);
    assert ([SpellField(f)] + SpellFields(more))[1..] == SpellFields(more);
  }

  /** A first part, a comma, and a list that something follows. */
  lemma CommaText(first: Str, list: Str, end: Str)
    ensures first + [COMMA] + list + end == first + ([COMMA] + (list + end))
  {
  }

  lemma ItemText(before: Str, doc: Str, after: Str, rest: Str)
    ensures before + (doc + after) + rest == before + (doc + (after + rest))
  {
  }

  lemma ValueDoc(text: Str) returns (before: Str, d: Doc)
    requires Value(text).Ok?
    ensures Blank(before) && OkDoc(d) && Means(d, Value(text).value)
    ensures text == before + (Spell(d) + Value(text).rest)
    decreases |text|, 1
  {
    before := SkippedBlank(text);
    var t := SkipSpace(text);
    ValueOfSkipped(text);
    SkipSuffix(text);
    if t[0] == LBRACKET {
      d := ListDoc(t);
    } else if t[0] == LBRACE {
      d := ObjectDoc(t);
    } else {
      ScalarIs(t);
      d := ScalarDoc(t);
    }
  }

  lemma ListDoc(t: Str) returns (d: Doc)
    requires t != [] && t[0] == LBRACKET && Value(t).Ok?
    ensures OkDoc(d) && Means(d, Value(t).value) && t == Spell(d) + Value(t).rest
    decreases |t|, 0
  {
    ValueIsBracketed(t);
    var body := t[1..];
    var rest := Value(t).rest;
    var u := SkipSpace(body);
    if u != [] && u[0] == RBRACKET {
      var blank := SkippedBlank(body);
      d := List([], blank);
      BracketText(t, LBRACKET, blank, RBRACKET, rest);
    } else {
      var items := ElementsDoc(body);
      d := List(items, []);
      BracketText(t, LBRACKET, Join(SpellItems(items), COMMA), RBRACKET, rest);
    }
  }

  lemma BracketText(t: Str, open: Unit, inner: Str, close: Unit, rest: Str)
    requires t != [] && t[0] == open && t[1..] == inner + ([close] + rest)
    ensures t == [open] + (inner + [close]) + rest
  {
    assert t == [open] + t[1..];
  }

  lemma {:induction false} ItemsCons(e: Item, v: JSON, more: seq<Item>, vs: seq<JSON>)
    requires OkItem(e) && OkItems(more) && Means(e.doc, v) && MeanItems(more, vs)
    ensures OkItems([e] + more) && MeanItems([e] + more, [v] + vs)
  {
    var items, values := [e] + more, [v] + vs;
    forall i | 0 <= i < |items| ensures OkItem(items[i]) && Means(items[i].doc, values[i]) {
      if i > 0 {
        assert items[i] == more[i - 1] && values[i] == vs[i - 1];
      }
    }
  }

  /** An element that has been read, and what follows it. */
  lemma {:induction false} MoreElementsDoc(before: Str, d: Doc, v: JSON, after: Str) returns (items: seq<Item>)
    requires MoreElements(v, after).Ok? && Blank(before) && OkDoc(d) && Means(d, v)
    ensures items != [] && OkItems(items) && MeanItems(items, MoreElements(v, after).value)
    ensures before + (Spell(d) + after) == Join(SpellItems(items), COMMA) + ([RBRACKET] + MoreElements(v, after).rest)
    decreases |after|, 3
  {
    var space := SkippedBlank(after);
    var u := SkipSpace(after);
    var e := Item(before, d, space);
    ItemText(before, Spell(d), space, u);
    assert u == [u[0]] + u[1..];
    var more: seq<Item>, vs: seq<JSON> := [], [];
    if u[0] == COMMA {
      more := ElementsDoc(u[1..]);
      vs := Elements(u[1..]).value;
      CommaText(SpellItem(e), Join(SpellItems(more), COMMA), [RBRACKET] + Elements(u[1..]).rest);
    } else {
      assert [v] + vs == [v];
    }
    items := [e] + more;
    ItemsCons(e, v, more, vs);
    SpellFirst(e, more);
  }

  lemma ElementsDoc(t: Str) returns (items: seq<Item>)
    requires Elements(t).Ok?
    ensures items != [] && OkItems(items) && MeanItems(items, Elements(t).value)
    ensures t == Join(SpellItems(items), COMMA) + ([RBRACKET] + Elements(t).rest)
    decreases |t|, 2
  {
    ElementsIs(t);
    var before, d := ValueDoc(t);
    items := MoreElementsDoc(before, d, Value(t).value, Value(t).rest);
  }

  lemma EntryValueIs(key: Str, after: Str)
    requires EntryValue(key, after).Ok?
    ensures var u := SkipSpace(after);
            && u != [] && u == [COLON] + u[1..]
            && var w := SkipSpace(u[1..]);
               Value(w).Ok? && Value(w).value == EntryValue(key, after).value.val && Value(w).rest == EntryValue(key, after).rest
  {
  }

  /** A value that no space precedes. */
  lemma BareValueDoc(w: Str) returns (d: Doc)
    requires Value(w).Ok? && SkipSpace(w) == w
    ensures OkDoc(d) && Means(d, Value(w).value) && w == Spell(d) + Value(w).rest
    decreases |w|, 2
  {
    var none;
    none, d := ValueDoc(w);
    BlankFree(w, none, Spell(d) + Value(w).rest);
    assert w == Spell(d) + Value(w).rest;
  }

  lemma EntryValueDoc(key: Str, after: Str) returns (middle: Str, item: Item)
    requires EntryValue(key, after).Ok?
    ensures Blank(middle) && OkItem(item) && item.after == [] && Means(item.doc, EntryValue(key, after).value.val)
    ensures after == middle + ([COLON] + (item.before + (Spell(item.doc) + EntryValue(key, after).rest)))
    decreases |after|, 2
  {
    EntryValueIs(key, after);
    middle := SkippedBlank(after);
    var u := SkipSpace(after);
    SkipSuffix(u[1..]);
    var space := SkippedBlank(u[1..]);
    var d := BareValueDoc(SkipSpace(u[1..]));
    item := Item(space, d, []);
  }

  lemma EntryDoc(text: Str) returns (f: Field)
    requires OneEntry(text).Ok?
    ensures OkField(f) && f.item.after == []
    ensures MeanPieces(f.name, OneEntry(text).value.key) && Means(f.item.doc, OneEntry(text).value.val)
    ensures text == SpellField(f) + OneEntry(text).rest
    decreases |text|, 2
  {
    EntryIs(text);
    var before := SkippedBlank(text);
    var t := SkipSpace(text);
    var name := TailPieces(t[1..]);
    var key, after := StringTail(t[1..]).value, StringTail(t[1..]).rest;
    QuotedIs(t, name, after);
    var middle, item := EntryValueDoc(key, after);
    f := Field(before, name, middle, item);
    FieldText(f, OneEntry(text).rest);
    assert [] + OneEntry(text).rest == OneEntry(text).rest;
  }

  lemma BlankFree(w: Str, none: Str, rest: Str)
    requires SkipSpace(w) == w && Blank(none) && w == none + rest
    ensures none == []
  {
    if none != [] {
      SpacesAre(none[0]);
      SpaceSkipped(w);
      assert false;
    }
  }

  lemma SpaceSkipped(w: Str)
    requires w != [] && IsSpace(w[0])
    ensures |SkipSpace(w)| < |w|
  {
  }

  lemma {:induction false} FieldText(f: Field, rest: Str)
    ensures SpellField(f) + rest ==
            f.before + (SpellString(f.name) + (f.middle + ([COLON] + (f.item.before + (Spell(f.item.doc) + (f.item.after + rest))))))
  {
  }

  lemma {:induction false} WithAfter(f: Field, space: Str) returns (g: Field)
    requires OkField(f) && f.item.after == [] && Blank(space)
    ensures OkField(g) && g.name == f.name && g.item.doc == f.item.doc && SpellField(g) == SpellField(f) + space
  {
    g := f.(item := f.item.(after := space));
    FieldText(f, space);
    FieldText(g, []);
    assert SpellField(g) + [] == SpellField(g) && space + [] == space && [] + space == space;
  }

  lemma {:induction false} MeanFieldsCons(f: Field, e: Entry, more: seq<Field>, es: seq<Entry>)
    requires MeanPieces(f.name, e.key) && Means(f.item.doc, e.val) && MeanFields(more, MembersOf(es))
    ensures MeanFields([f] + more, MembersOf([e] + es))
  {
    assert MembersOf([e] + es) == [Member(e.key, e.val)] + MembersOf(es);
  }

  lemma {:induction false} OkFieldsCons(f: Field, more: seq<Field>)
    requires OkField(f) && OkFields(more)
    ensures OkFields([f] + more)
  {
  }

  /** A member that has been read, and what follows it. */
  lemma {:induction false} MoreEntriesDoc(bare: Field, e: Entry, after: Str) returns (fields: seq<Field>)
    requires MoreEntries(e, after).Ok?
    requires OkField(bare) && bare.item.after == [] && MeanPieces(bare.name, e.key) && Means(bare.item.doc, e.val)
    ensures fields != [] && OkFields(fields) && MeanFields(fields, MembersOf(MoreEntries(e, after).value))
    ensures SpellField(bare) + after == Join(SpellFields(fields), COMMA) + ([RBRACE] + MoreEntries(e, after).rest)
    decreases |after|, 4
  {
    var space := SkippedBlank(after);
    var u := SkipSpace(after);
    var f := WithAfter(bare, space);
    Assoc(SpellField(bare), space, u);
    assert u == [u[0]] + u[1..];
    var more: seq<Field>, es: seq<Entry> := [], [];
    if u[0] == COMMA {
      more := EntriesDoc(u[1..]);
      es := Entries(u[1..]).value;
      CommaText(SpellField(f), Join(SpellFields(more), COMMA), [RBRACE] + Entries(u[1..]).rest);
    } else {
      assert [e] + es == [e];
      assert MeanFields(more, MembersOf(es));
    }
    fields := [f] + more;
    OkFieldsCons(f, more);
    MeanFieldsCons(f, e, more, es);
    SpellFirstField(f, more);
  }

  lemma EntriesDoc(t: Str) returns (fields: seq<Field>)
    requires Entries(t).Ok?
    ensures fields != [] && OkFields(fields) && MeanFields(fields, MembersOf(Entries(t).value))
    ensures t == Join(SpellFields(fields), COMMA) + ([RBRACE] + Entries(t).rest)
    decreases |t|, 3
  {
    EntriesIs(t);
    var bare := EntryDoc(t);
    fields := MoreEntriesDoc(bare, OneEntry(t).value, OneEntry(t).rest);
  }

  lemma ObjectDoc(t: Str) returns (d: Doc)
    requires t != [] && t[0] == LBRACE && Value(t).Ok?
    ensures OkDoc(d) && Means(d, Value(t).value) && t == Spell(d) + Value(t).rest
    decreases |t|, 0
  {
    ValueIsBracketed(t);
    var body := t[1..];
    var rest := Value(t).rest;
    var u := SkipSpace(body);
    if u != [] && u[0] == RBRACE {
      var blank := SkippedBlank(body);
      d := Object([], blank);
      assert MeanFields([], []) && SetAll([]) == [];
      BracketText(t, LBRACE, blank, RBRACE, rest);
    } else {
      var fields := EntriesDoc(body);
      d := Object(fields, []);
      assert MeanFields(fields, MembersOf(Entries(body).value));
      BracketText(t, LBRACE, Join(SpellFields(fields), COMMA), RBRACE, rest);
    }
  }

  // ---- And back: every text of the grammar is read as what it stands for ----

  /** What follows a document does not extend it. */
  ghost predicate Ends(d: Doc, rest: Str) {
    d.Integer? && rest != [] ==> !IsNumberUnit(rest[0])
  }

  lemma {:induction false} SpellStart(d: Doc)
    requires OkDoc(d)
    ensures Spell(d) != [] && !IsSpace(Spell(d)[0]) && Spell(d)[0] != RBRACKET && Spell(d)[0] != RBRACE
  {
    match d {
      case Word(name) => assert |Ascii("null")| == |Ascii("true")| == 4 && |Ascii("false")| == 5;
      case Integer(negative, digits) =>
      case Text(pieces) =>
      case List(items, blank) =>
      case Object(fields, blank) =>
    }
  }

  lemma WordsDiffer()
    ensures NULL[..1] == [0x6E] && TRUE[..1] == [0x74] && FALSE[..1] == [0x66]
    ensures |NULL| == |TRUE| == 4 && |FALSE| == 5
  {
  }

  lemma {:induction false} WordValue(name: Str, v: JSON, rest: Str)
    requires OkDoc(Word(name)) && Means(Word(name), v)
    ensures Value(name + rest) == Ok(v, rest)
  {
    WordsDiffer();
    var t := name + rest;
    assert name != [] && t[0] == name[0] == name[..1][0];
    assert name <= t && t[|name|..] == rest;
    ScalarIs(t);
  }

  lemma IntegerStart(negative: bool, digits: Str)
    requires OkDigits(digits)
    ensures var t := Spell(Integer(negative, digits)); t != [] && (IsDigit(t[0]) || t[0] == MINUS)
  {
  }

  lemma NumberValue(token: Str, rest: Str)
    requires token != [] && (IsDigit(token[0]) || token[0] == MINUS)
    ensures Value(token + rest) == Number(token + rest)
  {
    ScalarIs(token + rest);
  }

  lemma IntegerValue(negative: bool, digits: Str, rest: Str)
    requires OkDigits(digits) && (rest == [] || !IsNumberUnit(rest[0]))
    ensures Value(Spell(Integer(negative, digits)) + rest) == Sign(negative, Ok(DigitsValue(digits), rest))
  {
    IntegerStart(negative, digits);
    IntegerNumber(negative, digits, rest);
    NumberValue(Spell(Integer(negative, digits)), rest);
  }

  lemma {:induction false} TextValue(ps: seq<Piece>, s: Str, rest: Str)
    requires OkPieces(ps) && MeanPieces(ps, s)
    ensures Value(SpellString(ps) + rest) == Ok(JStr(s), rest)
  {
    NameText(ps, rest);
    PiecesTail(ps, s, rest);
    ScalarIs(SpellString(ps) + rest);
  }

  lemma {:induction false} DocScalar(d: Doc, v: JSON, rest: Str)
    requires OkDoc(d) && Means(d, v) && Ends(d, rest) && (d.Word? || d.Integer? || d.Text?)
    ensures Value(Spell(d) + rest) == Ok(v, rest)
  {
    match d {
      case Word(name) =>
        WordValue(name, v, rest);
      case Integer(negative, digits) =>
        IntegerValue(negative, digits, rest);
      case Text(pieces) =>
        TextValue(pieces, v.s, rest);
    }
  }

  lemma {:induction false} DocValue(d: Doc, v: JSON, rest: Str)
    requires OkDoc(d) && Means(d, v) && Ends(d, rest)
    ensures Value(Spell(d) + rest) == Ok(v, rest)
    decreases d, 1
  {
    match d {
      case List(items, blank) =>
        DocList(items, blank, v.items, rest);
      case Object(fields, blank) =>
        var ms :| MeanFields(fields, ms) && v == JObj(SetAll(ms));
        DocObject(fields, blank, ms, rest);
      case _ =>
        DocScalar(d, v, rest);
    }
  }

  lemma BracketBody(open: Unit, inner: Str, close: Unit, rest: Str)
    ensures var t := [open] + (inner + [close]) + rest;
            t[0] == open && t[1..] == inner + ([close] + rest)
  {
  }

  lemma {:induction false} DocList(items: seq<Item>, blank: Str, vs: seq<JSON>, rest: Str)
    requires Blank(blank) && OkItems(items) && MeanItems(items, vs)
    ensures Value(Spell(List(items, blank)) + rest) == Ok(JArr(vs), rest)
    decreases items, 1
  {
    var inner := if items == [] then blank else Join(SpellItems(items), COMMA);
    var t := [LBRACKET] + (inner + [RBRACKET]) + rest;
    BracketBody(LBRACKET, inner, RBRACKET, rest);
    ValueIsBracketed(t);
    if items == [] {
      SkipBlank(blank, [RBRACKET] + rest);
      assert vs == [];
    } else {
      ItemsStart(items, [RBRACKET] + rest);
      DocElements(items, vs, rest);
    }
  }

  /** A list of elements is not mistaken for the empty one. */
  lemma {:induction false} ItemsStart(items: seq<Item>, rest: Str)
    requires items != [] && OkItems(items)
    ensures var u := SkipSpace(Join(SpellItems(items), COMMA) + rest); u != [] && u[0] != RBRACKET
  {
    var e, more := items[0], items[1..];
    assert items == [e] + more;
    SpellFirst(e, more);
    SpellStart(e.doc);
    var tail := (if more == [] then [] else [COMMA] + Join(SpellItems(more), COMMA)) + rest;
    SplitFirst(SpellItem(e), Join(SpellItems(more), COMMA), rest, more == []);
    ItemText(e.before, Spell(e.doc), e.after, tail);
    SkipBlank(e.before, Spell(e.doc) + (e.after + tail));
  }

  lemma SplitFirst(first: Str, list: Str, rest: Str, last: bool)
    ensures (if last then first else first + [COMMA] + list) + rest
            == first + ((if last then [] else [COMMA] + list) + rest)
  {
  }

  /** Reading one element, the spaces after it, and the bracket or comma that ends it. */
  lemma {:induction false} DocItem(e: Item, v: JSON, end: Str)
    requires OkItem(e) && Means(e.doc, v) && end != [] && !IsSpace(end[0]) && !IsNumberUnit(end[0])
    ensures Value(SpellItem(e) + end) == Ok(v, e.after + end) && SkipSpace(e.after + end) == end
    decreases e, 0
  {
    var rest := e.after + end;
    ItemText(e.before, Spell(e.doc), e.after, end);
    SpellStart(e.doc);
    SkipBlank(e.before, Spell(e.doc) + rest);
    SkipBlank(e.after, end);
    if e.after != [] {
      SpacesAre(e.after[0]);
    }
    DocValue(e.doc, v, rest);
    ValueOfSkipped(SpellItem(e) + end);
    ValueOfSkipped(Spell(e.doc) + rest);
    assert SkipSpace(Spell(e.doc) + rest) == Spell(e.doc) + rest;
  }

  lemma {:induction false} RestItems(items: seq<Item>, vs: seq<JSON>)
    requires items != [] && OkItems(items) && MeanItems(items, vs)
    ensures OkItem(items[0]) && Means(items[0].doc, vs[0]) && OkItems(items[1..]) && MeanItems(items[1..], vs[1..])
    ensures items == [items[0]] + items[1..] && vs == [vs[0]] + vs[1..]
  {
  }

  lemma {:induction false} DocElements(items: seq<Item>, vs: seq<JSON>, rest: Str)
    requires items != [] && OkItems(items) && MeanItems(items, vs)
    ensures Elements(Join(SpellItems(items), COMMA) + ([RBRACKET] + rest)) == Ok(vs, rest)
    decreases items, 0
  {
    var e, more := items[0], items[1..];
    var end := [RBRACKET] + rest;
    RestItems(items, vs);
    SpellFirst(e, more);
    if more == [] {
      DocItem(e, vs[0], end);
      ElementsIs(SpellItem(e) + end);
      assert vs == [vs[0]];
    } else {
      var tail := Join(SpellItems(more), COMMA) + end;
      DocItem(e, vs[0], [COMMA] + tail);
      DocElements(more, vs[1..], rest);
      CommaText(SpellItem(e), Join(SpellItems(more), COMMA), end);
      ElementsIs(SpellItem(e) + ([COMMA] + tail));
    }
  }

  lemma {:induction false} ListedObject(t: Str, body: Str, es: seq<Entry>, rest: Str)
    requires t != [] && t[0] == LBRACE && t[1..] == body && Entries(body) == Ok(es, rest)
    requires SkipSpace(body) != [] && SkipSpace(body)[0] != RBRACE
    ensures Value(t) == Ok(JObj(SetAll(MembersOf(es))), rest)
  {
    ValueIsBracketed(t);
  }

  lemma EmptyObject(t: Str, blank: Str, rest: Str)
    requires t != [] && t[0] == LBRACE && t[1..] == blank + ([RBRACE] + rest) && Blank(blank)
    ensures Value(t) == Ok(JObj([]), rest)
  {
    ValueIsBracketed(t);
    SkipBlank(blank, [RBRACE] + rest);
  }

  lemma {:induction false} DocObject(fields: seq<Field>, blank: Str, ms: seq<Member>, rest: Str)
    requires Blank(blank) && OkFields(fields) && MeanFields(fields, ms)
    ensures Value(Spell(Object(fields, blank)) + rest) == Ok(JObj(SetAll(ms)), rest)
    decreases fields, 1
  {
    if fields == [] {
      BracketBody(LBRACE, blank, RBRACE, rest);
      EmptyObject([LBRACE] + (blank + [RBRACE]) + rest, blank, rest);
      assert ms == [];
    } else {
      var inner := Join(SpellFields(fields), COMMA);
      BracketBody(LBRACE, inner, RBRACE, rest);
      FieldsStart(fields, [RBRACE] + rest);
      var es := DocEntries(fields, ms, rest);
      ListedObject([LBRACE] + (inner + [RBRACE]) + rest, inner + ([RBRACE] + rest), es, rest);
    }
  }

  lemma {:induction false} FieldsStart(fields: seq<Field>, rest: Str)
    requires fields != [] && OkFields(fields)
    ensures var u := SkipSpace(Join(SpellFields(fields), COMMA) + rest); u != [] && u[0] != RBRACE
  {
    var f, more := fields[0], fields[1..];
    assert fields == [f] + more;
    SpellFirstField(f, more);
    var tail := (if more == [] then [] else [COMMA] + Join(SpellFields(more), COMMA)) + rest;
    SplitFirst(SpellField(f), Join(SpellFields(more), COMMA), rest, more == []);
    FieldText(f, tail);
    SkipBlank(f.before, FieldBody(f, tail));
  }

  /** A member from its name on, and what follows it. */
  function FieldBody(f: Field, rest: Str): (t: Str) {
    SpellString(f.name) + (f.middle + ([COLON] + (f.item.before + (Spell(f.item.doc) + (f.item.after + rest)))))
  }

  lemma {:induction false} DocField(f: Field, m: Member, end: Str) returns (e: Entry)
    requires OkField(f) && MeanPieces(f.name, m.key) && Means(f.item.doc, m.val)
    requires end != [] && !IsSpace(end[0]) && !IsNumberUnit(end[0])
    ensures OneEntry(SpellField(f) + end) == Ok(e, f.item.after + end) && e.key == m.key && e.val == m.val
    ensures SkipSpace(f.item.after + end) == end
    decreases f, 0
  {
    var item := f.item;
    var rest := item.after + end;
    var value := Spell(item.doc) + rest;
    FieldText(f, end);
    SkipBlank(f.before, FieldBody(f, end));
    NameText(f.name, f.middle + ([COLON] + (item.before + value)));
    PiecesTail(f.name, m.key, f.middle + ([COLON] + (item.before + value)));
    SkipBlank(f.middle, [COLON] + (item.before + value));
    SpellStart(item.doc);
    SkipBlank(item.before, value);
    SkipBlank(item.after, end);
    if item.after != [] {
      SpacesAre(item.after[0]);
    }
    DocValue(item.doc, m.val, rest);
    EntryIs(SpellField(f) + end);
    assert ([COLON] + (item.before + value))[1..] == item.before + value;
    e := Entry(m.key, m.val, value[..|value| - |rest|]);
  }

  lemma {:induction false} NameText(name: seq<Piece>, rest: Str)
    ensures var t := SpellString(name) + rest;
            t[0] == QUOTE && t[1..] == SpellPieces(name) + ([QUOTE] + rest)
  {
  }

  lemma {:induction false} LastEntry(text: Str, e: Entry, after: Str, rest: Str)
    requires OneEntry(text) == Ok(e, after) && SkipSpace(after) == [RBRACE] + rest
    ensures Entries(text) == Ok([e], rest)
  {
    EntriesIs(text);
    assert ([RBRACE] + rest)[1..] == rest;
  }

  lemma {:induction false} NextEntry(text: Str, e: Entry, after: Str, tail: Str, es: seq<Entry>, rest: Str)
    requires OneEntry(text) == Ok(e, after) && SkipSpace(after) == [COMMA] + tail && Entries(tail) == Ok(es, rest)
    ensures Entries(text) == Ok([e] + es, rest)
  {
    EntriesIs(text);
    assert ([COMMA] + tail)[1..] == tail;
  }

  lemma {:induction false} MembersCons(e: Entry, m: Member, es: seq<Entry>, ms: seq<Member>)
    requires e.key == m.key && e.val == m.val && MembersOf(es) == ms
    ensures MembersOf([e] + es) == [m] + ms
  {
  }

  lemma {:induction false} RestFields(fields: seq<Field>, ms: seq<Member>)
    requires fields != [] && OkFields(fields) && MeanFields(fields, ms)
    ensures var f, m := fields[0], ms[0]; OkField(f) && MeanPieces(f.name, m.key) && Means(f.item.doc, m.val)
    ensures OkFields(fields[1..]) && MeanFields(fields[1..], ms[1..])
    ensures fields == [fields[0]] + fields[1..] && ms == [ms[0]] + ms[1..]
  {
  }

  lemma {:induction false} DocEntries(fields: seq<Field>, ms: seq<Member>, rest: Str) returns (es: seq<Entry>)
    requires fields != [] && OkFields(fields) && MeanFields(fields, ms)
    ensures Entries(Join(SpellFields(fields), COMMA) + ([RBRACE] + rest)) == Ok(es, rest)
    ensures MembersOf(es) == ms
    decreases fields, 0
  {
    var f, more := fields[0], fields[1..];
    var end := [RBRACE] + rest;
    RestFields(fields, ms);
    SpellFirstField(f, more);
    if more == [] {
      var e := DocField(f, ms[0], end);
      LastEntry(SpellField(f) + end, e, f.item.after + end, rest);
      es := [e];
      MembersCons(e, ms[0], [], []);
      assert [e] + [] == [e] && ms == [ms[0]];
    } else {
      var tail := Join(SpellFields(more), COMMA) + end;
      var e := DocField(f, ms[0], [COMMA] + tail);
      var others := DocEntries(more, ms[1..], rest);
      CommaText(SpellField(f), Join(SpellFields(more), COMMA), end);
      NextEntry(SpellField(f) + ([COMMA] + tail), e, f.item.after + ([COMMA] + tail), tail, others, rest);
      es := [e] + others;
      MembersCons(e, ms[0], others, ms[1..]);
    }
  }

  // ---- Exactly the grammar ----

  /** The text is a document between spaces that stands for the value. */
  ghost predicate Stands(text: Str, before: Str, d: Doc, after: Str, v: JSON) {
    Blank(before) && Blank(after) && OkDoc(d) && Means(d, v) && text == before + (Spell(d) + after)
  }

  /** A text parses to a value exactly when the grammar of RFC 8259 spells the value so. */
  lemma {:induction false} ParseIsGrammar(text: Str, v: JSON)
    ensures Parse(text) == Some(v) <==> exists before, d, after :: Stands(text, before, d, after, v)
  {
    if Parse(text) == Some(v) {
      var before, d := ValueDoc(text);
      var after := SkippedBlank(Value(text).rest);
      assert after + [] == after;
      assert Stands(text, before, d, after, v);
    }
    if before, d, after :| Stands(text, before, d, after, v) {
      SpellStart(d);
      SkipBlank(before, Spell(d) + after);
      if after != [] {
        SpacesAre(after[0]);
      }
      DocValue(d, v, after);
      ValueOfSkipped(text);
      ValueOfSkipped(Spell(d) + after);
      SkipBlank([], Spell(d) + after);
      SkipBlank(after, []);
      assert [] + (Spell(d) + after) == Spell(d) + after && after + [] == after;
    }
  }
}
