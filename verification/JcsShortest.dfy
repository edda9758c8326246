/** Of all the texts that spell a value, the canonical one is among the shortest, and its escapes are lower case. */
module JcsShortest {
  import opened Text
  import opened Json
  import opened JsonParse
  import opened Jcs
  import opened Grammar
  import opened GrammarExact
  import JcsCanon
  import Utf8

  // ---- Well-formed text cut at ASCII ----

  lemma WellFormedRest(t: Str)
    requires t != [] && t[0] < 0x80
    ensures Utf8.WellFormed(t) <==> Utf8.WellFormed(t[1..])
  {
  }

  lemma {:induction false} WellFormedAfter(s: Str, t: Str)
    requires forall i | 0 <= i < |s| :: s[i] < 0x80
    ensures Utf8.WellFormed(s + t) <==> Utf8.WellFormed(t)
  {
    if s == [] {
      assert s + t == t;
    } else {
      WellFormedAfter(s[1..], t);
      assert (s + t)[1..] == s[1..] + t;
      WellFormedRest(s + t);
    }
  }

  lemma CharBefore(s: Str, x: Unit, t: Str)
    requires s != [] && x < 0x80
    ensures var w := s + [x] + t; Utf8.CharLen(w) == Utf8.CharLen(s) && (Utf8.StartsScalar(w) <==> Utf8.StartsScalar(s))
  {
    var w := s + [x] + t;
    assert w[0] == s[0];
    assert |s| > 1 ==> w[1] == s[1];
    assert |s| == 1 ==> w[1] == x;
  }

  lemma {:induction false} WellFormedBefore(s: Str, x: Unit, t: Str)
    requires x < 0x80 && Utf8.WellFormed(s + [x] + t)
    ensures Utf8.WellFormed(s) && Utf8.WellFormed(t)
    decreases |s|
  {
    var w := s + [x] + t;
    if s == [] {
      assert w == [x] + t && w[1..] == t;
      WellFormedRest(w);
    } else {
      CharBefore(s, x, t);
      var n := Utf8.CharLen(s);
      assert w[n..] == s[n..] + [x] + t;
      WellFormedBefore(s[n..], x, t);
    }
  }

  lemma BlankAscii(s: Str)
    requires Blank(s)
    ensures forall i | 0 <= i < |s| :: s[i] < 0x80
  {
    forall i | 0 <= i < |s| ensures s[i] < 0x80 {
      SpacesAre(s[i]);
    }
  }

  lemma BetweenBlanks(before: Str, t: Str, after: Str)
    requires Blank(before) && Blank(after) && Utf8.WellFormed(before + (t + after))
    ensures Utf8.WellFormed(t)
  {
    BlankAscii(before);
    BlankAscii(after);
    WellFormedAfter(before, t + after);
    if after != [] {
      assert t + after == t + [after[0]] + after[1..];
      WellFormedBefore(t, after[0], after[1..]);
    } else {
      assert t + after == t;
    }
  }

  // ---- Strings and numbers ----

  lemma EscapeCons(u: Unit, s: Str)
    ensures |Escape([u] + s)| <= |EscapeUnit(u)| + |Escape(s)|
  {
    var t := [u] + s;
    assert t[1..] == s;
    if Utf8.StartsPair(t) {
      assert t[2..] == s[1..];
      assert !Utf8.StartsPair(s);
    }
  }

  lemma EscapePair(h: Unit, l: Unit, s: Str)
    requires Utf8.IsHigh(h) && Utf8.IsLow(l)
    ensures |Escape([h, l] + s)| == 2 + |Escape(s)|
  {
    assert ([h, l] + s)[2..] == s;
  }

  lemma HexAscii(h: Str)
    requires IsHexText(h)
    ensures forall i | 0 <= i < 4 :: h[i] < 0x80
  {
    forall i | 0 <= i < 4 ensures h[i] < 0x80 {
      HexDigitRead(h[i]);
    }
  }

  lemma RawCost(u: Unit, rest: Str)
    requires OkPiece(Raw(u)) && !Utf8.IsSurrogate(u)
    ensures |EscapeUnit(u)| == 1
    ensures Utf8.WellFormed([u] + rest) ==> Utf8.WellFormed(rest)
  {
    assert ([u] + rest)[1..] == rest;
  }

  lemma {:induction false} PieceCost(p: Piece, rest: Str)
    requires OkPiece(p) && 0 <= MeanPiece(p) < 0x1_0000 && (p.Raw? ==> !Utf8.IsSurrogate(p.u))
    ensures |EscapeUnit(MeanPiece(p))| <= |SpellPiece(p)|
    ensures Utf8.WellFormed(SpellPiece(p) + rest) ==> Utf8.WellFormed(rest)
  {
    match p {
      case Raw(u) =>
        RawCost(u, rest);
      case Short(letter) =>
        LettersRead(letter);
        ShortCost(letter);
        WellFormedAfter([0x5C, letter], rest);
      case Long(hex) =>
        HexAscii(hex);
        LongCost(MeanPiece(p));
        WellFormedAfter([0x5C, 0x75] + hex, rest);
    }
  }

  lemma LongCost(u: Unit)
    ensures |EscapeUnit(u)| <= 6
  {
  }

  lemma ShortCost(letter: Unit)
    requires ShortEscape(letter).Some?
    ensures letter < 0x80 && |EscapeUnit(ShortEscape(letter).value)| <= 2
  {
  }

  /** In well-formed text a surrogate that stands for itself is half of a pair that does. */
  lemma {:induction false} RawPair(ps: seq<Piece>)
    requires ps != [] && OkPieces(ps) && ps[0].Raw? && Utf8.IsSurrogate(ps[0].u) && Utf8.WellFormed(SpellPieces(ps))
    ensures |ps| > 1 && ps[1].Raw? && Utf8.IsHigh(ps[0].u) && Utf8.IsLow(ps[1].u)
    ensures Utf8.WellFormed(SpellPieces(ps[2..])) && |SpellPieces(ps)| == 2 + |SpellPieces(ps[2..])|
  {
    var t := SpellPieces(ps);
    assert t == [ps[0].u] + SpellPieces(ps[1..]);
    assert Utf8.StartsPair(t);
    SecondPiece(ps);
    assert t[2..] == SpellPieces(ps[2..]);
  }

  lemma {:induction false} SecondPiece(ps: seq<Piece>)
    requires ps != [] && OkPieces(ps) && ps[0].Raw? && |SpellPieces(ps)| > 1 && Utf8.IsLow(SpellPieces(ps)[1])
    ensures |ps| > 1 && ps[1].Raw? && ps[1].u == SpellPieces(ps)[1]
    ensures SpellPieces(ps) == [ps[0].u, ps[1].u] + SpellPieces(ps[2..])
  {
    assert SpellPieces(ps) == [ps[0].u] + SpellPieces(ps[1..]);
    assert |ps| > 1;
    assert SpellPieces(ps)[1] == SpellPiece(ps[1])[0];
    assert ps[1..][1..] == ps[2..];
  }

  lemma {:induction false} StringCost(ps: seq<Piece>, s: Str)
    requires OkPieces(ps) && MeanPieces(ps, s) && Utf8.WellFormed(SpellPieces(ps))
    ensures |Escape(s)| <= |SpellPieces(ps)|
    decreases |ps|
  {
    if ps != [] {
      FirstPiece(ps, s);
      if ps[0].Raw? && Utf8.IsSurrogate(ps[0].u) {
        RawPair(ps);
        FirstPiece(ps[1..], s[1..]);
        assert ps[1..][1..] == ps[2..] && s[1..][1..] == s[2..];
        StringCost(ps[2..], s[2..]);
        EscapePair(s[0], s[1], s[2..]);
        assert s == [s[0], s[1]] + s[2..];
      } else {
        PieceCost(ps[0], SpellPieces(ps[1..]));
        StringCost(ps[1..], s[1..]);
        EscapeCons(s[0], s[1..]);
      }
    }
  }

  lemma {:induction false} QuoteCost(ps: seq<Piece>, s: Str)
    requires OkPieces(ps) && MeanPieces(ps, s) && Utf8.WellFormed(SpellString(ps))
    ensures |Quote(s)| <= |SpellString(ps)|
  {
    WellFormedAfter([0x22], SpellPieces(ps) + [0x22]);
    assert SpellPieces(ps) + [0x22] == SpellPieces(ps) + [0x22] + [];
    WellFormedBefore(SpellPieces(ps), 0x22, []);
    StringCost(ps, s);
  }

  lemma {:induction false} DigitsCost(ds: Str)
    requires ds != [] && forall i | 0 <= i < |ds| :: IsDigit(ds[i])
    ensures DigitsValue(ds) >= 0 && |Digits(DigitsValue(ds))| <= |ds|
  {
    var n := |ds| - 1;
    if n > 0 {
      DigitsCost(ds[..n]);
      assert DigitsValue(ds) / 10 == DigitsValue(ds[..n]);
    } else {
      assert DigitsValue(ds[..n]) == 0;
    }
  }

  lemma IntegerCost(negative: bool, ds: Str)
    requires OkDigits(ds)
    ensures |Decimal(if negative then -DigitsValue(ds) else DigitsValue(ds))| <= |Spell(Integer(negative, ds))|
  {
    DigitsCost(ds);
  }

  // ---- Lists ----

  /** The length of a join and one separator more. */
  function Width(ts: seq<Str>): (n: nat) {
    if ts == [] then 0 else |ts[0]| + 1 + Width(ts[1..])
  }

  lemma {:induction false} JoinWidth(ts: seq<Str>)
    requires ts != []
    ensures |Join(ts, COMMA)| + 1 == Width(ts)
  {
    if |ts| > 1 {
      JoinWidth(ts[1..]);
    } else {
      assert ts[1..] == [];
    }
  }

  lemma {:induction false} WidthAppend(a: seq<Str>, b: seq<Str>)
    ensures Width(a + b) == Width(a) + Width(b)
  {
    if a == [] {
      assert a + b == b;
    } else {
      assert (a + b)[1..] == a[1..] + b;
      WidthAppend(a[1..], b);
    }
  }

  lemma WidthOne(t: Str)
    ensures Width([t]) == |t| + 1
  {
    assert [t][1..] == [];
  }

  /** Setting a member that is there already only drops its old text. */
  lemma {:induction false} PutWidth(ms: seq<Member>, k: Str, v: JSON)
    ensures Width(MemberTexts(Put(ms, k, v))) <= Width(MemberTexts(ms)) + |MemberText(Member(k, v))| + 1
  {
    var m := Member(k, v);
    WidthOne(MemberText(m));
    if HasKey(ms, k) {
      var i := Find(ms, k);
      var a, b := MemberTexts(ms[..i]), MemberTexts(ms[i + 1..]);
      assert MemberTexts(ms) == a + [MemberText(ms[i])] + b;
      assert MemberTexts(Put(ms, k, v)) == a + [MemberText(m)] + b;
      WidthAppend(a + [MemberText(ms[i])], b);
      WidthAppend(a, [MemberText(ms[i])]);
      WidthAppend(a + [MemberText(m)], b);
      WidthAppend(a, [MemberText(m)]);
      WidthOne(MemberText(ms[i]));
    } else {
      assert MemberTexts(ms + [m]) == MemberTexts(ms) + [MemberText(m)];
      WidthAppend(MemberTexts(ms), [MemberText(m)]);
    }
  }

  lemma {:induction false} SetAllWidth(ms: seq<Member>)
    ensures Width(MemberTexts(SetAll(ms))) <= Width(MemberTexts(ms))
    ensures SetAll(ms) == [] <==> ms == []
  {
    if ms != [] {
      var front, last := ms[..|ms| - 1], ms[|ms| - 1];
      SetAllWidth(front);
      PutWidth(SetAll(front), last.key, last.val);
      assert MemberTexts(ms) == MemberTexts(front) + [MemberText(last)];
      WidthAppend(MemberTexts(front), [MemberText(last)]);
      WidthOne(MemberText(last));
    }
  }

  // ---- Documents ----

  lemma BracketsAround(open: Unit, inner: Str, close: Unit)
    requires open < 0x80 && close < 0x80 && Utf8.WellFormed([open] + (inner + [close]))
    ensures Utf8.WellFormed(inner)
  {
    WellFormedAfter([open], inner + [close]);
    assert inner + [close] == inner + [close] + [];
    WellFormedBefore(inner, close, []);
  }

  /** No document is shorter than the plain text of what it stands for. */
  lemma {:induction false} DocCost(d: Doc, v: JSON)
    requires OkDoc(d) && Means(d, v) && Utf8.WellFormed(Spell(d))
    ensures |Stringify(v)| <= |Spell(d)|
    decreases d, 1
  {
    match d {
      case Word(name) =>
      case Integer(negative, digits) =>
        IntegerCost(negative, digits);
      case Text(pieces) =>
        QuoteCost(pieces, v.s);
      case List(items, blank) =>
        if items != [] {
          BracketsAround(LBRACKET, Join(SpellItems(items), COMMA), RBRACKET);
          ItemsCost(items, v.items);
          JoinWidth(SpellItems(items));
          JoinWidth(ItemTexts(v.items));
        }
      case Object(fields, blank) =>
        var ms :| MeanFields(fields, ms) && v == JObj(SetAll(ms));
        SetAllWidth(ms);
        if fields != [] {
          BracketsAround(LBRACE, Join(SpellFields(fields), COMMA), RBRACE);
          FieldsCost(fields, ms);
          JoinWidth(SpellFields(fields));
          JoinWidth(MemberTexts(SetAll(ms)));
        }
    }
  }

  lemma {:induction false} ItemCost(e: Item, v: JSON)
    requires OkItem(e) && Means(e.doc, v) && Utf8.WellFormed(SpellItem(e))
    ensures |Stringify(v)| <= |SpellItem(e)|
    decreases e, 0
  {
    BetweenBlanks(e.before, Spell(e.doc), e.after);
    DocCost(e.doc, v);
  }

  /** The first part of a well-formed list, and the others. */
  lemma ListWellFormed(first: Str, list: Str)
    requires Utf8.WellFormed(first + [COMMA] + list)
    ensures Utf8.WellFormed(first) && Utf8.WellFormed(list)
  {
    WellFormedBefore(first, COMMA, list);
  }

  lemma {:induction false} ItemsCost(items: seq<Item>, vs: seq<JSON>)
    requires OkItems(items) && MeanItems(items, vs) && Utf8.WellFormed(Join(SpellItems(items), COMMA))
    ensures Width(ItemTexts(vs)) <= Width(SpellItems(items))
    decreases items, 0
  {
    if items != [] {
      var e, more := items[0], items[1..];
      RestItems(items, vs);
      SpellFirst(e, more);
      if more != [] {
        ListWellFormed(SpellItem(e), Join(SpellItems(more), COMMA));
      }
      ItemCost(e, vs[0]);
      ItemsCost(more, vs[1..]);
      WidthFirst(e, vs[0], more, vs[1..]);
    }
  }

  lemma {:induction false} WidthFirst(e: Item, v: JSON, more: seq<Item>, vs: seq<JSON>)
    requires |Stringify(v)| <= |SpellItem(e)| && Width(ItemTexts(vs)) <= Width(SpellItems(more))
    ensures Width(ItemTexts([v] + vs)) <= Width(SpellItems([e] + more))
  {
    assert ItemTexts([v] + vs) == [Stringify(v)] + ItemTexts(vs);
    assert SpellItems([e] + more) == [SpellItem(e)] + SpellItems(more);
    WidthAppend([Stringify(v)], ItemTexts(vs));
    WidthAppend([SpellItem(e)], SpellItems(more));
    WidthOne(Stringify(v));
    WidthOne(SpellItem(e));
  }

  lemma {:induction false} FieldCost(f: Field, m: Member)
    requires OkField(f) && MeanPieces(f.name, m.key) && Means(f.item.doc, m.val) && Utf8.WellFormed(SpellField(f))
    ensures |MemberText(m)| <= |SpellField(f)|
    decreases f, 0
  {
    var name, rest := SpellString(f.name), f.middle + ([COLON] + SpellItem(f.item));
    BlankAscii(f.before);
    WellFormedAfter(f.before, name + rest);
    WellFormedName(SpellPieces(f.name), rest);
    QuoteCost(f.name, m.key);
    BlankAscii(f.middle);
    WellFormedAfter(f.middle, [COLON] + SpellItem(f.item));
    WellFormedAfter([COLON], SpellItem(f.item));
    ItemCost(f.item, m.val);
  }

  lemma WellFormedName(inner: Str, rest: Str)
    requires Utf8.WellFormed([0x22] + (inner + [0x22]) + rest)
    ensures Utf8.WellFormed([0x22] + (inner + [0x22])) && Utf8.WellFormed(rest)
  {
    assert [0x22] + (inner + [0x22]) + rest == [0x22] + (inner + [0x22] + rest);
    WellFormedAfter([0x22], inner + [0x22] + rest);
    WellFormedBefore(inner, 0x22, rest);
    WellFormedEnd(inner, 0x22);
    WellFormedAfter([0x22], inner + [0x22]);
  }

  lemma {:induction false} WellFormedEnd(s: Str, x: Unit)
    requires Utf8.WellFormed(s) && x < 0x80
    ensures Utf8.WellFormed(s + [x])
    decreases |s|
  {
    var w := s + [x];
    if s == [] {
      assert w[1..] == [];
    } else {
      CharBefore(s, x, []);
      assert s + [x] + [] == w;
      var n := Utf8.CharLen(s);
      assert w[n..] == s[n..] + [x];
      WellFormedEnd(s[n..], x);
    }
  }

  lemma {:induction false} FieldsCost(fields: seq<Field>, ms: seq<Member>)
    requires OkFields(fields) && MeanFields(fields, ms) && Utf8.WellFormed(Join(SpellFields(fields), COMMA))
    ensures Width(MemberTexts(ms)) <= Width(SpellFields(fields))
    decreases fields, 0
  {
    if fields != [] {
      var f, more := fields[0], fields[1..];
      RestFields(fields, ms);
      SpellFirstField(f, more);
      assert MemberTexts(ms)[0] == MemberText(ms[0]) && MemberTexts(ms)[1..] == MemberTexts(ms[1..]);
      if more != [] {
        ListWellFormed(SpellField(f), Join(SpellFields(more), COMMA));
      }
      FieldCost(f, ms[0]);
      FieldsCost(more, ms[1..]);
      assert SpellFields(fields)[1..] == SpellFields(more);
    }
  }

  // ---- Sorting members does not change the length ----

  function Sum(ks: seq<Str>, f: Str -> nat): (n: nat) {
    if ks == [] then 0 else f(ks[0]) + Sum(ks[1..], f)
  }

  lemma {:induction false} SumInsert(k: Str, ks: seq<Str>, f: Str -> nat)
    ensures Sum(Insert(k, ks), f) == f(k) + Sum(ks, f)
  {
    if ks == [] || !Less(ks[0], k) {
      assert ([k] + ks)[1..] == ks;
    } else {
      SumInsert(k, ks[1..], f);
      assert ([ks[0]] + Insert(k, ks[1..]))[1..] == Insert(k, ks[1..]);
    }
  }

  lemma {:induction false} SumSort(ks: seq<Str>, f: Str -> nat)
    ensures Sum(Sort(ks), f) == Sum(ks, f)
  {
    if ks != [] {
      SumSort(ks[1..], f);
      SumInsert(ks[0], Sort(ks[1..]), f);
    }
  }

  lemma {:induction false} WidthIsSum(ts: seq<Str>, ks: seq<Str>, f: Str -> nat)
    requires |ts| == |ks| && forall i | 0 <= i < |ts| :: |ts[i]| + 1 == f(ks[i])
    ensures Width(ts) == Sum(ks, f)
  {
    if ts != [] {
      WidthIsSum(ts[1..], ks[1..], f);
    }
  }

  /** What a member of that name adds to the length. */
  function MemberWidth(ms: seq<Member>): (f: Str -> nat) {
    (k: Str) => if HasKey(ms, k) then |Quote(k)| + 1 + |Stringify(ms[Find(ms, k)].val)| + 1 else 0
  }

  lemma {:induction false} SortedLength(v: JSON)
    requires Valid(v)
    ensures |JcsString(v)| == |Stringify(v)|
  {
    match v {
      case JArr(items) =>
        forall i | 0 <= i < |items| ensures |JcsItems(items)[i]| == |ItemTexts(items)[i]| {
          SortedLength(items[i]);
        }
        if items != [] {
          SameWidth(JcsItems(items), ItemTexts(items));
          JoinWidth(JcsItems(items));
          JoinWidth(ItemTexts(items));
        }
      case JObj(ms) =>
        forall i | 0 <= i < |ms| ensures |JcsString(ms[i].val)| == |Stringify(ms[i].val)| {
          SortedLength(ms[i].val);
        }
        SortedMembers(ms);
        if ms != [] {
          JoinWidth(JcsPairs(ms));
          JoinWidth(MemberTexts(ms));
        }
      case _ =>
    }
  }

  lemma {:induction false} SameWidth(a: seq<Str>, b: seq<Str>)
    requires |a| == |b| && forall i | 0 <= i < |a| :: |a[i]| == |b[i]|
    ensures Width(a) == Width(b)
  {
    if a != [] {
      SameWidth(a[1..], b[1..]);
    }
  }

  lemma {:induction false} SortedMembers(ms: seq<Member>)
    requires UniqueKeys(ms) && forall i | 0 <= i < |ms| :: |JcsString(ms[i].val)| == |Stringify(ms[i].val)|
    ensures Width(JcsPairs(ms)) == Width(MemberTexts(ms))
  {
    var f, keys := MemberWidth(ms), Sort(Keys(ms));
    SortedKeysFound(ms);
    WidthIsSum(JcsPairs(ms), keys, f);
    forall i | 0 <= i < |ms| ensures |MemberTexts(ms)[i]| + 1 == f(Keys(ms)[i]) {
      FindUnique(ms, i);
    }
    WidthIsSum(MemberTexts(ms), Keys(ms), f);
    SumSort(Keys(ms), f);
  }

  /**
   * The canonical text is a shortest one: no well-formed text that parses to the same value,
   * in any order of members, with any escapes, spaces or spelling of numbers, is shorter.
   */
  lemma {:induction false} CanonicalIsShortest(v: JSON, t: Str, w: JSON)
    requires Valid(v) && Utf8.WellFormed(t) && Parse(t) == Some(w) && Same(v, w)
    ensures |JcsString(v)| <= |t|
  {
    ParseIsGrammar(t, w);
    var before, d, after :| Stands(t, before, d, after, w);
    BetweenBlanks(before, Spell(d), after);
    DocCost(d, w);
    ParseValid(t);
    SortedLength(w);
    JcsCanon.JcsInjective(v, w);
  }

  // ---- Lower case ----

  /** A text of whole escapes in which no `\u` escape holds an upper-case digit. */
  predicate LowerEscapes(t: Str) {
    t == [] ||
    if t[0] != 0x5C then LowerEscapes(t[1..])
    else if |t| < 2 then false
    else if t[1] != 0x75 then LowerEscapes(t[2..])
    else |t| >= 6 && (forall i | 2 <= i < 6 :: !(0x41 <= t[i] <= 0x46)) && LowerEscapes(t[6..])
  }

  lemma {:induction false} LowerConcat(a: Str, b: Str)
    requires LowerEscapes(a) && LowerEscapes(b)
    ensures LowerEscapes(a + b)
    decreases |a|
  {
    if a == [] {
      assert a + b == b;
    } else {
      var n := if a[0] != 0x5C then 1 else if a[1] != 0x75 then 2 else 6;
      assert (a + b)[n..] == a[n..] + b;
      LowerConcat(a[n..], b);
      assert forall i | 0 <= i < n :: (a + b)[i] == a[i];
    }
  }

  lemma {:induction false} LowerPlain(t: Str)
    requires 0x5C !in t
    ensures LowerEscapes(t)
  {
    if t != [] {
      LowerPlain(t[1..]);
    }
  }

  lemma LowerEscapeUnit(u: Unit)
    ensures LowerEscapes(EscapeUnit(u))
  {
    var t := EscapeUnit(u);
    if t == [u] {
      LowerPlain(t);
    } else if |t| == 2 {
      assert t[2..] == [];
    } else {
      assert t[6..] == [];
    }
  }

  lemma {:induction false} LowerEscape(s: Str)
    ensures LowerEscapes(Escape(s))
    decreases |s|
  {
    if s == [] {
    } else if Utf8.StartsPair(s) {
      LowerEscape(s[2..]);
      LowerPlain([s[0], s[1]]);
      LowerConcat([s[0], s[1]], Escape(s[2..]));
    } else {
      LowerEscape(s[1..]);
      LowerEscapeUnit(s[0]);
      LowerConcat(EscapeUnit(s[0]), Escape(s[1..]));
    }
  }

  lemma LowerWrap(open: Unit, t: Str, close: Unit)
    requires open != 0x5C && close != 0x5C && LowerEscapes(t)
    ensures LowerEscapes([open] + t + [close])
  {
    LowerPlain([open]);
    LowerPlain([close]);
    LowerConcat([open], t);
    LowerConcat([open] + t, [close]);
  }

  lemma {:induction false} LowerJoin(parts: seq<Str>)
    requires forall i | 0 <= i < |parts| :: LowerEscapes(parts[i])
    ensures LowerEscapes(Join(parts, COMMA))
  {
    if |parts| > 1 {
      LowerJoin(parts[1..]);
      LowerPlain([COMMA]);
      LowerConcat(parts[0], [COMMA]);
      LowerConcat(parts[0] + [COMMA], Join(parts[1..], COMMA));
    }
  }

  lemma LowerQuote(s: Str)
    ensures LowerEscapes(Quote(s))
  {
    LowerEscape(s);
    LowerWrap(QUOTE, Escape(s), QUOTE);
  }

  lemma LowerWords()
    ensures LowerEscapes(NULL) && LowerEscapes(TRUE) && LowerEscapes(FALSE)
  {
    LowerPlain(NULL);
    LowerPlain(TRUE);
    LowerPlain(FALSE);
  }

  lemma LowerDecimal(n: int)
    ensures LowerEscapes(Decimal(n))
  {
    LowerPlain(Decimal(n));
  }

  /** No `\u` escape of a canonical text holds an upper-case digit. */
  lemma {:induction false} CanonicalIsLowerCase(v: JSON)
    ensures LowerEscapes(JcsString(v))
  {
    match v {
      case JNull =>
        LowerWords();
      case JBool(b) =>
        LowerWords();
      case JNum(n) =>
        LowerDecimal(n);
      case JStr(s) =>
        LowerQuote(s);
      case JArr(items) =>
        forall i | 0 <= i < |items| ensures LowerEscapes(JcsItems(items)[i]) {
          CanonicalIsLowerCase(items[i]);
        }
        LowerJoin(JcsItems(items));
        LowerWrap(LBRACKET, Join(JcsItems(items), COMMA), RBRACKET);
      case JObj(ms) =>
        var keys := Sort(Keys(ms));
        SortedKeysFound(ms);
        forall i | 0 <= i < |ms| ensures LowerEscapes(JcsPairs(ms)[i]) {
          var m := ms[Find(ms, keys[i])];
          CanonicalIsLowerCase(m.val);
          LowerQuote(keys[i]);
          LowerPlain([COLON]);
          LowerConcat(Quote(keys[i]), [COLON]);
          LowerConcat(Quote(keys[i]) + [COLON], JcsString(m.val));
        }
        LowerJoin(JcsPairs(ms));
        LowerWrap(LBRACE, Join(JcsPairs(ms), COMMA), RBRACE);
    }
  }
}
