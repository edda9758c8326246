/** The canonical form as bytes, and the receipt verifier's canonical-bytes check. */
module JcsOctets {
  import opened Text
  import opened Json
  import opened JsonParse
  import opened Jcs
  import JcsRoundTrip
  import JcsCanon
  import Utf8

  // ---- Canonical text holds no lone surrogate and no control character ----

  predicate Printable(t: Str) {
    Utf8.WellFormed(t) && forall i | 0 <= i < |t| :: t[i] >= 0x20
  }

  lemma {:induction false} WellFormedConcat(a: Str, b: Str)
    requires Utf8.WellFormed(a) && Utf8.WellFormed(b)
    ensures Utf8.WellFormed(a + b)
  {
    if a == [] {
      assert a + b == b;
    } else {
      var n := Utf8.CharLen(a);
      assert Utf8.CharLen(a + b) == n;
      assert (a + b)[n..] == a[n..] + b;
      WellFormedConcat(a[n..], b);
    }
  }

  lemma PrintableConcat(a: Str, b: Str)
    requires Printable(a) && Printable(b)
    ensures Printable(a + b)
  {
    WellFormedConcat(a, b);
  }

  lemma PrintableUnit(u: Unit)
    requires u >= 0x20 && !Utf8.IsSurrogate(u)
    ensures Printable([u])
  {
  }

  lemma {:induction false} PrintableAscii(t: Str)
    requires forall i | 0 <= i < |t| :: 0x20 <= t[i] < 0x80
    ensures Printable(t)
  {
    if t != [] {
      PrintableAscii(t[1..]);
      PrintableUnit(t[0]);
      PrintableConcat([t[0]], t[1..]);
      assert [t[0]] + t[1..] == t;
    }
  }

  lemma {:induction false} PrintableJoin(parts: seq<Str>, sep: Unit)
    requires Printable([sep]) && forall i | 0 <= i < |parts| :: Printable(parts[i])
    ensures Printable(Join(parts, sep))
  {
    if |parts| > 1 {
      PrintableJoin(parts[1..], sep);
      PrintableConcat(parts[0], [sep]);
      PrintableConcat(parts[0] + [sep], Join(parts[1..], sep));
    }
  }

  lemma PrintableEscapeUnit(u: Unit)
    ensures Printable(EscapeUnit(u))
  {
    if EscapeUnit(u) == [u] {
      PrintableUnit(u);
    } else {
      PrintableAscii(EscapeUnit(u));
    }
  }

  lemma {:induction false} PrintableEscape(s: Str)
    ensures Printable(Escape(s))
    decreases |s|
  {
    if s == [] {
    } else if Utf8.StartsPair(s) {
      PrintableEscape(s[2..]);
      assert [s[0], s[1]][2..] == [];
      PrintableConcat([s[0], s[1]], Escape(s[2..]));
    } else {
      PrintableEscape(s[1..]);
      PrintableEscapeUnit(s[0]);
      PrintableConcat(EscapeUnit(s[0]), Escape(s[1..]));
    }
  }

  lemma PrintableWrap(open: Unit, t: Str, close: Unit)
    requires 0x20 <= open < 0x80 && 0x20 <= close < 0x80 && Printable(t)
    ensures Printable([open] + t + [close])
  {
    PrintableAscii([open]);
    PrintableAscii([close]);
    PrintableConcat([open], t);
    PrintableConcat([open] + t, [close]);
  }

  lemma PrintableQuote(s: Str)
    ensures Printable(Quote(s))
  {
    PrintableEscape(s);
    PrintableWrap(QUOTE, Escape(s), QUOTE);
  }

  lemma {:induction false} StringifyPrintable(v: JSON)
    ensures Printable(Stringify(v))
  {
    PrintableAscii([COMMA]);
    PrintableAscii([COLON]);
    match v {
      case JStr(s) =>
        PrintableQuote(s);
      case JArr(items) =>
        forall i | 0 <= i < |items| ensures Printable(ItemTexts(items)[i]) {
          StringifyPrintable(items[i]);
        }
        PrintableJoin(ItemTexts(items), COMMA);
        PrintableWrap(LBRACKET, Join(ItemTexts(items), COMMA), RBRACKET);
      case JObj(ms) =>
        forall i | 0 <= i < |ms| ensures Printable(MemberTexts(ms)[i]) {
          StringifyPrintable(ms[i].val);
          PrintableQuote(ms[i].key);
          PrintableConcat(Quote(ms[i].key), [COLON]);
          PrintableConcat(Quote(ms[i].key) + [COLON], Stringify(ms[i].val));
        }
        PrintableJoin(MemberTexts(ms), COMMA);
        PrintableWrap(LBRACE, Join(MemberTexts(ms), COMMA), RBRACE);
      case _ =>
        PrintableAscii(Stringify(v));
    }
  }

  // ---- Bytes ----

  /** Canonical bytes decode strictly to the canonical text; they hold no control byte. */
  lemma JcsBytesDecode(v: JSON)
    ensures Utf8.StrictDecode(JcsBytes(v)) == Some(JcsString(v))
    ensures Utf8.ToText(JcsBytes(v)) == JcsString(v)
    ensures JcsBytes(v) != [] && forall x: Byte | x < 0x20 :: x !in JcsBytes(v)
  {
    JcsCanon.JcsIsStringify(v);
    StringifyPrintable(Canon(v));
    Utf8.DecodeEncode(JcsString(v));
    JcsRoundTrip.FirstUnit(Canon(v));
    assert JcsBytes(v)[0] < 0x80;
    forall x: Byte | x < 0x20 ensures x !in JcsBytes(v) {
      Utf8.ToTextLacks(JcsBytes(v), x);
    }
  }

  /** The canonical bytes determine the value up to member order, and nothing finer. */
  lemma JcsBytesInjective(v: JSON, w: JSON)
    requires Valid(v) && Valid(w)
    ensures JcsBytes(v) == JcsBytes(w) <==> Same(v, w)
  {
    JcsBytesDecode(v);
    JcsBytesDecode(w);
    JcsCanon.JcsInjective(v, w);
  }

  /** The object that bytes strictly decode and parse to. */
  function DecodeObject(b: Bytes): (r: Option<seq<Member>>) {
    match Utf8.StrictDecode(b)
    case None => None
    case Some(t) => ParseObject(t)
  }

  /** The verifier's canonical-bytes check: what was transmitted is what re-canonicalising gives. */
  predicate IsCanonicalObject(b: Bytes) {
    match DecodeObject(b)
    case None => false
    case Some(ms) => JcsBytes(JObj(ms)) == b
  }

  lemma JcsBytesReparse(ms: seq<Member>)
    requires ValidMembers(ms)
    ensures DecodeObject(JcsBytes(JObj(ms))) == Some(JcsCanon.CanonMembers(ms))
    ensures IsCanonicalObject(JcsBytes(JObj(ms)))
  {
    var v := JObj(ms);
    JcsBytesDecode(v);
    JcsCanon.JcsRoundTrips(v, []);
    JcsCanon.CanonIdempotent(v);
    assert Canon(v) == JObj(JcsCanon.CanonMembers(ms));
  }

  /** The check accepts exactly the image of the printer on objects. */
  lemma CanonicalCheckIsImage(b: Bytes)
    ensures IsCanonicalObject(b) <==> exists ms :: ValidMembers(ms) && JcsBytes(JObj(ms)) == b
  {
    if IsCanonicalObject(b) {
      var ms := DecodeObject(b).value;
      ParseValid(Utf8.StrictDecode(b).value);
      assert ValidMembers(ms) && JcsBytes(JObj(ms)) == b;
    }
    if ms :| ValidMembers(ms) && JcsBytes(JObj(ms)) == b {
      JcsBytesReparse(ms);
    }
  }

  /** Each receipt value, up to member order, has one acceptable byte string. */
  lemma OneEncoding(a: Bytes, b: Bytes)
    requires IsCanonicalObject(a) && IsCanonicalObject(b)
    ensures a == b <==> Same(JObj(DecodeObject(a).value), JObj(DecodeObject(b).value))
  {
    ParseValid(Utf8.StrictDecode(a).value);
    ParseValid(Utf8.StrictDecode(b).value);
    JcsBytesInjective(JObj(DecodeObject(a).value), JObj(DecodeObject(b).value));
  }
}
