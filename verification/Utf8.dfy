/**
 * UTF-8 as the two runtimes use it: `Buffer.from(s, 'utf8')` (lone surrogates become
 * U+FFFD), `buf.toString('utf8')` (each maximal ill-formed subpart becomes U+FFFD) and
 * the strict, BOM-stripping `TextDecoder('utf-8', {fatal: true})`.
 */
module Utf8 {
  import opened Text

  const REPLACEMENT: Unit := 0xFFFD
  const BOM: Bytes := [0xEF, 0xBB, 0xBF]

  predicate IsHigh(u: Unit) { 0xD800 <= u < 0xDC00 }

  predicate IsLow(u: Unit) { 0xDC00 <= u < 0xE000 }

  predicate IsSurrogate(u: Unit) { 0xD800 <= u < 0xE000 }

  // ---- The bit distribution of each encoded length ----

  function Encode2(u: int): (b: Bytes)
    requires 0x80 <= u < 0x800
  {
    [0xC0 + u / 0x40, 0x80 + u % 0x40]
  }

  function Encode3(u: int): (b: Bytes)
    requires 0x800 <= u < 0x1_0000
  {
    [0xE0 + u / 0x40 / 0x40, 0x80 + u / 0x40 % 0x40, 0x80 + u % 0x40]
  }

  function Encode4(c: int): (b: Bytes)
    requires 0x1_0000 <= c < 0x11_0000
  {
    [0xF0 + c / 0x40 / 0x40 / 0x40, 0x80 + c / 0x40 / 0x40 % 0x40, 0x80 + c / 0x40 % 0x40, 0x80 + c % 0x40]
  }

  predicate IsCont(b: int) { 0x80 <= b < 0xC0 }

  /** The second byte of a three- or four-byte form, ruling out overlong and surrogate forms. */
  predicate SecondOk(b0: int, b1: int) {
    IsCont(b1)
    && (b0 == 0xE0 ==> b1 >= 0xA0) && (b0 == 0xED ==> b1 < 0xA0)
    && (b0 == 0xF0 ==> b1 >= 0x90) && (b0 == 0xF4 ==> b1 < 0x90)
  }

  predicate Is2(b: Bytes) {
    |b| >= 2 && 0xC2 <= b[0] < 0xE0 && IsCont(b[1])
  }

  predicate Is3(b: Bytes) {
    |b| >= 3 && 0xE0 <= b[0] < 0xF0 && SecondOk(b[0], b[1]) && IsCont(b[2])
  }

  predicate Is4(b: Bytes) {
    |b| >= 4 && 0xF0 <= b[0] < 0xF5 && SecondOk(b[0], b[1]) && IsCont(b[2]) && IsCont(b[3])
  }

  function Decode2(b0: int, b1: int): int { (b0 - 0xC0) * 0x40 + (b1 - 0x80) }

  function Decode3(b0: int, b1: int, b2: int): int {
    ((b0 - 0xE0) * 0x40 + (b1 - 0x80)) * 0x40 + (b2 - 0x80)
  }

  function Decode4(b0: int, b1: int, b2: int, b3: int): int {
    (((b0 - 0xF0) * 0x40 + (b1 - 0x80)) * 0x40 + (b2 - 0x80)) * 0x40 + (b3 - 0x80)
  }

  lemma Bits2(b: Bytes)
    requires Is2(b)
    ensures var c := Decode2(b[0], b[1]); 0x80 <= c < 0x800 && Encode2(c) == b[..2]
  {
  }

  lemma Bits3(b: Bytes)
    requires Is3(b)
    ensures var c := Decode3(b[0], b[1], b[2]);
            0x800 <= c < 0x1_0000 && !(0xD800 <= c < 0xE000) && Encode3(c) == b[..3]
  {
    var c := Decode3(b[0], b[1], b[2]);
    assert c / 0x40 == (b[0] as int - 0xE0) * 0x40 + (b[1] as int - 0x80);
  }

  lemma Bits4(b: Bytes)
    requires Is4(b)
    ensures var c := Decode4(b[0], b[1], b[2], b[3]);
            0x1_0000 <= c < 0x11_0000 && Encode4(c) == b[..4]
  {
    var c := Decode4(b[0], b[1], b[2], b[3]);
    assert c / 0x40 == ((b[0] as int - 0xF0) * 0x40 + (b[1] as int - 0x80)) * 0x40 + (b[2] as int - 0x80);
  }

  lemma Unbits2(u: int)
    requires 0x80 <= u < 0x800
    ensures var e := Encode2(u); Is2(e) && Decode2(e[0], e[1]) == u
  {
  }

  lemma Unbits3(u: int)
    requires 0x800 <= u < 0x1_0000 && !(0xD800 <= u < 0xE000)
    ensures var e := Encode3(u); Is3(e) && Decode3(e[0], e[1], e[2]) == u
  {
  }

  lemma Unbits4(u: int)
    requires 0x1_0000 <= u < 0x11_0000
    ensures var e := Encode4(u); Is4(e) && Decode4(e[0], e[1], e[2], e[3]) == u
  {
  }

  // ---- Encoding ----

  predicate StartsPair(t: Str) {
    |t| > 1 && IsHigh(t[0]) && IsLow(t[1])
  }

  function CharLen(t: Str): (n: nat)
    requires t != []
    ensures 1 <= n <= |t|
  {
    if StartsPair(t) then 2 else 1
  }

  /** The text starts with a Unicode scalar value rather than a lone surrogate. */
  predicate StartsScalar(t: Str) {
    t != [] && (StartsPair(t) || !IsSurrogate(t[0]))
  }

  predicate WellFormed(t: Str) {
    t == [] || (StartsScalar(t) && WellFormed(t[CharLen(t)..]))
  }

  function FromPair(hi: int, lo: int): int { 0x1_0000 + (hi - 0xD800) * 0x400 + (lo - 0xDC00) }

  /** The UTF-8 bytes of the first character of `t`. */
  function EncodeChar(t: Str): (b: Bytes)
    requires t != []
    ensures 1 <= |b| <= 4
    ensures t[0] < 0x80 ==> b == [t[0]]
    ensures t[0] >= 0x80 ==> forall i | 0 <= i < |b| :: b[i] >= 0x80
  {
    if StartsPair(t) then Encode4(FromPair(t[0], t[1]))
    else if IsSurrogate(t[0]) then [0xEF, 0xBF, 0xBD]
    else if t[0] < 0x80 then [t[0]]
    else if t[0] < 0x800 then Encode2(t[0])
    else Encode3(t[0])
  }

  /** `Buffer.from(t, 'utf8')` */
  function Encode(t: Str): (b: Bytes) {
    if t == [] then [] else EncodeChar(t) + Encode(t[CharLen(t)..])
  }

  // ---- Decoding ----

  /** What the next `width` bytes stand for. */
  datatype Step = Step(valid: bool, units: Str, width: nat)

  function Bad(width: nat): Step { Step(false, [REPLACEMENT], width) }

  /** The first character, or U+FFFD for the maximal ill-formed subpart at the front. */
  function DecodeChar(b: Bytes): (s: Step)
    requires b != []
    ensures 1 <= s.width <= |b| && s.width <= 4
    ensures 1 <= |s.units| <= 2
    ensures b[0] < 0x80 ==> s == Step(true, [b[0]], 1)
    ensures b[0] >= 0x80 ==> forall i | 0 <= i < |s.units| :: s.units[i] >= 0x80
    ensures forall i | 1 <= i < s.width :: b[i] >= 0x80
  {
    if b[0] < 0x80 then Step(true, [b[0]], 1)
    else if Is2(b) then Bits2(b); Step(true, [Decode2(b[0], b[1])], 2)
    else if Is3(b) then Bits3(b); Step(true, [Decode3(b[0], b[1], b[2])], 3)
    else if Is4(b) then
      Bits4(b);
      var c := Decode4(b[0], b[1], b[2], b[3]) - 0x1_0000;
      Step(true, [0xD800 + c / 0x400, 0xDC00 + c % 0x400], 4)
    else if |b| >= 2 && 0xE0 <= b[0] < 0xF5 && SecondOk(b[0], b[1]) then
      if |b| >= 3 && b[0] >= 0xF0 && IsCont(b[2]) then Bad(3) else Bad(2)
    else Bad(1)
  }

  /** `b.toString('utf8')` */
  function ToText(b: Bytes): (t: Str) {
    if b == [] then [] else DecodeChar(b).units + ToText(b[DecodeChar(b).width..])
  }

  predicate IsValid(b: Bytes) {
    b == [] || (DecodeChar(b).valid && IsValid(b[DecodeChar(b).width..]))
  }

  /** `new TextDecoder('utf-8', { fatal: true }).decode(b)`, which drops one leading BOM. */
  function StrictDecode(b: Bytes): (r: Option<Str>) {
    if !IsValid(b) then None
    else if BOM <= b then Some(ToText(b[3..]))
    else Some(ToText(b))
  }

  // ---- One character, both ways ----

  lemma DecodeEncodedPair(t: Str, rest: Bytes)
    requires StartsPair(t)
    ensures DecodeChar(EncodeChar(t) + rest) == Step(true, [t[0], t[1]], 4)
  {
    var c := FromPair(t[0], t[1]);
    Unbits4(c);
    var b := EncodeChar(t) + rest;
    assert b[0] == Encode4(c)[0] && b[1] == Encode4(c)[1] && b[2] == Encode4(c)[2] && b[3] == Encode4(c)[3];
    assert Is4(b) && Decode4(b[0], b[1], b[2], b[3]) == c;
  }

  lemma DecodeEncodedUnit(t: Str, rest: Bytes)
    requires t != [] && !IsSurrogate(t[0])
    ensures DecodeChar(EncodeChar(t) + rest) == Step(true, [t[0]], |EncodeChar(t)|)
  {
    var e := EncodeChar(t);
    var b := e + rest;
    assert forall i | 0 <= i < |e| :: b[i] == e[i];
    if t[0] < 0x80 {
    } else if t[0] < 0x800 {
      Unbits2(t[0]);
    } else {
      Unbits3(t[0]);
      assert Is3(b) && Decode3(b[0], b[1], b[2]) == t[0];
    }
  }

  lemma DecodeEncodedChar(t: Str, rest: Bytes)
    requires StartsScalar(t)
    ensures DecodeChar(EncodeChar(t) + rest) == Step(true, t[..CharLen(t)], |EncodeChar(t)|)
  {
    if StartsPair(t) {
      DecodeEncodedPair(t, rest);
      assert t[..2] == [t[0], t[1]];
    } else {
      DecodeEncodedUnit(t, rest);
      assert t[..1] == [t[0]];
    }
  }

  lemma EncodeDecodedChar(b: Bytes, rest: Str)
    requires b != [] && DecodeChar(b).valid
    ensures var t := DecodeChar(b).units + rest;
            && StartsScalar(t) && CharLen(t) == |DecodeChar(b).units|
            && EncodeChar(t) == b[..DecodeChar(b).width]
  {
    var s := DecodeChar(b);
    var t := s.units + rest;
    assert forall i | 0 <= i < |s.units| :: t[i] == s.units[i];
    if b[0] < 0x80 {
    } else if Is2(b) {
      Bits2(b);
    } else if Is3(b) {
      Bits3(b);
    } else {
      Bits4(b);
      assert FromPair(t[0], t[1]) == Decode4(b[0], b[1], b[2], b[3]);
    }
  }

  // ---- Whole texts ----

  lemma EncodeStep(units: Str, rest: Str)
    requires units != [] && CharLen(units + rest) == |units|
    ensures var t := units + rest;
            && Encode(t) == EncodeChar(t) + Encode(rest)
            && (WellFormed(t) <==> StartsScalar(t) && WellFormed(rest))
  {
    assert (units + rest)[|units|..] == rest;
  }

  lemma DecodeStep(first: Bytes, rest: Bytes)
    requires first != [] && DecodeChar(first + rest).width == |first|
    ensures var b := first + rest;
            && ToText(b) == DecodeChar(b).units + ToText(rest)
            && (IsValid(b) <==> DecodeChar(b).valid && IsValid(rest))
  {
    assert (first + rest)[|first|..] == rest;
  }

  lemma DecodeFirst(t: Str, rest: Bytes)
    requires StartsScalar(t)
    ensures var b := EncodeChar(t) + rest;
            && ToText(b) == t[..CharLen(t)] + ToText(rest)
            && (IsValid(b) <==> IsValid(rest))
    ensures t == t[..CharLen(t)] + t[CharLen(t)..]
  {
    DecodeEncodedChar(t, rest);
    DecodeStep(EncodeChar(t), rest);
  }

  /** Decoding undoes encoding exactly on the well-formed texts. */
  lemma {:induction false} DecodeEncode(t: Str)
    requires WellFormed(t)
    ensures IsValid(Encode(t)) && ToText(Encode(t)) == t
  {
    if t != [] {
      DecodeEncode(t[CharLen(t)..]);
      DecodeFirst(t, Encode(t[CharLen(t)..]));
    }
  }

  /** An ill-formed subpart is replaced by something whose encoding it does not start with. */
  lemma ReplacedChar(b: Bytes, rest: Str)
    requires b != [] && !DecodeChar(b).valid
    ensures var t := DecodeChar(b).units + rest;
            && StartsScalar(t) && CharLen(t) == 1 && EncodeChar(t) == [0xEF, 0xBF, 0xBD]
            && !(EncodeChar(t) <= b)
  {
  }

  lemma EncodeValidFirst(b: Bytes, rest: Str)
    requires b != [] && DecodeChar(b).valid
    ensures var t := DecodeChar(b).units + rest;
            && Encode(t) == b[..DecodeChar(b).width] + Encode(rest)
            && (WellFormed(t) <==> WellFormed(rest))
  {
    EncodeDecodedChar(b, rest);
    EncodeStep(DecodeChar(b).units, rest);
  }

  lemma EncodeReplaced(b: Bytes, rest: Str)
    requires b != [] && !DecodeChar(b).valid
    ensures var t := DecodeChar(b).units + rest;
            Encode(t) != b && (WellFormed(t) <==> WellFormed(rest))
  {
    ReplacedChar(b, rest);
    EncodeStep(DecodeChar(b).units, rest);
    NotPrefix(EncodeChar(DecodeChar(b).units + rest), Encode(rest), b);
  }

  /** Encoding undoes decoding exactly on the valid byte sequences. */
  lemma {:induction false} EncodeDecode(b: Bytes)
    ensures WellFormed(ToText(b))
    ensures IsValid(b) <==> Encode(ToText(b)) == b
  {
    if b != [] {
      var n := DecodeChar(b).width;
      var rest := ToText(b[n..]);
      EncodeDecode(b[n..]);
      if DecodeChar(b).valid {
        EncodeValidFirst(b, rest);
        ConcatSame(b, n, Encode(rest));
      } else {
        EncodeReplaced(b, rest);
      }
    }
  }

  lemma NotPrefix(a: Bytes, c: Bytes, b: Bytes)
    requires !(a <= b)
    ensures a + c != b
  {
    assert a <= a + c;
  }

  lemma ConcatSame(b: Bytes, n: nat, c: Bytes)
    requires n <= |b|
    ensures b[..n] + c == b <==> c == b[n..]
  {
    assert b == b[..n] + b[n..];
    assert (b[..n] + c)[n..] == c;
  }

  // ---- ASCII delimiters ----

  /** An ASCII byte ends any unfinished character before it. */
  lemma DecodeCharBeforeAscii(a: Bytes, x: Byte, b: Bytes)
    requires a != [] && x < 0x80
    ensures DecodeChar(a + [x] + b) == DecodeChar(a)
  {
    var w := a + [x] + b;
    assert forall i | 0 <= i < |a| :: w[i] == a[i];
    assert w[|a|] == x;
  }

  /** Decoding, even of ill-formed input, commutes with cutting at an ASCII byte, and so does validity. */
  lemma {:induction false} ToTextAscii(a: Bytes, x: Byte, b: Bytes)
    requires x < 0x80
    ensures ToText(a + [x] + b) == ToText(a) + [x] + ToText(b)
    ensures IsValid(a + [x] + b) <==> IsValid(a) && IsValid(b)
  {
    if a == [] {
      assert [] + [x] + b == [x] + b;
      DecodeStep([x], b);
      assert [] + [x] + ToText(b) == [x] + ToText(b);
    } else {
      var n := DecodeChar(a).width;
      DecodeCharBeforeAscii(a, x, b);
      assert a == a[..n] + a[n..];
      Regroup(a[..n], a[n..], [x], b);
      DecodeStep(a[..n], a[n..] + [x] + b);
      ToTextAscii(a[n..], x, b);
      Regroup(DecodeChar(a).units, ToText(a[n..]), [x], ToText(b));
    }
  }

  lemma ValidAfterAscii(b: Bytes)
    requires b != [] && b[0] < 0x80
    ensures IsValid(b) <==> IsValid(b[1..])
  {
  }

  lemma CharLacks(b: Bytes, x: Byte)
    requires b != [] && x < 0x80
    ensures x in DecodeChar(b).units <==> x in b[..DecodeChar(b).width]
  {
  }

  /** Text without some ASCII unit comes exactly from bytes without it. */
  lemma {:induction false} ToTextLacks(b: Bytes, x: Byte)
    requires x < 0x80
    ensures x in ToText(b) <==> x in b
  {
    if b != [] {
      var n := DecodeChar(b).width;
      CharLacks(b, x);
      ToTextLacks(b[n..], x);
      assert b == b[..n] + b[n..];
    }
  }

  // ---- What is replaced ----

  /** Encoding and decoding a text changes its lone surrogates to U+FFFD and nothing else. */
  function Mended(t: Str): (m: Str)
    ensures |m| == |t|
  {
    if t == [] then []
    else if StartsPair(t) then [t[0], t[1]] + Mended(t[2..])
    else [if IsSurrogate(t[0]) then 0xFFFD else t[0]] + Mended(t[1..])
  }

  lemma EncodeLone(t: Str)
    requires t != [] && !StartsScalar(t)
    ensures EncodeChar(t) == EncodeChar([0xFFFD])
  {
  }

  lemma {:induction false} EncodeMends(t: Str)
    ensures ToText(Encode(t)) == Mended(t)
    ensures WellFormed(t) ==> Mended(t) == t
  {
    if t != [] {
      var n := CharLen(t);
      var rest := Encode(t[n..]);
      EncodeMends(t[n..]);
      if StartsScalar(t) {
        DecodeFirst(t, rest);
      } else {
        EncodeLone(t);
        DecodeFirst([0xFFFD], rest);
      }
    }
  }

  /** The bytes can be completed to one character. */
  ghost predicate Completable(p: Bytes) {
    exists more: Bytes :: more != [] && DecodeChar(p + more).valid && DecodeChar(p + more).width == |p + more|
  }

  lemma CompleteOne(p: Bytes)
    requires |p| == 2 && 0xE0 <= p[0] < 0xF0 && SecondOk(p[0], p[1])
    ensures Completable(p)
  {
    var w := p + [0x80];
    assert Is3(w) && DecodeChar(w).valid && DecodeChar(w).width == |w|;
  }

  lemma CompleteTwo(p: Bytes)
    requires (|p| == 2 || |p| == 3) && 0xF0 <= p[0] < 0xF5 && SecondOk(p[0], p[1]) && (|p| == 3 ==> IsCont(p[2]))
    ensures Completable(p)
  {
    var more: Bytes := if |p| == 2 then [0x80, 0x80] else [0x80];
    var w := p + more;
    assert Is4(w) && DecodeChar(w).valid && DecodeChar(w).width == |w|;
  }

  lemma CompletableFront(b: Bytes, m: nat)
    requires 0 < m <= |b| && Completable(b[..m])
    ensures m < 4 && b[0] >= 0xC2 && b[0] < 0xF5
    ensures m > 1 ==> b[0] >= 0xE0 && SecondOk(b[0], b[1])
    ensures m > 2 ==> b[0] >= 0xF0 && IsCont(b[2])
  {
    var p := b[..m];
    var more: Bytes :| more != [] && DecodeChar(p + more).valid && DecodeChar(p + more).width == |p + more|;
    var w := p + more;
    assert forall i | 0 <= i < m :: w[i] == b[i];
  }

  /**
   * Ill-formed input is replaced by one U+FFFD for each maximal subpart: the longest front that
   * could still have become a character, or else one byte.
   */
  lemma MaximalSubpart(b: Bytes)
    requires b != [] && !DecodeChar(b).valid
    ensures var n := DecodeChar(b).width;
            && DecodeChar(b).units == [0xFFFD]
            && (n > 1 ==> Completable(b[..n]))
            && forall m | n < m <= |b| :: !Completable(b[..m])
  {
    var n := DecodeChar(b).width;
    if n > 1 {
      var p := b[..n];
      if b[0] < 0xF0 {
        CompleteOne(p);
      } else {
        CompleteTwo(p);
      }
    }
    forall m | n < m <= |b| ensures !Completable(b[..m]) {
      if Completable(b[..m]) {
        CompletableFront(b, m);
        assert false;
      }
    }
  }

  /** Valid bytes are the encoding of one well-formed text. */
  lemma ValidIsEncoding(b: Bytes, t: Str)
    ensures IsValid(b) && ToText(b) == t <==> WellFormed(t) && b == Encode(t)
  {
    EncodeDecode(b);
    if WellFormed(t) {
      DecodeEncode(t);
    }
  }

  lemma AfterBom(b: Bytes, rest: Bytes)
    requires b == [0xEF, 0xBB, 0xBF] + rest
    ensures IsValid(b) <==> IsValid(rest)
    ensures BOM <= b && b[3..] == rest
  {
    DecodeStep([0xEF, 0xBB, 0xBF], rest);
  }

  /** The strict decoder fails exactly on ill-formed input, and drops one leading BOM. */
  lemma StrictDecodeExact(b: Bytes, t: Str)
    ensures StrictDecode(b) == Some(t) <==>
            WellFormed(t) && (b == [0xEF, 0xBB, 0xBF] + Encode(t) || (b == Encode(t) && !([0xEF, 0xBB, 0xBF] <= b)))
  {
    if [0xEF, 0xBB, 0xBF] <= b {
      var rest := b[3..];
      assert b == [0xEF, 0xBB, 0xBF] + rest;
      AfterBom(b, rest);
      ValidIsEncoding(rest, t);
      SameAfter([0xEF, 0xBB, 0xBF], rest, Encode(t));
    } else {
      ValidIsEncoding(b, t);
      assert b != [0xEF, 0xBB, 0xBF] + Encode(t);
    }
  }

  lemma SameAfter(front: Bytes, a: Bytes, b: Bytes)
    ensures front + a == front + b <==> a == b
  {
    assert (front + a)[|front|..] == a && (front + b)[|front|..] == b;
  }
}
