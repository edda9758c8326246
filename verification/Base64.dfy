/**
 * Base64 (RFC 4648): the unpadded URL-safe form of sections 4 and 5 that every segment
 * and hash string uses, Node's lenient decoder, and the two guards put around it.
 */
module Base64 {
  import opened Text

  datatype Alphabet = Standard | Url

  type Sextet = d: int | 0 <= d < 64

  const PAD: Unit := 0x3D

  function Digit(a: Alphabet, d: Sextet): (c: Unit)
    ensures c != PAD && c != DOT
  {
    if d < 26 then 0x41 + d
    else if d < 52 then 0x61 + (d - 26)
    else if d < 62 then 0x30 + (d - 52)
    else match a
      case Standard => if d == 62 then 0x2B else 0x2F
      case Url => if d == 62 then 0x2D else 0x5F
  }

  /** Node's decoder takes the characters of either alphabet. */
  function Value(c: Unit): (v: Option<Sextet>) {
    if 0x41 <= c <= 0x5A then Some(c - 0x41)
    else if 0x61 <= c <= 0x7A then Some(c - 0x61 + 26)
    else if 0x30 <= c <= 0x39 then Some(c - 0x30 + 52)
    else if c == 0x2B || c == 0x2D then Some(62)
    else if c == 0x2F || c == 0x5F then Some(63)
    else None
  }

  function ToSextets(b: Bytes): (x: seq<Sextet>)
    ensures |x| == (4 * |b| + 2) / 3
  {
    if |b| == 0 then []
    else if |b| == 1 then [b[0] / 4, b[0] % 4 * 16]
    else if |b| == 2 then [b[0] / 4, b[0] % 4 * 16 + b[1] / 16, b[1] % 16 * 4]
    else [b[0] / 4, b[0] % 4 * 16 + b[1] / 16, b[1] % 16 * 4 + b[2] / 64, b[2] % 64] + ToSextets(b[3..])
  }

  function Byte0(w: int, x: int): (b: int) { w * 4 + x / 16 }

  function Byte1(x: int, y: int): (b: int) { x % 16 * 16 + y / 4 }

  function Byte2(y: int, z: int): (b: int) { y % 4 * 64 + z }

  /** Leftover bits that do not fill a byte are dropped. */
  function FromSextets(x: seq<Sextet>): (b: Bytes) {
    if |x| < 2 then []
    else if |x| == 2 then [Byte0(x[0], x[1])]
    else if |x| == 3 then [Byte0(x[0], x[1]), Byte1(x[1], x[2])]
    else [Byte0(x[0], x[1]), Byte1(x[1], x[2]), Byte2(x[2], x[3])] + FromSextets(x[4..])
  }

  function Digits(a: Alphabet, x: seq<Sextet>): (s: Str)
    ensures |s| == |x|
    ensures PAD !in s && DOT !in s
  {
    if x == [] then [] else [Digit(a, x[0])] + Digits(a, x[1..])
  }

  /** Up to the first `=`; a character of neither alphabet is skipped. */
  function Values(s: Str): (x: seq<Sextet>) {
    if s == [] || s[0] == PAD then []
    else match Value(s[0])
      case Some(d) => [d] + Values(s[1..])
      case None => Values(s[1..])
  }

  /** Unpadded base64; `buf.toString('base64url')` when `a` is `Url`. */
  function Encode(a: Alphabet, b: Bytes): (s: Str)
    ensures PAD !in s && DOT !in s
  {
    Digits(a, ToSextets(b))
  }

  /** `Buffer.from(s, 'base64')`, and `'base64url'`, which Node decodes alike. */
  function LenientDecode(s: Str): (b: Bytes) {
    FromSextets(Values(s))
  }

  /** `/^[A-Za-z0-9\-_]*$/` */
  predicate IsUrlText(s: Str) {
    forall i | 0 <= i < |s| :: Value(s[i]).Some? && s[i] != 0x2B && s[i] != 0x2F
  }

  /** `b64urlDecode` of the verifier. */
  function UrlDecode(s: Str): (r: Option<Bytes>) {
    if IsUrlText(s) then Some(LenientDecode(s)) else None
  }

  /** `s.replace(/=+$/, '')` */
  function StripPad(s: Str): (r: Str)
    ensures r <= s
  {
    if s != [] && s[|s| - 1] == PAD then StripPad(s[..|s| - 1]) else s
  }

  function Padding(n: nat): (s: Str)
    ensures |s| == n
  {
    seq(n, _ => PAD)
  }

  /** `buf.toString('base64')` */
  function EncodePadded(b: Bytes): (s: Str) {
    Encode(Standard, b) + Padding((3 - |b| % 3) % 3)
  }

  /** `decodeFlexibleBase64` of the signer: decode, re-encode, compare up to padding. */
  function FlexibleDecode(s: Str): (r: Option<Bytes>) {
    var b := LenientDecode(s);
    if StripPad(EncodePadded(b)) != StripPad(s) then None else Some(b)
  }

  // ---- Round trips ----

  lemma GroupRoundTrip(b0: int, b1: int, b2: int)
    requires 0 <= b0 < 256 && 0 <= b1 < 256 && 0 <= b2 < 256
    ensures Byte0(b0 / 4, b0 % 4 * 16 + b1 / 16) == b0
    ensures Byte1(b0 % 4 * 16 + b1 / 16, b1 % 16 * 4 + b2 / 64) == b1
    ensures Byte2(b1 % 16 * 4 + b2 / 64, b2 % 64) == b2
  {
  }

  lemma {:induction false} SextetsRoundTrip(b: Bytes)
    ensures FromSextets(ToSextets(b)) == b
  {
    if |b| == 1 {
      GroupRoundTrip(b[0], 0, 0);
    } else if |b| == 2 {
      GroupRoundTrip(b[0], b[1], 0);
    } else if |b| >= 3 {
      GroupRoundTrip(b[0], b[1], b[2]);
      SextetsRoundTrip(b[3..]);
      assert ToSextets(b)[4..] == ToSextets(b[3..]);
      assert b == [b[0], b[1], b[2]] + b[3..];
    }
  }

  lemma {:induction false} ValuesDigits(a: Alphabet, x: seq<Sextet>)
    ensures Values(Digits(a, x)) == x
    ensures a == Url ==> IsUrlText(Digits(a, x))
  {
    if x != [] {
      ValuesDigits(a, x[1..]);
      assert Digits(a, x)[1..] == Digits(a, x[1..]);
    }
  }

  /** Decoding undoes encoding in either alphabet, and the encoding passes the verifier's guard. */
  lemma DecodeEncode(a: Alphabet, b: Bytes)
    ensures LenientDecode(Encode(a, b)) == b
    ensures UrlDecode(Encode(Url, b)) == Some(b)
    ensures |Encode(a, b)| == (4 * |b| + 2) / 3
  {
    ValuesDigits(a, ToSextets(b));
    ValuesDigits(Url, ToSextets(b));
    SextetsRoundTrip(b);
  }

  lemma EncodeInjective(a: Alphabet, b: Bytes, c: Bytes)
    ensures Encode(a, b) == Encode(a, c) <==> b == c
  {
    DecodeEncode(a, b);
    DecodeEncode(a, c);
  }

  // ---- The re-encoding guard ----

  lemma {:induction false} StripPadding(s: Str, n: nat)
    requires PAD !in s
    ensures StripPad(s + Padding(n)) == s
  {
    var t := s + Padding(n);
    if n == 0 {
      assert t == s;
    } else {
      assert t[..|t| - 1] == s + Padding(n - 1);
      StripPadding(s, n - 1);
    }
  }

  lemma {:induction false} ValuesIgnorePad(s: Str)
    ensures Values(StripPad(s)) == Values(s)
  {
    if s != [] && s[|s| - 1] == PAD {
      ValuesIgnorePad(s[..|s| - 1]);
      ValuesDropLast(s);
    }
  }

  lemma {:induction false} ValuesDropLast(s: Str)
    requires s != [] && s[|s| - 1] == PAD
    ensures Values(s) == Values(s[..|s| - 1])
  {
    if |s| > 1 {
      ValuesDropLast(s[1..]);
      assert s[1..][..|s| - 2] == s[..|s| - 1][1..];
    }
  }

  /** The text is the canonical standard encoding of the bytes and any number of `=`. */
  ghost predicate Spells(s: Str, b: Bytes) {
    exists n: nat :: s == Encode(Standard, b) + Equals(n)
  }

  function Equals(n: nat): (s: Str) {
    if n == 0 then [] else Equals(n - 1) + ['=' as int]
  }

  lemma {:induction false} EqualsIsPadding(n: nat)
    ensures Equals(n) == Padding(n)
  {
    if n > 0 {
      EqualsIsPadding(n - 1);
    }
  }

  lemma {:induction false} StrippedEquals(s: Str) returns (n: nat)
    ensures s == StripPad(s) + Equals(n)
  {
    n := 0;
    if s != [] && s[|s| - 1] == PAD {
      var m := StrippedEquals(s[..|s| - 1]);
      n := m + 1;
      assert s == s[..|s| - 1] + [PAD];
      Assoc(StripPad(s), Equals(m), [PAD]);
    }
  }

  lemma SpellsIsStripped(s: Str, b: Bytes)
    ensures Spells(s, b) <==> StripPad(s) == Encode(Standard, b)
  {
    if n: nat :| s == Encode(Standard, b) + Equals(n) {
      EqualsIsPadding(n);
      StripPadding(Encode(Standard, b), n);
    }
    if StripPad(s) == Encode(Standard, b) {
      var n := StrippedEquals(s);
    }
  }

  /** The guard accepts exactly the canonical encodings, whatever padding follows them. */
  lemma FlexibleExact(s: Str, b: Bytes)
    ensures FlexibleDecode(s) == Some(b) <==> Spells(s, b)
  {
    SpellsIsStripped(s, b);
    var d := LenientDecode(s);
    StripPadding(Encode(Standard, d), (3 - |d| % 3) % 3);
    assert StripPad(EncodePadded(d)) == Encode(Standard, d);
    if StripPad(s) == Encode(Standard, b) {
      calc {
        d;
        { ValuesIgnorePad(s); }
        LenientDecode(Encode(Standard, b));
        { DecodeEncode(Standard, b); }
        b;
      }
    }
  }

  // ---- What RFC 4648 says of it ----

  /** Tables 1 and 2. */
  lemma DigitTable(a: Alphabet, d: Sextet)
    ensures d < 26 ==> Digit(a, d) == 'A' as int + d
    ensures 26 <= d < 52 ==> Digit(a, d) == 'a' as int + (d - 26)
    ensures 52 <= d < 62 ==> Digit(a, d) == '0' as int + (d - 52)
    ensures d == 62 ==> Digit(a, d) == if a == Standard then '+' as int else '-' as int
    ensures d == 63 ==> Digit(a, d) == if a == Standard then '/' as int else '_' as int
  {
  }

  /** `[A-Za-z0-9\-_]` */
  predicate IsUrlChar(c: Unit) {
    || 'A' as int <= c <= 'Z' as int
    || 'a' as int <= c <= 'z' as int
    || '0' as int <= c <= '9' as int
    || c == '-' as int || c == '_' as int
  }

  /** The verifier's guard lets the URL alphabet through and nothing else. */
  lemma UrlTextIsAlphabet(s: Str)
    ensures IsUrlText(s) <==> forall i | 0 <= i < |s| :: IsUrlChar(s[i])
  {
    forall i | 0 <= i < |s| ensures IsUrlChar(s[i]) <==> Value(s[i]).Some? && s[i] != 0x2B && s[i] != 0x2F {
    }
  }

  /** The lenient decoder skips a character of neither alphabet and stops at the first `=`. */
  lemma LenientSkips(a: Str, c: Unit, b: Str)
    requires !IsUrlChar(c) && c != '+' as int && c != '/' as int
    ensures LenientDecode(a + [c] + b) == LenientDecode(a + if c == '=' as int then [] else b)
  {
    ValuesSkip(a, c, b);
  }

  lemma {:induction false} ValuesSkip(a: Str, c: Unit, b: Str)
    requires Value(c) == None
    ensures Values(a + [c] + b) == Values(a + if c == PAD then [] else b)
  {
    var rest := if c == PAD then [] else b;
    if a == [] {
      assert a + [c] + b == [c] + b && ([c] + b)[1..] == b && a + rest == rest;
    } else {
      assert (a + [c] + b)[1..] == a[1..] + [c] + b && (a + rest)[1..] == a[1..] + rest;
      ValuesSkip(a[1..], c, b);
    }
  }

  lemma {:induction false} DigitsAt(a: Alphabet, x: seq<Sextet>, i: nat)
    requires i < |x|
    ensures Digits(a, x)[i] == Digit(a, x[i])
  {
    if i > 0 {
      DigitsAt(a, x[1..], i - 1);
    }
  }

  function FromBytes(b0: int, b1: int, b2: int): (n: int) { (b0 * 256 + b1) * 256 + b2 }

  function FromDigits(x0: int, x1: int, x2: int, x3: int): (n: int) { ((x0 * 64 + x1) * 64 + x2) * 64 + x3 }

  /** Four sextets are the 24 bits of three bytes, the highest first. */
  ghost predicate SameBits(x: seq<Sextet>, b: Bytes, k: nat) {
    && 4 * k + 4 <= |x| && 3 * k + 3 <= |b|
    && FromDigits(x[4 * k], x[4 * k + 1], x[4 * k + 2], x[4 * k + 3]) == FromBytes(b[3 * k], b[3 * k + 1], b[3 * k + 2])
  }

  lemma GroupValue(b0: int, b1: int, b2: int)
    requires 0 <= b0 < 256 && 0 <= b1 < 256 && 0 <= b2 < 256
    ensures FromDigits(b0 / 4, b0 % 4 * 16 + b1 / 16, b1 % 16 * 4 + b2 / 64, b2 % 64) == FromBytes(b0, b1, b2)
  {
  }

  lemma SameAt<T>(s: seq<T>, n: nat, i: nat, m: nat)
    requires n + i + m <= |s|
    ensures forall j: nat | i <= j < i + m :: s[n..][j] == s[n + j]
  {
  }

  lemma {:induction false} GroupOfSextets(b: Bytes, k: nat)
    requires 3 * k + 3 <= |b|
    ensures SameBits(ToSextets(b), b, k)
  {
    var x := ToSextets(b);
    if k == 0 {
      GroupValue(b[0], b[1], b[2]);
    } else {
      GroupOfSextets(b[3..], k - 1);
      assert x[4..] == ToSextets(b[3..]);
      SameAt(x, 4, 4 * (k - 1), 4);
      SameAt(b, 3, 3 * (k - 1), 3);
    }
  }

  /** A last group of one or two bytes, followed by zero bits. */
  ghost predicate SameLastBits(x: seq<Sextet>, b: Bytes) {
    match |b| % 3
    case 0 => true
    case 1 => |x| >= 2 && FromDigits(x[|x| - 2], x[|x| - 1], 0, 0) == FromBytes(b[|b| - 1], 0, 0)
    case _ => |x| >= 3 && FromDigits(x[|x| - 3], x[|x| - 2], x[|x| - 1], 0) == FromBytes(b[|b| - 2], b[|b| - 1], 0)
  }

  lemma {:induction false} LastSextets(b: Bytes)
    ensures SameLastBits(ToSextets(b), b)
  {
    if |b| > 3 {
      LastSextets(b[3..]);
      FirstGroup(b);
      ThreeLess(|b|);
      LastKept(ToSextets(b), b);
    } else {
      ShortGroup(b);
    }
  }

  lemma FirstGroup(b: Bytes)
    requires |b| > 3
    ensures |ToSextets(b)| >= 4 && ToSextets(b)[4..] == ToSextets(b[3..])
  {
  }

  lemma ShortGroup(b: Bytes)
    requires |b| <= 3
    ensures SameLastBits(ToSextets(b), b)
  {
    if |b| == 1 {
      ShortSextets(b);
      LastOne(b[0]);
      OneLast(ToSextets(b), b);
    } else if |b| == 2 {
      ShortSextets(b);
      LastTwo(b[0], b[1]);
      TwoLast(ToSextets(b), b);
    } else {
      NoneLast(ToSextets(b), b);
    }
  }

  lemma ShortSextets(b: Bytes)
    ensures |b| == 1 ==> ToSextets(b) == [b[0] / 4, b[0] % 4 * 16]
    ensures |b| == 2 ==> ToSextets(b) == [b[0] / 4, b[0] % 4 * 16 + b[1] / 16, b[1] % 16 * 4]
  {
  }

  lemma NoneLast(x: seq<Sextet>, b: Bytes)
    requires |b| == 0 || |b| == 3
    ensures SameLastBits(x, b)
  {
  }

  lemma OneLast(x: seq<Sextet>, b: Bytes)
    requires |b| == 1 && |x| == 2 && FromDigits(x[0], x[1], 0, 0) == FromBytes(b[0], 0, 0)
    ensures SameLastBits(x, b)
  {
  }

  lemma TwoLast(x: seq<Sextet>, b: Bytes)
    requires |b| == 2 && |x| == 3 && FromDigits(x[0], x[1], x[2], 0) == FromBytes(b[0], b[1], 0)
    ensures SameLastBits(x, b)
  {
  }

  lemma LastOne(b0: int)
    requires 0 <= b0 < 256
    ensures FromDigits(b0 / 4, b0 % 4 * 16, 0, 0) == FromBytes(b0, 0, 0)
  {
  }

  lemma LastTwo(b0: int, b1: int)
    requires 0 <= b0 < 256 && 0 <= b1 < 256
    ensures FromDigits(b0 / 4, b0 % 4 * 16 + b1 / 16, b1 % 16 * 4, 0) == FromBytes(b0, b1, 0)
  {
  }

  lemma LastKept(x: seq<Sextet>, b: Bytes)
    requires |b| > 3 && |x| >= 4 && |b[3..]| % 3 == |b| % 3 && SameLastBits(x[4..], b[3..])
    ensures SameLastBits(x, b)
  {
    var y, d := x[4..], b[3..];
    assert forall j | 0 <= j < |y| :: y[j] == x[4 + j];
    assert d[|d| - 1] == b[|b| - 1];
  }

  lemma ThreeLess(n: nat)
    requires n >= 3
    ensures (n - 3) % 3 == n % 3
  {
  }

  /**
   * Each group of three bytes becomes four digits of the alphabet that spell the same 24 bits,
   * a last shorter group two or three digits that end in zero bits: section 4 of RFC 4648.
   */
  lemma EncodeIsRfc(a: Alphabet, b: Bytes) returns (x: seq<Sextet>)
    ensures |Encode(a, b)| == |x| == (4 * |b| + 2) / 3
    ensures forall i | 0 <= i < |x| :: Encode(a, b)[i] == Digit(a, x[i])
    ensures forall k: nat | 3 * k + 3 <= |b| :: SameBits(x, b, k)
    ensures SameLastBits(x, b)
  {
    x := ToSextets(b);
    forall i | 0 <= i < |x| ensures Encode(a, b)[i] == Digit(a, x[i]) {
      DigitsAt(a, x, i);
    }
    forall k: nat | 3 * k + 3 <= |b| ensures SameBits(x, b, k) {
      GroupOfSextets(b, k);
    }
    LastSextets(b);
  }
}
