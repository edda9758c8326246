/**
 * Strings as JavaScript sees them (sequences of UTF-16 code units), bytes, ASCII
 * literals, and the `split`/`join` pair that every wire format here is built from.
 */
module Text {
  type Unit = u: int | 0 <= u < 0x1_0000
  type Byte = b: Unit | b < 0x100
  type Str = seq<Unit>
  type Bytes = seq<Byte>

  datatype Option<+T> = None | Some(value: T)

  const LF: Unit := 0x0A
  const CR: Unit := 0x0D
  const SPACE: Unit := 0x20
  const QUOTE: Unit := 0x22
  const COMMA: Unit := 0x2C
  const DOT: Unit := 0x2E
  const COLON: Unit := 0x3A
  const BACKSLASH: Unit := 0x5C

  /** An ASCII literal as code units; the same sequence is its UTF-8 encoding. */
  function Ascii(s: string): (r: Str)
    requires forall i | 0 <= i < |s| :: s[i] as int < 128
    ensures |r| == |s|
    ensures forall i | 0 <= i < |s| :: r[i] == s[i] as int
  {
    seq(|s|, i requires 0 <= i < |s| => s[i] as int)
  }

  ghost predicate Distinct(ss: seq<Str>) {
    forall i, j | 0 <= i < j < |ss| :: ss[i] != ss[j]
  }

  lemma Assoc(a: Str, b: Str, c: Str)
    ensures a + b + c == a + (b + c)
  {
  }

  lemma Regroup(a: Str, b: Str, c: Str, d: Str)
    ensures a + b + c + d == a + (b + (c + d)) == a + (b + c + d)
  {
  }

  predicate IsBytes(s: Str) {
    forall i | 0 <= i < |s| :: s[i] < 0x100
  }

  function HexDigit(d: int): (c: Unit)
    requires 0 <= d < 16
  {
    if d < 10 then 0x30 + d else 0x61 + (d - 10)
  }

  /** `buf.toString('hex')`, `hex.EncodeToString` */
  function Hex(b: Bytes): (s: Str)
    ensures |s| == 2 * |b|
  {
    if b == [] then [] else [HexDigit(b[0] / 16), HexDigit(b[0] % 16)] + Hex(b[1..])
  }

  const HEX_DIGITS := Ascii("0123456789abcdef")

  lemma HexDigitAt(d: nat)
    requires d < 16
    ensures HexDigit(d) == HEX_DIGITS[d]
  {
    assert HEX_DIGITS == [0x30, 0x31, 0x32, 0x33, 0x34, 0x35, 0x36, 0x37, 0x38, 0x39, 0x61, 0x62, 0x63, 0x64, 0x65, 0x66];
  }

  /** Every byte in turn as its high digit, then its low one. */
  lemma {:induction false} HexAt(b: Bytes, i: nat)
    requires i < |b|
    ensures Hex(b)[2 * i] == Ascii("0123456789abcdef")[b[i] / 16]
    ensures Hex(b)[2 * i + 1] == Ascii("0123456789abcdef")[b[i] % 16]
  {
    if i == 0 {
      HexDigitAt(b[0] / 16);
      HexDigitAt(b[0] % 16);
    } else {
      HexAt(b[1..], i - 1);
      assert Hex(b)[2..] == Hex(b[1..]);
      assert Hex(b)[2 * i] == Hex(b)[2..][2 * (i - 1)] && Hex(b)[2 * i + 1] == Hex(b)[2..][2 * (i - 1) + 1];
    }
  }

  lemma {:induction false} HexInjective(a: Bytes, b: Bytes)
    ensures Hex(a) == Hex(b) <==> a == b
  {
    if Hex(a) == Hex(b) && a != [] {
      assert Hex(a)[0] == Hex(b)[0] && Hex(a)[1] == Hex(b)[1];
      assert a[0] / 16 == b[0] / 16 && a[0] % 16 == b[0] % 16;
      assert Hex(a)[2..] == Hex(a[1..]) && Hex(b)[2..] == Hex(b[1..]);
      HexInjective(a[1..], b[1..]);
      assert a == [a[0]] + a[1..] && b == [b[0]] + b[1..];
    }
  }

  /** The position of the first `c` in `s`, or `|s|` when there is none. */
  function IndexOf(s: Str, c: Unit): (i: nat)
    ensures i <= |s|
    ensures i < |s| ==> s[i] == c
    ensures c !in s[..i]
  {
    if s == [] || s[0] == c then 0
    else
      assert s[..1 + IndexOf(s[1..], c)] == [s[0]] + s[1..][..IndexOf(s[1..], c)];
      1 + IndexOf(s[1..], c)
  }

  /** The first occurrence is found where a separator-free prefix ends. */
  lemma {:induction false} IndexOfAt(a: Str, c: Unit, rest: Str)
    requires c !in a
    ensures IndexOf(a + [c] + rest, c) == |a|
  {
    if a != [] {
      assert (a + [c] + rest)[1..] == a[1..] + [c] + rest;
      IndexOfAt(a[1..], c, rest);
    }
  }

  lemma {:induction false} IndexOfAbsent(a: Str, c: Unit)
    requires c !in a
    ensures IndexOf(a, c) == |a|
  {
    if a != [] {
      IndexOfAbsent(a[1..], c);
    }
  }

  /** `parts.join(sep)` */
  function Join(parts: seq<Str>, sep: Unit): (r: Str) {
    if |parts| == 0 then []
    else if |parts| == 1 then parts[0]
    else parts[0] + [sep] + Join(parts[1..], sep)
  }

  /** `s.split(sep)` */
  function Split(s: Str, sep: Unit): (parts: seq<Str>)
    ensures parts != []
    decreases |s|
  {
    var i := IndexOf(s, sep);
    if i == |s| then [s] else [s[..i]] + Split(s[i + 1..], sep)
  }

  ghost predicate AllLack(parts: seq<Str>, c: Unit) {
    forall i | 0 <= i < |parts| :: c !in parts[i]
  }

  lemma {:induction false} SplitJoin(parts: seq<Str>, sep: Unit)
    requires parts != [] && AllLack(parts, sep)
    ensures Split(Join(parts, sep), sep) == parts
  {
    if |parts| == 1 {
      IndexOfAbsent(parts[0], sep);
    } else {
      var rest := Join(parts[1..], sep);
      IndexOfAt(parts[0], sep, rest);
      var s := Join(parts, sep);
      assert s[..|parts[0]|] == parts[0] && s[|parts[0]| + 1..] == rest;
      SplitJoin(parts[1..], sep);
    }
  }

  lemma {:induction false} JoinSplit(s: Str, sep: Unit)
    ensures Join(Split(s, sep), sep) == s
    ensures AllLack(Split(s, sep), sep)
    decreases |s|
  {
    var i := IndexOf(s, sep);
    if i < |s| {
      JoinSplit(s[i + 1..], sep);
      var tail := Split(s[i + 1..], sep);
      assert Split(s, sep) == [s[..i]] + tail;
      assert Split(s, sep)[1..] == tail;
      assert s == s[..i] + [sep] + s[i + 1..];
    } else {
      assert s[..i] == s;
    }
  }

  /** Joining loses nothing but the difference between no part and one empty part. */
  lemma JoinInjective(a: seq<Str>, b: seq<Str>, sep: Unit)
    requires AllLack(a, sep) && AllLack(b, sep)
    ensures Join(a, sep) == Join(b, sep) <==>
            a == b || (a == [] && b == [[]]) || (a == [[]] && b == [])
  {
    if Join(a, sep) == Join(b, sep) {
      if a != [] {
        SplitJoin(a, sep);
      }
      if b != [] {
        SplitJoin(b, sep);
      }
      IndexOfAbsent([], sep);
    }
  }

  lemma {:induction false} JoinBytes(parts: seq<Str>, sep: Unit)
    requires sep < 0x100 && forall i | 0 <= i < |parts| :: IsBytes(parts[i])
    ensures IsBytes(Join(parts, sep))
  {
    if |parts| > 1 {
      JoinBytes(parts[1..], sep);
    }
  }

  /** Joining a concatenation of two lists of parts. */
  lemma {:induction false} JoinAppend(a: seq<Str>, b: seq<Str>, sep: Unit)
    ensures Join(a + b, sep) ==
            if a == [] then Join(b, sep)
            else if b == [] then Join(a, sep)
            else Join(a, sep) + [sep] + Join(b, sep)
  {
    if a == [] {
      assert a + b == b;
    } else if b == [] {
      assert a + b == a;
    } else if |a| == 1 {
      assert (a + b)[1..] == b;
    } else {
      JoinAppend(a[1..], b, sep);
      assert (a + b)[1..] == a[1..] + b;
    }
  }
}
