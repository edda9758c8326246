/**
 * Where sorting names by UTF-16 code unit, which the printer does and RFC 8785 asks for, differs
 * from sorting them by code point.
 */
module CodePointOrder {
  import opened Text
  import opened Jcs
  import Utf8

  /** The first code point of a text. */
  function CodePoint(t: Str): (c: int)
    requires t != []
  {
    if Utf8.StartsPair(t) then Utf8.FromPair(t[0], t[1]) else t[0]
  }

  predicate LessByCodePoint(a: Str, b: Str)
    decreases |a|
  {
    b != [] &&
    (a == [] || CodePoint(a) < CodePoint(b)
     || (CodePoint(a) == CodePoint(b) && LessByCodePoint(a[Utf8.CharLen(a)..], b[Utf8.CharLen(b)..])))
  }

  /** The first units that differ are a surrogate and a unit after the surrogates. */
  predicate Crossed(a: Str, b: Str) {
    a != [] && b != [] &&
    if a[0] == b[0] then Crossed(a[1..], b[1..])
    else (Utf8.IsSurrogate(a[0]) && b[0] >= 0xE000) || (a[0] >= 0xE000 && Utf8.IsSurrogate(b[0]))
  }

  lemma PairsDiffer(a: Str, b: Str)
    requires Utf8.StartsPair(a) && Utf8.StartsPair(b) && a[0] == b[0]
    ensures a[1] < b[1] <==> CodePoint(a) < CodePoint(b)
    ensures a[1] == b[1] <==> CodePoint(a) == CodePoint(b)
    ensures Less(a, b) <==> a[1] < b[1] || (a[1] == b[1] && Less(a[2..], b[2..]))
    ensures Crossed(a, b) <==> a[1] == b[1] && Crossed(a[2..], b[2..])
  {
    assert a[1..][1..] == a[2..] && b[1..][1..] == b[2..];
  }

  /** The first units differ. */
  lemma FirstDiffers(a: Str, b: Str)
    requires Utf8.StartsScalar(a) && Utf8.StartsScalar(b) && a[0] != b[0]
    ensures Less(a, b) <==> a[0] < b[0]
    ensures CodePoint(a) != CodePoint(b)
    ensures (CodePoint(a) < CodePoint(b) <==> a[0] < b[0]) <==> !Crossed(a, b)
  {
  }

  /** On well-formed texts the two orders agree exactly when the texts are not crossed. */
  lemma {:induction false} OrdersAgree(a: Str, b: Str)
    requires Utf8.WellFormed(a) && Utf8.WellFormed(b)
    ensures (Less(a, b) <==> LessByCodePoint(a, b)) <==> !Crossed(a, b)
    decreases |a|
  {
    if a != [] && b != [] {
      if a[0] != b[0] {
        FirstDiffers(a, b);
      } else if Utf8.StartsPair(a) {
        PairsDiffer(a, b);
        if a[1] == b[1] {
          OrdersAgree(a[2..], b[2..]);
        }
      } else {
        OrdersAgree(a[1..], b[1..]);
      }
    }
  }

  /** U+1F600 sorts before U+FB33, although its code point is greater. */
  lemma OrdersPart()
    ensures var emoji, dalet: Str := [0xD83D, 0xDE00], [0xFB33];
            && Utf8.WellFormed(emoji) && Utf8.WellFormed(dalet)
            && Less(emoji, dalet) && LessByCodePoint(dalet, emoji)
  {
    var emoji, dalet: Str := [0xD83D, 0xDE00], [0xFB33];
    assert emoji[2..] == [] && dalet[1..] == [];
  }
}
