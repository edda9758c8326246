/** The order of property names, and what sorting by it guarantees. */
module KeyOrder {
  import opened Text
  import opened Jcs

  lemma {:induction false} LessTransitive(a: Str, b: Str, c: Str)
    requires Less(a, b) && Less(b, c)
    ensures Less(a, c)
  {
    if a != [] && a[0] == b[0] == c[0] {
      LessTransitive(a[1..], b[1..], c[1..]);
    }
  }

  lemma {:induction false} LessTotal(a: Str, b: Str)
    ensures !(Less(a, b) && Less(b, a))
    ensures !Less(a, b) && !Less(b, a) <==> a == b
  {
    if a != [] && b != [] && a[0] == b[0] {
      LessTotal(a[1..], b[1..]);
      assert a == [a[0]] + a[1..] && b == [b[0]] + b[1..];
    } else {
      LessIrreflexive(a);
    }
  }

  lemma {:induction false} LessIrreflexive(a: Str)
    ensures !Less(a, a)
  {
    if a != [] {
      LessIrreflexive(a[1..]);
    }
  }

  ghost predicate StrictlySorted(ks: seq<Str>) {
    forall i, j | 0 <= i < j < |ks| :: Less(ks[i], ks[j])
  }

  lemma {:induction false} InsertSorted(k: Str, ks: seq<Str>)
    requires StrictlySorted(ks) && k !in ks
    ensures StrictlySorted(Insert(k, ks))
  {
    if ks != [] {
      LessTotal(ks[0], k);
      if Less(ks[0], k) {
        InsertSorted(k, ks[1..]);
        InsertKeeps(k, ks[1..]);
        var r := Insert(k, ks[1..]);
        forall j | 0 <= j < |r| ensures Less(ks[0], r[j]) {
          assert r[j] in r;
        }
      } else {
        assert Less(k, ks[0]);
        forall j | 0 <= j < |ks| ensures Less(k, ks[j]) {
          if j > 0 {
            LessTransitive(k, ks[0], ks[j]);
          }
        }
      }
    }
  }

  /** Sorting distinct names puts them in strictly increasing order. */
  lemma {:induction false} SortSorted(ks: seq<Str>)
    requires Distinct(ks)
    ensures StrictlySorted(Sort(ks))
  {
    if ks != [] {
      SortSorted(ks[1..]);
      SortKeeps(ks[1..]);
      InsertSorted(ks[0], Sort(ks[1..]));
    }
  }

  lemma SortedDistinct(ks: seq<Str>)
    requires StrictlySorted(ks)
    ensures Distinct(ks)
  {
    forall i, j | 0 <= i < j < |ks| ensures ks[i] != ks[j] {
      LessIrreflexive(ks[i]);
    }
  }

  lemma FirstIsMember(ks: seq<Str>)
    ensures ks == [] || ks[0] in ks
  {
  }

  /** There is one strictly increasing arrangement of a set of names. */
  lemma {:induction false} SortedUnique(a: seq<Str>, b: seq<Str>)
    requires StrictlySorted(a) && StrictlySorted(b)
    requires forall x :: x in a <==> x in b
    ensures a == b
  {
    if a == [] {
      FirstIsMember(b);
    } else {
      assert a[0] in b;
      assert b[0] in a;
      SortedDistinct(a);
      SortedDistinct(b);
      LessTotal(a[0], b[0]);
      assert a[0] == b[0];
      forall x ensures x in a[1..] <==> x in b[1..] {
        assert a == [a[0]] + a[1..] && b == [b[0]] + b[1..];
        assert x in a <==> x == a[0] || x in a[1..];
        assert x in b <==> x == b[0] || x in b[1..];
      }
      SortedUnique(a[1..], b[1..]);
      assert a == [a[0]] + a[1..] && b == [b[0]] + b[1..];
    }
  }
}
