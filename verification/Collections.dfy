/** Facts about sequences and sets that several models share. */
module Collections {

  predicate Distinct<T(==)>(xs: seq<T>) {
    forall i, j | 0 <= i < j < |xs| :: xs[i] != xs[j]
  }

  lemma AppendDistinct<T>(a: seq<T>, b: seq<T>)
    requires Distinct(a) && Distinct(b) && forall x | x in b :: x !in a
    ensures Distinct(a + b)
  {
    forall i, j | 0 <= i < j < |a + b|
      ensures (a + b)[i] != (a + b)[j]
    {
      if i < |a| <= j {
        assert (a + b)[j] in b && (a + b)[i] in a;
      }
    }
  }

  lemma FewAreDistinct<T>(xs: seq<T>)
    requires |xs| <= 1
    ensures Distinct(xs)
  {}

  lemma DropLastDistinct<T>(xs: seq<T>)
    requires Distinct(xs) && |xs| > 0
    ensures var n := |xs| - 1; Distinct(xs[..n]) && xs[n] !in xs[..n]
  {}

  predicate HasPrefix<T(==)>(s: seq<T>, prefix: seq<T>) {
    |prefix| <= |s| && s[..|prefix|] == prefix
  }

  lemma PrefixHead<T>(s: seq<T>, prefix: seq<T>)
    requires |prefix| > 0
    ensures HasPrefix(s, prefix) <==> |s| > 0 && s[0] == prefix[0] && HasPrefix(s[1..], prefix[1..])
  {
    if |s| >= |prefix| {
      assert s[1..][..|prefix| - 1] == s[..|prefix|][1..];
      assert s[..|prefix|] == [s[0]] + s[..|prefix|][1..];
      assert prefix == [prefix[0]] + prefix[1..];
    }
  }

  /** A subset of the same size is the whole set. */
  lemma SubsetSize<T>(a: set<T>, b: set<T>)
    requires a <= b
    ensures |a| <= |b| && (|a| == |b| ==> a == b)
  {
    assert b == a + (b - a);
  }
}
