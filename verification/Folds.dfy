/** Sums and selections over sequences, and which of their properties survive reordering. */
module Folds {
  import opened ByteStrings
  import opened Sorting

  function Sum<T>(s: seq<T>, f: T -> int): int {
    if s == [] then 0 else f(s[0]) + Sum(s[1..], f)
  }

  lemma {:induction false} SumConcat<T>(a: seq<T>, b: seq<T>, f: T -> int)
    ensures Sum(a + b, f) == Sum(a, f) + Sum(b, f)
    decreases |a|
  {
    if a == [] {
      assert a + b == b;
    } else {
      SumConcat(a[1..], b, f);
      assert (a + b)[1..] == a[1..] + b;
    }
  }

  lemma SumSnoc<T>(a: seq<T>, x: T, f: T -> int)
    ensures Sum(a + [x], f) == Sum(a, f) + f(x)
  {
    SumConcat(a, [x], f);
    assert [x][1..] == [];
  }

  lemma SumRemove<T>(s: seq<T>, k: nat, f: T -> int)
    requires k < |s|
    ensures Sum(s, f) == f(s[k]) + Sum(s[..k] + s[k + 1..], f)
  {
    hide Sum;
    SumConcat(s[..k], s[k + 1..], f);
    SumConcat(s[..k] + [s[k]], s[k + 1..], f);
    SumSnoc(s[..k], s[k], f);
    assert s == s[..k] + [s[k]] + s[k + 1..];
  }

  lemma MultisetRemove<T>(s: seq<T>, k: nat)
    requires k < |s|
    ensures multiset(s[..k] + s[k + 1..]) == multiset(s) - multiset{s[k]}
  {
    assert s == s[..k] + [s[k]] + s[k + 1..];
  }

  /** A sum does not depend on the order of its terms. */
  lemma {:induction false} SumPermutation<T>(a: seq<T>, b: seq<T>, f: T -> int)
    requires multiset(a) == multiset(b)
    ensures Sum(a, f) == Sum(b, f)
    decreases |a|
  {
    assert |a| == |multiset(a)| == |multiset(b)| == |b|;
    if a != [] {
      assert a[0] in multiset(b);
      var k :| 0 <= k < |b| && b[k] == a[0];
      TailMultiset(a);
      MultisetRemove(b, k);
      SumPermutation(a[1..], b[..k] + b[k + 1..], f);
      SumRemove(b, k, f);
    }
  }

  lemma {:induction false} SumEqual<T>(s: seq<T>, f: T -> int, g: T -> int)
    requires forall i :: 0 <= i < |s| ==> f(s[i]) == g(s[i])
    ensures Sum(s, f) == Sum(s, g)
    decreases |s|
  {
    if s != [] { SumEqual(s[1..], f, g); }
  }

  /* ----- selecting by membership ----- */

  function Within<T(==)>(s: seq<T>, keep: set<T>): seq<T> {
    if s == [] then [] else (if s[0] in keep then [s[0]] else []) + Within(s[1..], keep)
  }

  function Without<T(==)>(s: seq<T>, drop: set<T>): seq<T> {
    if s == [] then [] else (if s[0] in drop then [] else [s[0]]) + Without(s[1..], drop)
  }

  lemma {:induction false} SelectionMembers<T>(s: seq<T>, keep: set<T>, x: T)
    ensures x in Within(s, keep) <==> x in s && x in keep
    ensures x in Without(s, keep) <==> x in s && x !in keep
    decreases |s|
  {
    if s != [] {
      assert s == [s[0]] + s[1..];
      SelectionMembers(s[1..], keep, x);
    }
  }

  lemma {:induction false} SelectionDistinct<T>(s: seq<T>, keep: set<T>)
    requires Distinct(s)
    ensures Distinct(Within(s, keep)) && Distinct(Without(s, keep))
    decreases |s|
  {
    if s != [] {
      hide Distinct;
      DistinctCons(s);
      SelectionDistinct(s[1..], keep);
      SelectionMembers(s[1..], keep, s[0]);
      var inside, outside := Within(s[1..], keep), Without(s[1..], keep);
      if s[0] in keep {
        DistinctCons([s[0]] + inside);
        assert ([s[0]] + inside)[1..] == inside && [] + outside == outside;
      } else {
        DistinctCons([s[0]] + outside);
        assert ([s[0]] + outside)[1..] == outside && [] + inside == inside;
      }
    }
  }

  lemma {:induction false} SelectionSplits<T>(s: seq<T>, keep: set<T>, f: T -> int)
    ensures |Within(s, keep)| + |Without(s, keep)| == |s|
    ensures Sum(Within(s, keep), f) + Sum(Without(s, keep), f) == Sum(s, f)
    decreases |s|
  {
    if s != [] {
      SelectionSplits(s[1..], keep, f);
      var inside, outside := Within(s[1..], keep), Without(s[1..], keep);
      assert [] + inside == inside && [] + outside == outside;
      assert ([s[0]] + inside)[1..] == inside && ([s[0]] + outside)[1..] == outside;
    }
  }

  lemma {:induction false} WithinConcat<T>(a: seq<T>, b: seq<T>, keep: set<T>)
    ensures Within(a + b, keep) == Within(a, keep) + Within(b, keep)
    decreases |a|
  {
    if a == [] {
      assert a + b == b;
    } else {
      WithinConcat(a[1..], b, keep);
      assert (a + b)[0] == a[0] && (a + b)[1..] == a[1..] + b;
      var head := if a[0] in keep then [a[0]] else [];
      assert Within(a + b, keep) == head + (Within(a[1..], keep) + Within(b, keep));
      assert head + (Within(a[1..], keep) + Within(b, keep)) == (head + Within(a[1..], keep)) + Within(b, keep);
    }
  }

  lemma {:induction false} WithoutConcat<T>(a: seq<T>, b: seq<T>, drop: set<T>)
    ensures Without(a + b, drop) == Without(a, drop) + Without(b, drop)
    decreases |a|
  {
    if a == [] {
      assert a + b == b;
    } else {
      WithoutConcat(a[1..], b, drop);
      assert (a + b)[0] == a[0] && (a + b)[1..] == a[1..] + b;
      var head := if a[0] in drop then [] else [a[0]];
      assert Without(a + b, drop) == head + (Without(a[1..], drop) + Without(b, drop));
      assert head + (Without(a[1..], drop) + Without(b, drop)) == (head + Without(a[1..], drop)) + Without(b, drop);
    }
  }

  /** A kept element lands at the position given by how many were kept before it. */
  lemma SelectionPosition<T>(s: seq<T>, keep: set<T>, j: nat)
    requires j < |s| && s[j] in keep
    ensures |Within(s[..j], keep)| < |Within(s, keep)| && Within(s, keep)[|Within(s[..j], keep)|] == s[j]
  {
    WithinConcat(s[..j], s[j..], keep);
    assert s == s[..j] + s[j..];
  }

  /** Every selected position comes from a position of the original. */
  lemma {:induction false} SelectionSource<T>(s: seq<T>, keep: set<T>, q: nat) returns (j: nat)
    requires q < |Within(s, keep)|
    ensures j < |s| && s[j] == Within(s, keep)[q] && s[j] in keep && |Within(s[..j], keep)| == q
    decreases |s|
  {
    if s[0] in keep && q == 0 {
      j := 0;
    } else {
      var i := SelectionSource(s[1..], keep, if s[0] in keep then q - 1 else q);
      j := i + 1;
      assert s[..j][1..] == s[1..][..i];
    }
  }

  /** Two distinct enumerations of the same elements are permutations. */
  lemma {:induction false} SameElements<T>(a: seq<T>, b: seq<T>)
    requires Distinct(a) && Distinct(b) && forall x :: x in a <==> x in b
    ensures multiset(a) == multiset(b) && |a| == |b|
    decreases |a|
  {
    DistinctMultiset(a);
    DistinctMultiset(b);
    forall x ensures multiset(a)[x] == multiset(b)[x] {
      assert x in a <==> x in b;
    }
    assert multiset(a) == multiset(b);
    assert |a| == |multiset(a)| == |multiset(b)| == |b|;
  }

  lemma {:induction false} DistinctMultiset<T>(s: seq<T>)
    requires Distinct(s)
    ensures forall x :: multiset(s)[x] == if x in s then 1 else 0
    decreases |s|
  {
    if s != [] {
      DistinctCons(s);
      DistinctMultiset(s[1..]);
      assert s == [s[0]] + s[1..];
      assert multiset(s) == multiset{s[0]} + multiset(s[1..]);
    }
  }
}
