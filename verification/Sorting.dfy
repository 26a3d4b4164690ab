/** Sorting byte strings, and why the order in which they were met does not matter. */
module Sorting {
  import opened ByteStrings

  predicate Sorted(s: seq<Bytes>) {
    forall i, j :: 0 <= i < j < |s| ==> !Less(s[j], s[i])
  }

  function Insert(x: Bytes, s: seq<Bytes>): seq<Bytes> {
    if s == [] then [x]
    else if Less(s[0], x) then [s[0]] + Insert(x, s[1..])
    else [x] + s
  }

  /** `sorted(s)` by the strings' own bytes. */
  function Sort(s: seq<Bytes>): seq<Bytes> {
    if s == [] then [] else Insert(s[0], Sort(s[1..]))
  }

  lemma {:induction false} InsertMultiset(x: Bytes, s: seq<Bytes>)
    ensures multiset(Insert(x, s)) == multiset(s) + multiset{x}
    decreases |s|
  {
    if s != [] {
      assert s == [s[0]] + s[1..];
      if Less(s[0], x) { InsertMultiset(x, s[1..]); }
    }
  }

  lemma {:induction false} InsertSorted(x: Bytes, s: seq<Bytes>)
    requires Sorted(s)
    ensures Sorted(Insert(x, s))
    decreases |s|
  {
    if s == [] {
    } else if Less(s[0], x) {
      var rest := Insert(x, s[1..]);
      InsertSorted(x, s[1..]);
      InsertMultiset(x, s[1..]);
      forall k | 0 <= k < |rest| ensures !Less(rest[k], s[0]) {
        assert rest[k] in multiset(rest);
        if rest[k] == x {
          LessAsymmetric(s[0], x);
        } else {
          var j :| 0 <= j < |s[1..]| && s[1..][j] == rest[k];
          assert s[j + 1] == rest[k];
        }
      }
      HeadSorted(s[0], rest);
    } else {
      forall k | 0 <= k < |s| ensures !Less(s[k], x) {
        if Less(s[k], x) {
          LessTotal(s[0], x);
          if k > 0 && Less(x, s[0]) { LessTransitive(s[k], x, s[0]); }
        }
      }
      HeadSorted(x, s);
    }
  }

  lemma HeadSorted(x: Bytes, s: seq<Bytes>)
    requires Sorted(s) && forall k :: 0 <= k < |s| ==> !Less(s[k], x)
    ensures Sorted([x] + s)
  {
  }

  lemma {:induction false} SortSorts(s: seq<Bytes>)
    ensures Sorted(Sort(s)) && multiset(Sort(s)) == multiset(s)
    decreases |s|
  {
    if s != [] {
      SortSorts(s[1..]);
      InsertSorted(s[0], Sort(s[1..]));
      InsertMultiset(s[0], Sort(s[1..]));
      assert s == [s[0]] + s[1..];
    }
  }

  lemma SortedHeads(s: seq<Bytes>, t: seq<Bytes>)
    requires Sorted(s) && Sorted(t) && s != [] && t != []
    requires s[0] in t && t[0] in s
    ensures s[0] == t[0]
  {
    var i :| 0 <= i < |t| && t[i] == s[0];
    var j :| 0 <= j < |s| && s[j] == t[0];
    LessIrreflexive(s[0]);
    LessTotal(s[0], t[0]);
  }

  lemma TailMultiset<T>(s: seq<T>)
    requires s != []
    ensures s == [s[0]] + s[1..]
    ensures multiset(s[1..]) == multiset(s) - multiset{s[0]}
  {
    assert s == [s[0]] + s[1..];
  }

  lemma {:induction false} SortedUnique(s: seq<Bytes>, t: seq<Bytes>)
    requires Sorted(s) && Sorted(t) && multiset(s) == multiset(t)
    ensures s == t
    decreases |s|
  {
    assert |s| == |multiset(s)| == |multiset(t)| == |t|;
    if s != [] {
      assert s[0] in multiset(t) && t[0] in multiset(s);
      SortedHeads(s, t);
      TailMultiset(s);
      TailMultiset(t);
      SortedUnique(s[1..], t[1..]);
    }
  }

  /** The sorted list is a function of the contents, not of the order they arrived in. */
  lemma SortPermutation(s: seq<Bytes>, t: seq<Bytes>)
    requires multiset(s) == multiset(t)
    ensures Sort(s) == Sort(t)
  {
    SortSorts(s);
    SortSorts(t);
    SortedUnique(Sort(s), Sort(t));
  }

  lemma SortFixpoint(s: seq<Bytes>)
    ensures Sort(s) == s <==> Sorted(s)
  {
    SortSorts(s);
    if Sorted(s) { SortedUnique(s, Sort(s)); }
  }

  lemma SortedDistinct(s: seq<Bytes>)
    ensures Sorted(s) && Distinct(s) <==> Increasing(s)
  {
    if Increasing(s) {
      IncreasingDistinct(s);
      forall i, j | 0 <= i < j < |s| ensures !Less(s[j], s[i]) { LessAsymmetric(s[i], s[j]); }
    }
    if Sorted(s) && Distinct(s) {
      forall i, j | 0 <= i < j < |s| ensures Less(s[i], s[j]) { LessTotal(s[i], s[j]); }
    }
  }

  function Elements<T(==)>(s: seq<T>): set<T> { set x | x in s }

  lemma DistinctCons<T>(s: seq<T>)
    requires s != []
    ensures Distinct(s) <==> s[0] !in s[1..] && Distinct(s[1..])
  {
    var tail := s[1..];
    if s[0] in tail {
      var k :| 0 <= k < |tail| && tail[k] == s[0];
      assert s[k + 1] == s[0];
    } else if !Distinct(tail) {
      var i, j :| 0 <= i < j < |tail| && tail[i] == tail[j];
      assert s[i + 1] == s[j + 1];
    } else {
      forall i, j | 0 <= i < j < |s| ensures s[i] != s[j] {
        assert s[j] == tail[j - 1];
        if i > 0 { assert s[i] == tail[i - 1]; }
      }
    }
  }

  lemma DistinctSnoc<T>(s: seq<T>, x: T)
    requires Distinct(s)
    ensures Elements(s + [x]) == Elements(s) + {x}
    ensures Distinct(s + [x]) <==> x !in s
  {
    var more := s + [x];
    if x in s {
      var k :| 0 <= k < |s| && s[k] == x;
      assert more[k] == more[|s|];
    } else {
      forall i, j | 0 <= i < j < |more| ensures more[i] != more[j] {
        assert more[i] in s;
      }
    }
  }

  /** `len(set(s)) == len(s)` is the distinctness test. */
  lemma {:induction false} ElementCount<T>(s: seq<T>)
    ensures |Elements(s)| <= |s|
    ensures |Elements(s)| == |s| <==> Distinct(s)
    decreases |s|
  {
    if s != [] {
      hide Distinct;
      ElementCount(s[1..]);
      DistinctCons(s);
      assert s == [s[0]] + s[1..];
      assert Elements(s) == {s[0]} + Elements(s[1..]);
    }
  }
}
