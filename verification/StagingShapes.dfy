/** Which lists of paths a measurement leaves possible: the lists with the manifest's text, and
    among them those that some tree with the reported quantities has. */
module StagingShapes {
  import opened ByteStrings
  import opened Paths
  import opened Sorting
  import opened Folds
  import opened Links
  import opened Staging
  import opened StagingWalk

  /** `t` is what a measurement of the tree reports. */
  ghost predicate IsMeasure(host: Host, tree: Tree, t: Totals) {
    exists paths :: Enumerates(tree, paths) && Measures(host, tree, paths, t)
  }

  /* ----- the lists that share a text ----- */

  /** All ways to cut a text into `n` paths: each path ends at some newline of the text. */
  function Cuts(text: Bytes, n: nat): set<seq<Bytes>>
    decreases n
  {
    if n == 0 then (if text == [] then {[]} else {})
    else set k, rest | 0 <= k < |text| && text[k] == NEWLINE && rest in Cuts(text[k + 1..], n - 1) :: [text[..k]] + rest
  }

  /** A list's text starts with its first path and a newline. */
  lemma FirstCut(text: Bytes, b: seq<Bytes>)
    requires b != []
    ensures Lines(b) == text <==>
      var k := |b[0]|; k < |text| && text[..k] == b[0] && text[k] == NEWLINE && text[k + 1..] == Lines(b[1..])
  {
    var k, rest := |b[0]|, Lines(b[1..]);
    var own := b[0] + [NEWLINE] + rest;
    assert own[..k] == b[0] && own[k] == NEWLINE && own[k + 1..] == rest;
    if k < |text| && text[..k] == b[0] && text[k] == NEWLINE && text[k + 1..] == rest { assert text == text[..k] + [text[k]] + text[k + 1..]; }
  }

  lemma CutsStep(text: Bytes, n: nat, b: seq<Bytes>)
    requires n > 0
    ensures b in Cuts(text, n) <==>
      b != [] && var k := |b[0]|; k < |text| && text[..k] == b[0] && text[k] == NEWLINE && b[1..] in Cuts(text[k + 1..], n - 1)
  {
    if b in Cuts(text, n) {
      var k, rest :| 0 <= k < |text| && text[k] == NEWLINE && rest in Cuts(text[k + 1..], n - 1) && b == [text[..k]] + rest;
      assert b[1..] == rest && |b[0]| == k;
    }
    if b != [] {
      assert b == [b[0]] + b[1..];
    }
  }

  /** They are exactly the lists of that length with that text. */
  lemma {:induction false} CutsExact(text: Bytes, n: nat, b: seq<Bytes>)
    ensures b in Cuts(text, n) <==> |b| == n && Lines(b) == text
    decreases n
  {
    if n > 0 {
      hide Cuts, Lines;
      CutsStep(text, n, b);
      if b != [] {
        FirstCut(text, b);
        if |b[0]| < |text| { CutsExact(text[|b[0]| + 1..], n - 1, b[1..]); }
      }
    }
  }

  /** No other way to cut the list's own text gives as many paths in increasing order. */
  predicate Sole(a: seq<Bytes>) { forall b :: b in Cuts(Lines(a), |a|) && Increasing(b) ==> b == a }

  /** Among sorted lists of its length, a list is determined by its text exactly when it is
      the sole cut. */
  lemma TextExact(a: seq<Bytes>)
    ensures (forall b: seq<Bytes> :: Increasing(b) && |b| == |a| && Lines(b) == Lines(a) ==> b == a) <==> Sole(a)
  {
    hide Cuts, Lines, Increasing;
    forall b: seq<Bytes> ensures b in Cuts(Lines(a), |a|) <==> |b| == |a| && Lines(b) == Lines(a) { CutsExact(Lines(a), |a|, b); }
  }

  /* ----- the lists that a tree with these quantities can have ----- */

  function Parents(b: seq<Bytes>): set<Bytes> { set p | p in b && Dirname(p) != [] :: Dirname(p) }

  /** In order, each path normalized, and each path's directory among them. */
  predicate TreePaths(b: seq<Bytes>) {
    Increasing(b) && forall p :: p in b ==> Normalized(p) && (Dirname(p) == [] || Dirname(p) in b)
  }

  function Count(t: Totals, k: Kind): int { if k in t.byKind then t.byKind[k] else 0 }

  /** Paths that may be files and come after the largest one. */
  function After(b: seq<Bytes>, path: Bytes): set<Bytes> { set q | q in b && q !in Parents(b) && Less(path, q) }

  function Min(a: int, b: int): int { if a <= b then a else b }

  /** The most bytes the files can hold: files up to the largest must be smaller than it, it
      and the files after it need not. */
  function Room(t: Totals, b: seq<Bytes>): int {
    (t.largestBytes - 1) * Count(t, File) + Min(Count(t, File), |After(b, t.largestPath)| + 1)
  }

  /** A tree has these paths and these quantities: there are directories enough, the largest
      file can be a file, and the bytes fit. */
  predicate Possible(host: Host, t: Totals, b: seq<Bytes>) {
    && TreePaths(b) && |b| - |Folded(host, b)| == t.caseFolded && |Parents(b)| <= Count(t, Directory)
    && (t.largestBytes > 0 ==>
          t.largestPath in b && t.largestPath !in Parents(b) && t.payloadBytes <= Room(t, b))
  }

  /* ----- counting ----- */

  function In(s: set<Bytes>): Bytes -> int { p => if p in s then 1 else 0 }

  lemma {:induction false} CountSet(paths: seq<Bytes>, s: set<Bytes>)
    requires Distinct(paths) && s <= Elements(paths)
    ensures Sum(paths, In(s)) == |s|
    decreases |paths|
  {
    if paths != [] {
      hide Distinct;
      var x, tail := paths[0], paths[1..];
      var rest := s - {x};
      DistinctCons(paths);
      TailHolds(paths, s);
      CountSet(tail, rest);
      SumEqual(tail, In(s), In(rest));
    }
  }

  lemma TailHolds(paths: seq<Bytes>, s: set<Bytes>)
    requires paths != [] && s <= Elements(paths)
    ensures s - {paths[0]} <= Elements(paths[1..])
    ensures |s| == |s - {paths[0]}| + In(s)(paths[0])
  {
    var x := paths[0];
    assert paths == [x] + paths[1..];
    if x in s { assert s == (s - {x}) + {x}; } else { assert s == s - {x}; }
  }

  lemma KindSet(tree: Tree, paths: seq<Bytes>, k: Kind, s: set<Bytes>)
    requires Enumerates(tree, paths) && s == set p | p in tree && KindOf(tree[p]) == k
    ensures Sum(paths, IsKind(tree, k)) == |s|
  {
    hide Distinct;
    CountSet(paths, s);
    SumEqual(paths, IsKind(tree, k), In(s));
  }

  lemma CountOf(host: Host, tree: Tree, paths: seq<Bytes>, t: Totals, k: Kind)
    requires Measures(host, tree, paths, t)
    ensures Count(t, k) == Sum(paths, IsKind(tree, k)) >= 0
  {
    hide Sum, IsLargest, Manifest, Folded;
    CountsNonNegative(tree, paths, k);
    assert k in {Directory, Symlink, File};
  }

  /* ----- what every tree obeys ----- */

  lemma {:induction false} SizeBound(paths: seq<Bytes>, size: Bytes -> int, most: int, files: Bytes -> int, full: Bytes -> int)
    requires forall i :: 0 <= i < |paths| ==> size(paths[i]) <= most * files(paths[i]) + full(paths[i])
    ensures Sum(paths, size) <= most * Sum(paths, files) + Sum(paths, full)
    decreases |paths|
  {
    if paths != [] {
      SizeBound(paths[1..], size, most, files, full);
      Distributes(most, files(paths[0]), Sum(paths[1..], files));
    }
  }

  lemma Distributes(a: int, b: int, c: int)
    ensures a * (b + c) == a * b + a * c
  {
  }

  /** A file before the largest one in byte order is smaller. */
  lemma FileFits(tree: Tree, path: Bytes, most: nat, p: Bytes, files: set<Bytes>, full: set<Bytes>)
    requires IsLargest(tree, most, path) && most > 0 && NoSpecial(tree) && p in tree
    requires files == set q | q in tree && KindOf(tree[q]) == File
    requires full == set q | q in files && (q == path || Less(path, q))
    ensures FileSize(tree)(p) <= (most - 1) * In(files)(p) + In(full)(p)
  {
    hide Less;
    if p in files {
      assert tree[p].Regular? && tree[p].size <= most;
      assert (most - 1) * In(files)(p) == most - 1;
    } else {
      assert !tree[p].Regular?;
    }
  }

  lemma FilesFit(host: Host, tree: Tree, b: seq<Bytes>, t: Totals)
    requires Rooted(tree) && NoSpecial(tree) && Enumerates(tree, b) && Measures(host, tree, b, t) && t.largestBytes > 0
    ensures t.largestPath in b && t.largestPath !in Parents(b) && t.payloadBytes <= Room(t, b)
  {
    hide Sum, Distinct, Manifest, Folded, KindCounts, Less, Dirname, Normalized;
    var path, most := t.largestPath, t.largestBytes;
    NotParents(tree, b);
    assert path in Elements(b);
    var files := set p | p in tree && KindOf(tree[p]) == File;
    var full := set p | p in files && (p == path || Less(path, p));
    forall i | 0 <= i < |b| ensures FileSize(tree)(b[i]) <= (most - 1) * In(files)(b[i]) + In(full)(b[i]) {
      assert b[i] in Elements(b);
      FileFits(tree, path, most, b[i], files, full);
    }
    SizeBound(b, FileSize(tree), most - 1, In(files), In(full));
    CountSet(b, files);
    CountSet(b, full);
    KindSet(tree, b, File, files);
    CountOf(host, tree, b, t, File);
    var after := After(b, path);
    assert full <= after + {path} by { forall p | p in full && p != path ensures p in after { assert p in Elements(b); } }
    SubsetCount(full, after + {path});
    SubsetCount(full, files);
  }

  /** A path with something in it is a directory. */
  lemma NotParents(tree: Tree, b: seq<Bytes>)
    requires Rooted(tree) && Enumerates(tree, b)
    ensures forall p :: p in Parents(b) ==> p in tree && tree[p].Dir?
  {
    hide Distinct, Dirname, Normalized;
    forall p | p in Parents(b) ensures p in tree && tree[p].Dir? {
      var q :| q in b && Dirname(q) != [] && Dirname(q) == p;
      assert q in Elements(b);
    }
  }

  lemma SubsetCount(a: set<Bytes>, b: set<Bytes>)
    requires a <= b
    ensures |a| <= |b|
  {
    assert b == a + (b - a);
  }

  /** The sorted paths of any tree with these quantities are possible. */
  lemma ShapeNeeded(host: Host, tree: Tree, paths: seq<Bytes>, t: Totals)
    requires Rooted(tree) && NoSpecial(tree) && Enumerates(tree, paths) && Measures(host, tree, paths, t)
    ensures Possible(host, t, Sort(paths)) && |Sort(paths)| == t.entries && Enumerates(tree, Sort(paths))
  {
    hide Sum, Sort, Distinct, IsLargest, KindCounts, Less, Room, Manifest, Dirname, Normalized;
    var b := Sort(paths);
    SortedMeasure(host, tree, paths, t);
    NotParents(tree, b);
    var dirs := set p | p in tree && KindOf(tree[p]) == Directory;
    KindSet(tree, b, Directory, dirs);
    CountOf(host, tree, b, t, Directory);
    SubsetCount(Parents(b), dirs);
    if t.largestBytes > 0 { FilesFit(host, tree, b, t); }
    forall p | p in b ensures Normalized(p) && (Dirname(p) == [] || Dirname(p) in b) {
      assert p in Elements(b) && (Dirname(p) in tree ==> Dirname(p) in Elements(b));
    }
  }

  lemma SortedMeasure(host: Host, tree: Tree, paths: seq<Bytes>, t: Totals)
    requires Enumerates(tree, paths) && Measures(host, tree, paths, t)
    ensures Enumerates(tree, Sort(paths)) && Increasing(Sort(paths)) && Measures(host, tree, Sort(paths), t)
  {
    hide Sum, Distinct, IsLargest, KindCounts, Less, Increasing, Lines, Sort, FileSize, Leaves;
    SortedKeys(tree, paths);
    var b := Sort(paths);
    SameTotals(tree, paths, b);
    assert |b| == |multiset(b)| == |multiset(paths)| == |paths|;
    SortPermutation(b, paths);
    forall x ensures x in b <==> x in paths { assert x in Elements(b) <==> x in Elements(paths); }
    assert Folded(host, b) == Folded(host, paths);
  }
}
