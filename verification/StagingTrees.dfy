/** For every possible list of paths, a tree that has those paths and the reported quantities:
    files first, as large as they may be until the bytes are used up, then links, then
    directories. */
module StagingTrees {
  import opened ByteStrings
  import opened Paths
  import opened Sorting
  import opened Folds
  import opened Links
  import opened Staging
  import opened StagingWalk
  import opened StagingShapes

  /* ----- sums ----- */

  lemma {:induction false} SumConstant(s: seq<Bytes>, f: Bytes -> int, v: int)
    requires forall i :: 0 <= i < |s| ==> f(s[i]) == v
    ensures Sum(s, f) == v * |s|
    decreases |s|
  {
    if s != [] {
      SumConstant(s[1..], f, v);
      Distributes(v, 1, |s| - 1);
    }
  }

  lemma SumThree(c: seq<Bytes>, f: Bytes -> int, i: nat, j: nat, x: int, y: int, z: int)
    requires i <= j <= |c|
    requires forall k :: 0 <= k < |c| ==> f(c[k]) == if k < i then x else if k < j then y else z
    ensures Sum(c, f) == x * i + y * (j - i) + z * (|c| - j)
  {
    hide Sum;
    var head, middle, tail := c[..i], c[i..j], c[j..];
    assert c == head + middle + tail;
    SumConcat(head + middle, tail, f);
    SumConcat(head, middle, f);
    assert Sum(head, f) == x * i by { SumConstant(head, f, x); }
    assert Sum(middle, f) == y * (j - i) by { SumConstant(middle, f, y); }
    assert Sum(tail, f) == z * (|c| - j) by { SumConstant(tail, f, z); }
  }

  function Total(sizes: seq<nat>): nat { if sizes == [] then 0 else sizes[0] + Total(sizes[1..]) }

  lemma {:induction false} SumSizes(c: seq<Bytes>, f: Bytes -> int, sizes: seq<nat>)
    requires |c| == |sizes| && forall k :: 0 <= k < |c| ==> f(c[k]) == sizes[k]
    ensures Sum(c, f) == Total(sizes)
    decreases |c|
  {
    if c != [] { SumSizes(c[1..], f, sizes[1..]); }
  }

  lemma {:induction false} SumAtMost(s: seq<Bytes>, f: Bytes -> int, g: Bytes -> int)
    requires forall i :: 0 <= i < |s| ==> 0 <= f(s[i]) <= g(s[i])
    ensures 0 <= Sum(s, f) <= Sum(s, g)
    decreases |s|
  {
    if s != [] { SumAtMost(s[1..], f, g); }
  }

  lemma SumHolds(s: seq<Bytes>, f: Bytes -> int, x: Bytes)
    requires x in s && forall i :: 0 <= i < |s| ==> 0 <= f(s[i])
    ensures Sum(s, f) >= f(x)
  {
    hide Sum;
    var k :| 0 <= k < |s| && s[k] == x;
    SumRemove(s, k, f);
    var rest := s[..k] + s[k + 1..];
    forall i | 0 <= i < |rest| ensures 0 <= f(rest[i]) { assert rest[i] == if i < k then s[i] else s[i + 1]; }
    SumAtMost(rest, f, f);
  }

  /* ----- reports that come from a table ----- */

  predicate Consistent(t: Totals) {
    && (forall k :: k in t.byKind ==> t.byKind[k] > 0) && t.duplicates == 0
    && Count(t, File) + Count(t, Symlink) + Count(t, Directory) == t.entries && 0 <= t.escapes <= Count(t, Symlink)
    && (t.largestBytes == 0 ==> t.payloadBytes == 0 && t.largestPath == [])
    && (t.largestBytes > 0 ==> Count(t, File) >= 1 && t.payloadBytes >= t.largestBytes)
  }

  lemma {:induction false} KindsTotal(tree: Tree, paths: seq<Bytes>)
    requires forall i :: 0 <= i < |paths| ==> paths[i] in tree
    ensures Sum(paths, IsKind(tree, File)) + Sum(paths, IsKind(tree, Symlink)) + Sum(paths, IsKind(tree, Directory)) == |paths|
    decreases |paths|
  {
    if paths != [] { KindsTotal(tree, paths[1..]); }
  }

  lemma MeasuredConsistent(host: Host, table: Tree, order: seq<Bytes>, t: Totals)
    requires NoSpecial(table) && Enumerates(table, order) && Measures(host, table, order, t)
    ensures Consistent(t)
  {
    hide Sum, Distinct, Manifest, Folded, Escapes, Less;
    forall i | 0 <= i < |order| ensures order[i] in table { assert order[i] in Elements(order); }
    KindsTotal(table, order);
    CountOf(host, table, order, t, File);
    CountOf(host, table, order, t, Symlink);
    CountOf(host, table, order, t, Directory);
    SumAtMost(order, Leaves(table), IsKind(table, Symlink));
    if t.largestBytes == 0 {
      SumConstant(order, FileSize(table), 0);
    } else {
      assert t.largestPath in Elements(order);
      SumHolds(order, FileSize(table), t.largestPath);
      SumHolds(order, IsKind(table, File), t.largestPath);
    }
  }

  /* ----- sizes ----- */

  /** The largest size for the first `full` files, one less for the others. */
  function Caps(n: nat, most: nat, full: nat): seq<nat> {
    if n == 0 then []
    else [if full > 0 || most == 0 then most else most - 1] + Caps(n - 1, most, if full > 0 then full - 1 else 0)
  }

  lemma {:induction false} CapsTotal(n: nat, most: nat, full: nat)
    ensures |Caps(n, most, full)| == n
    ensures forall k :: 0 <= k < n ==> Caps(n, most, full)[k] == if k < full || most == 0 then most else most - 1
    ensures most > 0 ==> Total(Caps(n, most, full)) == (most - 1) * n + Min(n, full)
    decreases n
  {
    if n > 0 {
      CapsTotal(n - 1, most, if full > 0 then full - 1 else 0);
      if most > 0 { Distributes(most - 1, n - 1, 1); }
    }
  }

  /** Fill up from the front. */
  function Fill(caps: seq<nat>, bytes: nat): seq<nat> {
    if caps == [] then []
    else var x := if bytes <= caps[0] then bytes else caps[0]; [x] + Fill(caps[1..], bytes - x)
  }

  lemma {:induction false} FillTotal(caps: seq<nat>, bytes: nat)
    requires bytes <= Total(caps)
    ensures |Fill(caps, bytes)| == |caps| && Total(Fill(caps, bytes)) == bytes
    ensures forall k :: 0 <= k < |caps| ==> Fill(caps, bytes)[k] <= caps[k]
    ensures caps != [] && caps[0] <= bytes ==> Fill(caps, bytes)[0] == caps[0]
    decreases |caps|
  {
    if caps != [] {
      var x := if bytes <= caps[0] then bytes else caps[0];
      FillTotal(caps[1..], bytes - x);
      var rest := Fill(caps[1..], bytes - x);
      assert ([x] + rest)[1..] == rest;
    }
  }

  function Sizes(t: Totals, b: seq<Bytes>): seq<nat>
    requires Consistent(t) && t.payloadBytes >= 0 && Count(t, File) >= 0
  {
    Fill(Caps(Count(t, File), t.largestBytes, |After(b, t.largestPath)| + 1), t.payloadBytes)
  }

  lemma SizesFit(host: Host, t: Totals, b: seq<Bytes>)
    requires Consistent(t) && Possible(host, t, b) && t.payloadBytes >= 0 && Count(t, File) >= 0
    ensures |Sizes(t, b)| == Count(t, File) && Total(Sizes(t, b)) == t.payloadBytes
    ensures forall k :: 0 <= k < |Sizes(t, b)| ==> Sizes(t, b)[k] <= t.largestBytes
    ensures forall k :: |After(b, t.largestPath)| < k < |Sizes(t, b)| && t.largestBytes > 0 ==> Sizes(t, b)[k] < t.largestBytes
    ensures t.largestBytes > 0 ==> Sizes(t, b)[0] == t.largestBytes
  {
    hide After, TreePaths, Parents, Folded, Count;
    var n, full := Count(t, File), |After(b, t.largestPath)| + 1;
    CapsTotal(n, t.largestBytes, full);
    FillTotal(Caps(n, t.largestBytes, full), t.payloadBytes);
  }

  /* ----- the order in which paths become files, links and directories ----- */

  lemma DistinctConcat(a: seq<Bytes>, b: seq<Bytes>)
    requires Distinct(a) && Distinct(b) && Elements(a) !! Elements(b)
    ensures Distinct(a + b) && Elements(a + b) == Elements(a) + Elements(b)
  {
    hide Distinct;
    ElementCount(a);
    ElementCount(b);
    assert Elements(a + b) == Elements(a) + Elements(b);
    ElementCount(a + b);
  }

  lemma WithinCount(b: seq<Bytes>, s: set<Bytes>)
    requires Distinct(b) && s <= Elements(b)
    ensures Distinct(Within(b, s)) && Elements(Within(b, s)) == s && |Within(b, s)| == |s|
  {
    hide Distinct, Within, Without;
    forall x ensures x in Within(b, s) <==> x in b && x in s { SelectionMembers(b, s, x); }
    forall x ensures x in Elements(Within(b, s)) <==> x in s { assert x in s ==> x in Elements(b); }
    SelectionDistinct(b, s);
    ElementCount(Within(b, s));
  }

  function First(t: Totals): set<Bytes> { if t.largestBytes > 0 then {t.largestPath} else {} }
  function Later(t: Totals, b: seq<Bytes>): set<Bytes> { if t.largestBytes > 0 then After(b, t.largestPath) else {} }
  function Others(t: Totals, b: seq<Bytes>): set<Bytes> { Elements(b) - First(t) - Later(t, b) - Parents(b) }

  /** The largest file, what may be as large, other paths, and directories that must be. */
  function Arranged(t: Totals, b: seq<Bytes>): seq<Bytes> {
    Within(b, First(t)) + Within(b, Later(t, b)) + Within(b, Others(t, b)) + Within(b, Parents(b))
  }

  lemma ArrangedParts(host: Host, t: Totals, b: seq<Bytes>)
    requires Possible(host, t, b)
    ensures Distinct(b) && First(t) <= Elements(b) && Later(t, b) <= Elements(b) && Parents(b) <= Elements(b)
    ensures First(t) !! Later(t, b) && First(t) !! Parents(b) && Later(t, b) !! Parents(b)
  {
    hide Normalized, Less, Dirname;
    IncreasingDistinct(b);
    LessIrreflexive(t.largestPath);
    forall p | p in Parents(b) ensures p in Elements(b) {
      var q :| q in b && Dirname(q) != [] && Dirname(q) == p;
    }
  }

  lemma PartsJoined(b: seq<Bytes>, head: seq<Bytes>, tail: seq<Bytes>)
    requires Distinct(b) && Distinct(head) && Distinct(tail) && Elements(head) == Elements(b) - Elements(tail) && Elements(tail) <= Elements(b)
    ensures Distinct(head + tail) && Elements(head + tail) == Elements(b) && |head + tail| == |b|
    ensures forall k :: 0 <= k < |head| ==> (head + tail)[k] !in Elements(tail)
  {
    hide Distinct;
    DistinctConcat(head, tail);
    ElementCount(b);
    ElementCount(head + tail);
    forall k | 0 <= k < |head| ensures (head + tail)[k] !in Elements(tail) { assert head[k] in Elements(head); }
  }

  lemma FilesJoined(t: Totals, b: seq<Bytes>, x: seq<Bytes>, y: seq<Bytes>, z: seq<Bytes>)
    requires Distinct(x) && Distinct(y) && Distinct(z) && Elements(x) == First(t) && Elements(y) == Later(t, b) && Elements(z) == Others(t, b)
    requires First(t) !! Later(t, b) && First(t) + Later(t, b) <= Elements(b) - Parents(b)
    ensures Distinct(x + y + z) && Elements(x + y + z) == Elements(b) - Parents(b)
  {
    hide Distinct, First, Later, Parents;
    DistinctConcat(x, y);
    DistinctConcat(x + y, z);
  }

  lemma ArrangedAll(host: Host, t: Totals, b: seq<Bytes>)
    requires Possible(host, t, b)
    ensures Distinct(Arranged(t, b)) && Elements(Arranged(t, b)) == Elements(b) && |Arranged(t, b)| == |b|
    ensures forall k :: 0 <= k < |b| - |Parents(b)| ==> Arranged(t, b)[k] !in Parents(b)
  {
    hide Possible, Distinct, Within, First, Later, Others, Parents, Elements;
    ArrangedParts(host, t, b);
    OthersWithin(t, b);
    WithinCount(b, First(t));
    WithinCount(b, Later(t, b));
    WithinCount(b, Others(t, b));
    WithinCount(b, Parents(b));
    var x, y, z, w := Within(b, First(t)), Within(b, Later(t, b)), Within(b, Others(t, b)), Within(b, Parents(b));
    FilesJoined(t, b, x, y, z);
    PartsJoined(b, x + y + z, w);
  }

  lemma OthersWithin(t: Totals, b: seq<Bytes>)
    ensures Others(t, b) <= Elements(b)
  {
  }

  lemma ArrangedFirst(host: Host, t: Totals, b: seq<Bytes>)
    requires Possible(host, t, b) && t.largestBytes > 0
    ensures |Arranged(t, b)| > |After(b, t.largestPath)| && Arranged(t, b)[0] == t.largestPath
    ensures forall k :: 0 < k <= |After(b, t.largestPath)| ==> Arranged(t, b)[k] in After(b, t.largestPath)
  {
    hide Possible, Distinct, Within, After, Parents;
    ArrangedParts(host, t, b);
    WithinCount(b, First(t));
    WithinCount(b, Later(t, b));
    var x, y := Within(b, First(t)), Within(b, Later(t, b));
    assert |First(t)| == 1 && x[0] in Elements(x);
    forall k | 0 < k <= |y| ensures Arranged(t, b)[k] in After(b, t.largestPath) {
      assert Arranged(t, b)[k] == y[k - 1] && y[k - 1] in Elements(y);
    }
  }

  /* ----- the tree ----- */

  const OUTSIDE: Bytes := [47, 46, 46]
  const INSIDE: Bytes := [47, 97]

  lemma NormalOne(name: Bytes)
    requires name != [] && name != DOT && SLASH !in name
    ensures Normpath(name) == name && StripLeft([SLASH] + name) == name
  {
    SplitOne(name);
    hide Split;
    assert [name][1..] == [] && NormFold([], [name], false) == NormFold([name], [], false) == [name];
    assert ([SLASH] + name)[1..] == name;
  }

  /** A link to `/..` leaves the tree wherever it lies, one to `/a` does not. */
  lemma Targets(p: Bytes)
    ensures Escapes(p, OUTSIDE) && !Escapes(p, INSIDE)
  {
    hide Normpath, StripLeft;
    NormalOne(DOTDOT);
    NormalOne([97]);
    assert OUTSIDE == [SLASH] + DOTDOT && INSIDE == [SLASH] + [97];
  }

  function Zip(c: seq<Bytes>, items: seq<Item>): Tree
    requires |c| == |items|
  {
    if c == [] then map[] else Zip(c[1..], items[1..])[c[0] := items[0]]
  }

  lemma {:induction false} ZipAt(c: seq<Bytes>, items: seq<Item>)
    requires |c| == |items| && Distinct(c)
    ensures Zip(c, items).Keys == Elements(c)
    ensures forall k :: 0 <= k < |c| ==> c[k] in Zip(c, items) && Zip(c, items)[c[k]] == items[k]
    decreases |c|
  {
    if c != [] {
      hide Distinct;
      DistinctCons(c);
      ZipAt(c[1..], items[1..]);
      assert c == [c[0]] + c[1..];
      forall k | 0 < k < |c| ensures c[k] in Zip(c, items) && Zip(c, items)[c[k]] == items[k] { assert c[k] == c[1..][k - 1] && c[k] in c[1..]; }
    }
  }

  function ItemAt(t: Totals, sizes: seq<nat>, k: nat): Item
    requires |sizes| == Count(t, File)
  {
    if k < |sizes| then Regular(sizes[k])
    else if k < |sizes| + Count(t, Symlink) then Link(if k < |sizes| + t.escapes then OUTSIDE else INSIDE)
    else Dir
  }

  /** The tree holds, along `c`, the items of the report. */
  ghost predicate Filled(t: Totals, sizes: seq<nat>, c: seq<Bytes>, tree: Tree) {
    && |sizes| == Count(t, File) && Enumerates(tree, c) && |c| == t.entries
    && forall k :: 0 <= k < |c| ==> c[k] in tree && tree[c[k]] == ItemAt(t, sizes, k)
  }

  lemma FillTree(t: Totals, sizes: seq<nat>, c: seq<Bytes>) returns (tree: Tree)
    requires |sizes| == Count(t, File) && Distinct(c) && |c| == t.entries
    ensures Filled(t, sizes, c, tree) && Enumerates(tree, c)
  {
    hide Distinct, Zip, ItemAt, Count;
    var items := seq(|c|, k requires 0 <= k < |c| => ItemAt(t, sizes, k));
    tree := Zip(c, items);
    ZipAt(c, items);
  }

  lemma FilledKinds(t: Totals, sizes: seq<nat>, c: seq<Bytes>, tree: Tree)
    requires Filled(t, sizes, c, tree) && Consistent(t)
    ensures KindCounts(tree, c) == t.byKind && NoSpecial(tree)
  {
    hide Sum, Distinct;
    var i, j := |sizes|, |sizes| + Count(t, Symlink);
    SumThree(c, IsKind(tree, File), i, j, 1, 0, 0);
    SumThree(c, IsKind(tree, Symlink), i, j, 0, 1, 0);
    SumThree(c, IsKind(tree, Directory), i, j, 0, 0, 1);
    KindsOf(t, c, tree);
    forall p | p in tree ensures !tree[p].Special? {
      assert p in Elements(c);
      var k :| 0 <= k < |c| && c[k] == p;
    }
  }

  lemma KindsOf(t: Totals, c: seq<Bytes>, tree: Tree)
    requires Sum(c, IsKind(tree, File)) == Count(t, File) && Sum(c, IsKind(tree, Symlink)) == Count(t, Symlink)
    requires Sum(c, IsKind(tree, Directory)) == Count(t, Directory) && forall k :: k in t.byKind ==> t.byKind[k] > 0
    ensures KindCounts(tree, c) == t.byKind
  {
    hide Sum, IsKind;
    var m := KindCounts(tree, c);
    forall k: Kind ensures (k in m <==> k in t.byKind) && (k in m ==> m[k] == t.byKind[k]) { assert k.Directory? || k.Symlink? || k.File?; }
  }

  lemma FilledSums(t: Totals, sizes: seq<nat>, c: seq<Bytes>, tree: Tree)
    requires Filled(t, sizes, c, tree) && Consistent(t) && Total(sizes) == t.payloadBytes
    ensures Sum(c, FileSize(tree)) == t.payloadBytes && Sum(c, Leaves(tree)) == t.escapes
  {
    hide Sum, Distinct, Escapes, Enumerates;
    var i := |sizes|;
    SumConcat(c[..i], c[i..], FileSize(tree));
    assert c == c[..i] + c[i..];
    SumSizes(c[..i], FileSize(tree), sizes);
    SumConstant(c[i..], FileSize(tree), 0);
    forall k | 0 <= k < |c| ensures Leaves(tree)(c[k]) == if k < i then 0 else if k < i + t.escapes then 1 else 0 { Targets(c[k]); }
    SumThree(c, Leaves(tree), i, i + t.escapes, 0, 1, 0);
  }

  lemma FilledLargest(host: Host, t: Totals, b: seq<Bytes>, tree: Tree)
    requires Consistent(t) && Possible(host, t, b) && t.payloadBytes >= 0 && Count(t, File) >= 0
    requires Filled(t, Sizes(t, b), Arranged(t, b), tree)
    ensures IsLargest(tree, t.largestBytes, t.largestPath)
  {
    hide Possible, Sizes, Arranged, Distinct, Less, Count, Consistent;
    var c, sizes, path := Arranged(t, b), Sizes(t, b), t.largestPath;
    SizesFit(host, t, b);
    NoLargest(t);
    if t.largestBytes > 0 {
      ArrangedFirst(host, t, b);
      assert tree[c[0]] == ItemAt(t, sizes, 0);
    }
    forall p | p in tree && tree[p].Regular?
      ensures tree[p].size <= t.largestBytes && (t.largestBytes > 0 && p != path && tree[p].size == t.largestBytes ==> Less(path, p))
    {
      assert p in Elements(c);
      var k :| 0 <= k < |c| && c[k] == p;
      assert tree[p] == ItemAt(t, sizes, k);
    }
  }

  lemma NoLargest(t: Totals)
    requires Consistent(t)
    ensures t.largestBytes == 0 ==> t.largestPath == []
    ensures t.largestBytes > 0 ==> Count(t, File) > 0
  {
  }

  lemma FilledRooted(host: Host, t: Totals, b: seq<Bytes>, sizes: seq<nat>, tree: Tree)
    requires Consistent(t) && Possible(host, t, b) && |b| == t.entries && Filled(t, sizes, Arranged(t, b), tree)
    ensures Rooted(tree)
  {
    hide Arranged, Distinct, Dirname, Normalized, Less, Room, Folded;
    var c := Arranged(t, b);
    ArrangedAll(host, t, b);
    forall p | p in tree ensures Normalized(p) && IsDirectory(tree, Dirname(p)) {
      assert p in Elements(c) && p in Elements(b);
      var d := Dirname(p);
      if d != [] {
        assert d in Parents(b) && d in Elements(b) && d in Elements(c);
        var k :| 0 <= k < |c| && c[k] == d;
        assert k >= |b| - |Parents(b)|;
      }
    }
  }

  /** Every possible list is the path list of a tree with the reported quantities. */
  lemma ShapeFound(host: Host, t: Totals, b: seq<Bytes>) returns (tree: Tree)
    requires Consistent(t) && Possible(host, t, b) && |b| == t.entries && host.hash(Lines(b)) == t.manifest
    ensures Rooted(tree) && NoSpecial(tree) && tree.Keys == Elements(b) && IsMeasure(host, tree, t)
  {
    hide Sizes, Arranged, Distinct, Sum, KindCounts, IsLargest, Rooted, NoSpecial, Sort, Lines, Room, Less, Parents, Filled;
    var c := Arranged(t, b);
    assert Count(t, File) >= 0 && Count(t, Symlink) >= 0 && t.payloadBytes >= 0;
    SizesFit(host, t, b);
    ArrangedAll(host, t, b);
    tree := FillTree(t, Sizes(t, b), c);
    FilledKinds(t, Sizes(t, b), c, tree);
    FilledSums(t, Sizes(t, b), c, tree);
    FilledLargest(host, t, b, tree);
    FilledRooted(host, t, b, Sizes(t, b), tree);
    SameManifest(host, b, c);
    assert Measures(host, tree, c, t);
  }

  lemma SameManifest(host: Host, b: seq<Bytes>, c: seq<Bytes>)
    requires Increasing(b) && Distinct(c) && Elements(c) == Elements(b)
    ensures Manifest(host, c) == host.hash(Lines(b)) && Folded(host, c) == Folded(host, b) && |b| == |c|
  {
    hide Sort, Lines, Increasing, Distinct;
    forall x ensures x in b <==> x in c { assert x in Elements(b) <==> x in Elements(c); }
    IncreasingDistinct(b);
    SameElements(b, c);
    SortPermutation(b, c);
    SortedDistinct(b);
    SortFixpoint(b);
  }

  /** A list with the manifest's text is the path list of some tree that measures like the
      table if and only if it is possible. */
  lemma ShapeExact(host: Host, table: Tree, order: seq<Bytes>, t: Totals, b: seq<Bytes>)
    requires NoSpecial(table) && Enumerates(table, order) && Measures(host, table, order, t)
    requires Increasing(b) && |b| == t.entries && host.hash(Lines(b)) == t.manifest
    ensures (exists tree :: Rooted(tree) && NoSpecial(tree) && tree.Keys == Elements(b) && IsMeasure(host, tree, t)) <==> Possible(host, t, b)
  {
    hide Measures, Enumerates, NoSpecial, Rooted, Lines, Increasing, Possible, Sort, Elements;
    MeasuredConsistent(host, table, order, t);
    if Possible(host, t, b) { var tree := ShapeFound(host, t, b); }
    forall tree | Rooted(tree) && NoSpecial(tree) && tree.Keys == Elements(b) && IsMeasure(host, tree, t) ensures Possible(host, t, b) {
      var paths :| Enumerates(tree, paths) && Measures(host, tree, paths, t);
      ShapeNeeded(host, tree, paths, t);
      SortedUniqueKeys(tree, paths, b);
    }
  }

  lemma SortedUniqueKeys(tree: Tree, paths: seq<Bytes>, b: seq<Bytes>)
    requires Enumerates(tree, paths) && Increasing(b) && tree.Keys == Elements(b)
    ensures Sort(paths) == b
  {
    hide Sort, Increasing, Distinct;
    IncreasingDistinct(b);
    forall x ensures x in b <==> x in paths { assert x in Elements(b) <==> x in Elements(paths); }
    SameElements(b, paths);
    SortPermutation(b, paths);
    SortedDistinct(b);
    SortFixpoint(b);
  }

  /* ----- what a report determines ----- */

  /** No other way to cut the manifest's text gives a possible list. */
  predicate Pinned(host: Host, t: Totals, a: seq<Bytes>) {
    forall b :: b in Cuts(Lines(a), |a|) && Possible(host, t, b) ==> b == a
  }

  /** The digest stands for its text. */
  ghost predicate Unambiguous(host: Host, text: Bytes) { forall other :: host.hash(other) == host.hash(text) ==> other == text }

  /** Every tree that measures like the table has the table's paths if and only if the
      table's list is pinned. */
  lemma MeasureExact(host: Host, table: Tree, order: seq<Bytes>, t: Totals)
    requires NoSpecial(table) && Enumerates(table, order) && Measures(host, table, order, t)
    requires Unambiguous(host, Lines(Sort(order)))
    ensures (forall tree :: Rooted(tree) && NoSpecial(tree) && IsMeasure(host, tree, t) ==> tree.Keys == table.Keys)
            <==> Pinned(host, t, Sort(order))
  {
    hide Measures, Enumerates, NoSpecial, Rooted, Lines, Possible, Sort, Cuts, IsMeasure, Unambiguous;
    var a := Sort(order);
    TableList(host, table, order, t);
    if Pinned(host, t, a) {
      forall tree | Rooted(tree) && NoSpecial(tree) && IsMeasure(host, tree, t) ensures tree.Keys == table.Keys {
        forall paths | Manifest(host, paths) == t.manifest ensures Lines(Sort(paths)) == Lines(a) { OneText(host, Lines(a), Lines(Sort(paths))); }
        PinnedTree(host, table, order, t, tree);
      }
    } else {
      var b :| b in Cuts(Lines(a), |a|) && Possible(host, t, b) && b != a;
      CutsExact(Lines(a), |a|, b);
      MeasuredConsistent(host, table, order, t);
      var tree := ShapeFound(host, t, b);
      if tree.Keys == table.Keys {
        PossibleSorted(host, t, b);
        SortedUniqueKeys(table, order, b);
      }
    }
  }

  lemma OneText(host: Host, text: Bytes, other: Bytes)
    requires Unambiguous(host, text) && host.hash(other) == host.hash(text)
    ensures other == text
  {
  }

  lemma PossibleSorted(host: Host, t: Totals, b: seq<Bytes>)
    requires Possible(host, t, b)
    ensures Increasing(b)
  {
    hide Increasing, Room;
  }

  lemma TableList(host: Host, table: Tree, order: seq<Bytes>, t: Totals)
    requires Enumerates(table, order) && Measures(host, table, order, t)
    ensures var a := Sort(order); |a| == t.entries && host.hash(Lines(a)) == t.manifest && Elements(a) == table.Keys
  {
    hide Sort, Lines, Sum, Distinct, IsLargest, Folded, Increasing;
    SortedKeys(table, order);
    assert |Sort(order)| == |multiset(Sort(order))| == |order|;
  }

  lemma ManifestOf(host: Host, tree: Tree, paths: seq<Bytes>, t: Totals)
    requires Measures(host, tree, paths, t)
    ensures Manifest(host, paths) == t.manifest
  {
    hide Manifest, Sum, KindCounts, IsLargest;
  }

  lemma PinnedTree(host: Host, table: Tree, order: seq<Bytes>, t: Totals, tree: Tree)
    requires Enumerates(table, order) && Measures(host, table, order, t) && Pinned(host, t, Sort(order))
    requires Rooted(tree) && NoSpecial(tree) && IsMeasure(host, tree, t)
    requires forall paths :: Enumerates(tree, paths) && Manifest(host, paths) == t.manifest ==> Lines(Sort(paths)) == Lines(Sort(order))
    ensures tree.Keys == table.Keys
  {
    hide Enumerates, NoSpecial, Rooted, Lines, Possible, Sort, Cuts, Measures;
    var paths :| Enumerates(tree, paths) && Measures(host, tree, paths, t);
    ManifestOf(host, tree, paths, t);
    ShapeNeeded(host, tree, paths, t);
    TableList(host, table, order, t);
    TableList(host, tree, paths, t);
    CutsExact(Lines(Sort(order)), |Sort(order)|, Sort(paths));
  }
}
