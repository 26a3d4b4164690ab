/** Measuring the staging tree twice: from the assembled table, and by a walk of the written
    tree that scans directories in whatever order the filesystem gives. */
module Staging {
  import opened ByteStrings
  import opened Paths
  import opened Sorting
  import opened Folds
  import opened Links

  datatype Item = Dir | Regular(size: nat) | Link(target: Bytes) | Special

  type Tree = map<Bytes, Item>

  /** The digest and the case folding, both left abstract. */
  datatype Host = Host(hash: Bytes -> Bytes, fold: Bytes -> Bytes)

  const NEWLINE: Byte := 10

  /* ----- quantities ----- */

  datatype Totals = Totals(entries: nat, byKind: map<Kind, int>, payloadBytes: int, largestBytes: nat, largestPath: Bytes,
                           manifest: Bytes, caseFolded: int, duplicates: int, escapes: int)

  function KindOf(item: Item): Kind {
    match item
    case Dir => Directory
    case Regular(_) => File
    case Link(_) => Symlink
    case Special => File
  }

  function IsKind(tree: Tree, kind: Kind): Bytes -> int {
    p => if p in tree && KindOf(tree[p]) == kind then 1 else 0
  }

  function FileSize(tree: Tree): Bytes -> int {
    p => if p in tree && tree[p].Regular? then tree[p].size else 0
  }

  function Leaves(tree: Tree): Bytes -> int {
    p => if p in tree && tree[p].Link? && Escapes(p, tree[p].target) then 1 else 0
  }

  /** The kinds that occur, with how often. */
  function KindCounts(tree: Tree, paths: seq<Bytes>): map<Kind, int> {
    map k | k in {Directory, Symlink, File} && Sum(paths, IsKind(tree, k)) > 0 :: Sum(paths, IsKind(tree, k))
  }

  /** The text that is hashed: each path followed by a newline. */
  function Lines(paths: seq<Bytes>): Bytes {
    if paths == [] then [] else paths[0] + [NEWLINE] + Lines(paths[1..])
  }

  function Manifest(host: Host, paths: seq<Bytes>): Bytes { host.hash(Lines(Sort(paths))) }

  function Folded(host: Host, paths: seq<Bytes>): set<Bytes> { set p | p in paths :: host.fold(p) }

  /** `bytes` bounds every file, and `path` is the first path in byte order that attains it;
      if all files are empty there is no such path. */
  predicate IsLargest(tree: Tree, bytes: nat, path: Bytes) {
    && (forall p :: p in tree && tree[p].Regular? ==> tree[p].size <= bytes)
    && (bytes == 0 ==> path == [])
    && (bytes > 0 ==> path in tree && tree[path] == Regular(bytes)
                      && forall p :: p in tree && tree[p] == Regular(bytes) && p != path ==> Less(path, p))
  }

  /** What both measurements must report, whatever enumeration of the tree is used. */
  predicate Measures(host: Host, tree: Tree, paths: seq<Bytes>, t: Totals) {
    && t.entries == |paths| && t.byKind == KindCounts(tree, paths) && t.payloadBytes == Sum(paths, FileSize(tree))
    && IsLargest(tree, t.largestBytes, t.largestPath) && t.manifest == Manifest(host, paths)
    && t.caseFolded == |paths| - |Folded(host, paths)| && t.duplicates == 0
    && t.escapes == Sum(paths, Leaves(tree))
  }

  /** Each path of the tree, once, in some order. */
  predicate Enumerates(tree: Tree, paths: seq<Bytes>) {
    Distinct(paths) && Elements(paths) == tree.Keys
  }

  lemma LargestUnique(tree: Tree, b1: nat, p1: Bytes, b2: nat, p2: Bytes)
    requires IsLargest(tree, b1, p1) && IsLargest(tree, b2, p2)
    ensures b1 == b2 && p1 == p2
  {
    hide Less;
    if b1 > 0 && b2 > 0 && p1 != p2 {
      LessAsymmetric(p1, p2);
    }
  }

  /** The totals are a property of the tree: any two measurements over any two enumerations
      report the same. */
  lemma TotalsAgree(host: Host, tree: Tree, a: seq<Bytes>, s: Totals, b: seq<Bytes>, t: Totals)
    requires Enumerates(tree, a) && Enumerates(tree, b)
    requires Measures(host, tree, a, s) && Measures(host, tree, b, t)
    ensures s == t
  {
    hide IsLargest, Sum, Distinct, Sort, Lines;
    forall x ensures x in a <==> x in b {
      assert x in Elements(a) <==> x in Elements(b);
    }
    SameElements(a, b);
    forall k ensures Sum(a, IsKind(tree, k)) == Sum(b, IsKind(tree, k)) { SumPermutation(a, b, IsKind(tree, k)); }
    SumPermutation(a, b, FileSize(tree));
    SumPermutation(a, b, Leaves(tree));
    SortPermutation(a, b);
    LargestUnique(tree, s.largestBytes, s.largestPath, t.largestBytes, t.largestPath);
    assert Folded(host, a) == Folded(host, b);
    assert KindCounts(tree, a) == KindCounts(tree, b);
  }

  /* ----- shared pieces of both measurements ----- */

  function Bump(m: map<Kind, int>, k: Kind): map<Kind, int> { m[k := (if k in m then m[k] else 0) + 1] }

  lemma KindCountsNext(tree: Tree, paths: seq<Bytes>, p: Bytes)
    requires p in tree
    ensures KindCounts(tree, paths + [p]) == Bump(KindCounts(tree, paths), KindOf(tree[p]))
  {
    hide Sum;
    var k0 := KindOf(tree[p]);
    forall k ensures Sum(paths + [p], IsKind(tree, k)) == Sum(paths, IsKind(tree, k)) + (if k == k0 then 1 else 0) {
      SumSnoc(paths, p, IsKind(tree, k));
    }
    forall k ensures Sum(paths, IsKind(tree, k)) >= 0 { CountsNonNegative(tree, paths, k); }
    var a, b := KindCounts(tree, paths + [p]), Bump(KindCounts(tree, paths), k0);
    forall k ensures (k in a <==> k in b) && (k in a && k in b ==> a[k] == b[k]) {
      assert k.Directory? || k.Symlink? || k.File?;
    }
  }

  lemma {:induction false} CountsNonNegative(tree: Tree, paths: seq<Bytes>, k: Kind)
    ensures Sum(paths, IsKind(tree, k)) >= 0
    decreases |paths|
  {
    if paths != [] { CountsNonNegative(tree, paths[1..], k); }
  }

  /** Paths are grouped by their folded form; all but one of each group are counted. */
  method CaseFoldedSiblings(host: Host, paths: seq<Bytes>) returns (siblings: int)
    ensures siblings == |paths| - |Folded(host, paths)|
  {
    hide Sum, Distinct, Grouped, Folded;
    var groups: map<Bytes, int> := map[];
    ghost var keys: seq<Bytes> := [];
    NoGroups(host);
    assert paths[..0] == [];
    for k := 0 to |paths|
      invariant Grouped(host, paths[..k], groups, keys)
    {
      var f := host.fold(paths[k]);
      GroupNext(host, paths, k, groups, keys);
      keys := if f in groups then keys else keys + [f];
      groups := groups[f := (if f in groups then groups[f] else 0) + 1];
    }
    assert paths[..|paths|] == paths;
    siblings := CountExtras(groups, keys, host, paths);
  }

  method CountExtras(groups: map<Bytes, int>, ghost keys: seq<Bytes>, ghost host: Host, ghost paths: seq<Bytes>)
    returns (siblings: int)
    requires Grouped(host, paths, groups, keys)
    ensures siblings == |paths| - |Folded(host, paths)|
  {
    hide Sum, Distinct, Grouped, Folded;
    siblings := 0;
    var todo := groups.Keys;
    ghost var done: seq<Bytes> := [];
    NothingSummed(groups);
    while todo != {}
      invariant todo <= groups.Keys && Tallied(groups, todo, done, siblings)
      decreases todo
    {
      var f :| f in todo;
      TallyNext(host, paths, groups, keys, todo, done, siblings, f);
      if groups[f] > 1 { siblings := siblings + (groups[f] - 1); }
      done := done + [f];
      todo := todo - {f};
    }
    GroupTotal(host, paths, groups, keys, done, siblings);
  }

  /** The groups already added up. */
  ghost predicate Tallied(groups: map<Bytes, int>, todo: set<Bytes>, done: seq<Bytes>, siblings: int) {
    Distinct(done) && Elements(done) == groups.Keys - todo && siblings == Sum(done, CountIn(groups)) - |done|
  }

  lemma NothingSummed(groups: map<Bytes, int>)
    ensures Tallied(groups, groups.Keys, [], 0)
  {
  }

  lemma TallyNext(host: Host, paths: seq<Bytes>, groups: map<Bytes, int>, keys: seq<Bytes>, todo: set<Bytes>,
                  done: seq<Bytes>, siblings: int, f: Bytes)
    requires Grouped(host, paths, groups, keys) && Tallied(groups, todo, done, siblings) && f in todo && todo <= groups.Keys
    ensures groups[f] >= 1 && Tallied(groups, todo - {f}, done + [f], siblings + (groups[f] - 1))
  {
    hide Sum, Distinct;
    SumSnoc(done, f, CountIn(groups));
    assert f !in Elements(done);
    DistinctSnoc(done, f);
  }

  function CountIn(groups: map<Bytes, int>): Bytes -> int { f => if f in groups then groups[f] else 0 }

  /** The groups count the paths seen, under each folded name once. */
  ghost predicate Grouped(host: Host, paths: seq<Bytes>, groups: map<Bytes, int>, keys: seq<Bytes>) {
    && groups.Keys == Folded(host, paths) == Elements(keys) && Distinct(keys)
    && Sum(keys, CountIn(groups)) == |paths| && forall f :: f in groups ==> groups[f] >= 1
  }

  lemma NoGroups(host: Host)
    ensures Grouped(host, [], map[], [])
  {
  }

  lemma {:induction false} SumBump(keys: seq<Bytes>, groups: map<Bytes, int>, f: Bytes)
    requires Distinct(keys) && f in groups
    ensures Sum(keys, CountIn(groups[f := groups[f] + 1])) == Sum(keys, CountIn(groups)) + (if f in keys then 1 else 0)
    decreases |keys|
  {
    if keys != [] {
      DistinctCons(keys);
      SumBump(keys[1..], groups, f);
    }
  }

  lemma GroupNext(host: Host, paths: seq<Bytes>, k: nat, groups: map<Bytes, int>, keys: seq<Bytes>)
    requires k < |paths| && Grouped(host, paths[..k], groups, keys)
    ensures var f := host.fold(paths[k]);
      Grouped(host, paths[..k + 1], groups[f := (if f in groups then groups[f] else 0) + 1], if f in groups then keys else keys + [f])
  {
    hide Sum, Distinct;
    var f := host.fold(paths[k]);
    assert paths[..k + 1] == paths[..k] + [paths[k]];
    assert Folded(host, paths[..k + 1]) == Folded(host, paths[..k]) + {f};
    assert f in groups <==> f in Elements(keys);
    if f in groups {
      SumBump(keys, groups, f);
    } else {
      var more := groups[f := 1];
      DistinctSnoc(keys, f);
      SumSnoc(keys, f, CountIn(more));
      forall i | 0 <= i < |keys| ensures CountIn(more)(keys[i]) == CountIn(groups)(keys[i]) {
        assert keys[i] in Elements(keys);
      }
      SumEqual(keys, CountIn(more), CountIn(groups));
    }
  }

  lemma GroupTotal(host: Host, paths: seq<Bytes>, groups: map<Bytes, int>, keys: seq<Bytes>, done: seq<Bytes>, siblings: int)
    requires Grouped(host, paths, groups, keys) && Tallied(groups, {}, done, siblings)
    ensures siblings == |paths| - |Folded(host, paths)|
  {
    hide Sum, Distinct;
    forall x ensures x in keys <==> x in done { assert x in Elements(keys) <==> x in Elements(done); }
    SameElements(keys, done);
    SumPermutation(keys, done, CountIn(groups));
    ElementCount(done);
  }

  /* ----- running totals, one entry at a time ----- */

  ghost predicate Running(tree: Tree, paths: seq<Bytes>, kinds: map<Kind, int>, payload: int, escapes: int) {
    kinds == KindCounts(tree, paths) && payload == Sum(paths, FileSize(tree)) && escapes == Sum(paths, Leaves(tree))
  }

  lemma RunningStart(tree: Tree)
    ensures Running(tree, [], map[], 0, 0)
  {
  }

  lemma RunningNext(tree: Tree, paths: seq<Bytes>, kinds: map<Kind, int>, payload: int, escapes: int, p: Bytes)
    requires p in tree && Running(tree, paths, kinds, payload, escapes)
    ensures Running(tree, paths + [p], Bump(kinds, KindOf(tree[p])),
                    payload + (if tree[p].Regular? then tree[p].size else 0),
                    escapes + (if tree[p].Link? && Escapes(p, tree[p].target) then 1 else 0))
  {
    hide Sum, KindCounts, Bump, Escapes;
    KindCountsNext(tree, paths, p);
    SumSnoc(paths, p, FileSize(tree));
    SumSnoc(paths, p, Leaves(tree));
  }

  /* ----- the largest file ----- */

  /** The largest of the paths met so far. */
  predicate LargestIn(tree: Tree, paths: seq<Bytes>, bytes: nat, path: Bytes) {
    && (forall p :: p in paths && p in tree && tree[p].Regular? ==> tree[p].size <= bytes)
    && (bytes == 0 ==> path == [])
    && (bytes > 0 ==> path in paths && path in tree && tree[path] == Regular(bytes)
                      && forall p :: p in paths && p in tree && tree[p] == Regular(bytes) && p != path ==> Less(path, p))
  }

  lemma LargestOverall(tree: Tree, paths: seq<Bytes>, bytes: nat, path: Bytes)
    requires Enumerates(tree, paths) && LargestIn(tree, paths, bytes, path)
    ensures IsLargest(tree, bytes, path)
  {
    hide Less, Distinct;
    forall p ensures p in paths <==> p in tree { assert p in Elements(paths) <==> p in tree.Keys; }
  }

  lemma LargestNext(tree: Tree, paths: seq<Bytes>, bytes: nat, path: Bytes, p: Bytes)
    requires p in tree && LargestIn(tree, paths, bytes, path)
    requires forall q :: q in paths ==> Less(q, p)
    ensures var grows := tree[p].Regular? && tree[p].size > bytes;
      LargestIn(tree, paths + [p], if grows then tree[p].size else bytes, if grows then p else path)
  {
    hide Less;
    forall q ensures q in paths + [p] <==> q in paths || q == p { }
  }

  /** One (path, size) pair per file met, in whatever order the files were met: the greatest
      size, ties going to the path whose bytes sort first. */
  method LargestRegularFile(sized: seq<(Bytes, nat)>) returns (bytes: nat, path: Bytes)
    requires forall i :: 0 <= i < |sized| ==> sized[i].0 != []
    ensures forall i :: 0 <= i < |sized| ==> sized[i].1 <= bytes
    ensures bytes == 0 ==> path == []
    ensures bytes > 0 ==> (path, bytes) in sized && forall i :: 0 <= i < |sized| && sized[i].1 == bytes ==> !Less(sized[i].0, path)
  {
    hide Less;
    bytes, path := 0, [];
    for k := 0 to |sized|
      invariant forall i :: 0 <= i < k ==> sized[i].1 <= bytes
      invariant bytes == 0 ==> path == []
      invariant bytes > 0 ==> path != [] && (path, bytes) in sized[..k]
      invariant bytes > 0 ==> forall i :: 0 <= i < k && sized[i].1 == bytes ==> !Less(sized[i].0, path)
    {
      var (p, size) := sized[k];
      assert sized[..k + 1] == sized[..k] + [(p, size)];
      LessIrreflexive(p);
      if size > bytes {
        bytes, path := size, p;
      } else if size == bytes && path != [] {
        if Less(p, path) {
          forall i | 0 <= i < k && sized[i].1 == bytes ensures !Less(sized[i].0, p) {
            if Less(sized[i].0, p) { LessTransitive(sized[i].0, p, path); }
          }
          path := p;
        }
      }
    }
    assert sized[..|sized|] == sized;
  }

  predicate NoSpecial(tree: Tree) { forall p :: p in tree ==> !tree[p].Special? }

  /** What the assembled table says about itself; `order` is the table's own key order. */
  method BuilderTotals(host: Host, table: Tree, order: seq<Bytes>) returns (t: Totals)
    requires Enumerates(table, order) && NoSpecial(table)
    ensures Measures(host, table, order, t)
  {
    hide Sum, Distinct, Enumerates, Measures, Elements, KindCounts, Bump, Running, LargestIn, Increasing, Sort, Manifest, Less, Folded, Escapes, NoSpecial;
    var sorted := Sort(order);
    SortedKeys(table, order);
    var kinds: map<Kind, int> := map[];
    var payload, escapes := 0, 0;
    var largest: nat, path: Bytes := 0, [];
    assert sorted[..0] == [];
    RunningStart(table);
    LargestStart(table);
    for k := 0 to |sorted|
      invariant Running(table, sorted[..k], kinds, payload, escapes)
      invariant LargestIn(table, sorted[..k], largest, path)
    {
      var p := sorted[k];
      KeyAt(table, order, k);
      var entry := table[p];
      assert sorted[..k + 1] == sorted[..k] + [p];
      RunningNext(table, sorted[..k], kinds, payload, escapes, p);
      LargestNext(table, sorted[..k], largest, path, p);
      kinds := Bump(kinds, KindOf(entry));
      if entry.Regular? {
        payload := payload + entry.size;
        if entry.size > largest { largest, path := entry.size, p; }
      } else if entry.Link? {
        if Escapes(p, entry.target) { escapes := escapes + 1; }
      }
    }
    assert sorted[..|sorted|] == sorted;
    var siblings := CaseFoldedSiblings(host, order);
    t := Totals(|order|, kinds, payload, largest, path, Manifest(host, order), siblings, |order| - |Elements(order)|, escapes);
    Concluded(host, table, sorted, order, t);
  }

  /** Running totals over one enumeration, reported over another. */
  lemma Concluded(host: Host, tree: Tree, done: seq<Bytes>, order: seq<Bytes>, t: Totals)
    requires Enumerates(tree, done) && Enumerates(tree, order) && multiset(done) == multiset(order)
    requires Running(tree, done, t.byKind, t.payloadBytes, t.escapes)
    requires LargestIn(tree, done, t.largestBytes, t.largestPath)
    requires t.entries == |order| && t.manifest == Manifest(host, order)
    requires t.caseFolded == |order| - |Folded(host, order)| && t.duplicates == |order| - |Elements(order)|
    ensures Measures(host, tree, order, t)
  {
    hide Sum, Distinct, Elements, KindCounts, LargestIn, Folded, IsLargest, Manifest;
    ElementCount(order);
    LargestOverall(tree, done, t.largestBytes, t.largestPath);
    SameTotals(tree, done, order);
  }

  lemma LargestStart(tree: Tree)
    ensures LargestIn(tree, [], 0, [])
  {
  }

  lemma SortedKeys(tree: Tree, order: seq<Bytes>)
    requires Enumerates(tree, order)
    ensures Enumerates(tree, Sort(order)) && Increasing(Sort(order)) && multiset(Sort(order)) == multiset(order)
  {
    hide Less, Distinct, Sorted, Increasing;
    SortSorts(order);
    var sorted := Sort(order);
    forall x ensures x in sorted <==> x in order { assert x in multiset(sorted) <==> x in multiset(order); }
    assert Elements(sorted) == Elements(order);
    ElementCount(order);
    assert |sorted| == |multiset(sorted)| == |multiset(order)| == |order|;
    ElementCount(sorted);
    SortedDistinct(sorted);
  }

  lemma KeyAt(tree: Tree, order: seq<Bytes>, k: nat)
    requires Enumerates(tree, order) && k < |Sort(order)|
    ensures Sort(order)[k] in tree && forall q :: q in Sort(order)[..k] ==> Less(q, Sort(order)[k])
  {
    hide Less, Distinct, Sort;
    SortedKeys(tree, order);
    var sorted := Sort(order);
    assert sorted[k] in Elements(sorted);
    forall q | q in sorted[..k] ensures Less(q, sorted[k]) {
      var i :| 0 <= i < k && sorted[i] == q;
    }
  }

  /** Sums do not depend on the enumeration. */
  lemma SameTotals(tree: Tree, a: seq<Bytes>, b: seq<Bytes>)
    requires multiset(a) == multiset(b)
    ensures KindCounts(tree, a) == KindCounts(tree, b)
    ensures Sum(a, FileSize(tree)) == Sum(b, FileSize(tree)) && Sum(a, Leaves(tree)) == Sum(b, Leaves(tree))
  {
    hide Sum;
    forall k ensures Sum(a, IsKind(tree, k)) == Sum(b, IsKind(tree, k)) { SumPermutation(a, b, IsKind(tree, k)); }
    SumPermutation(a, b, FileSize(tree));
    SumPermutation(a, b, Leaves(tree));
    assert KindCounts(tree, a) == KindCounts(tree, b);
  }
}
