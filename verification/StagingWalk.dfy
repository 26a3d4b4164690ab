/** The walk of the written tree, for every order in which directories may list their
    entries, and its agreement with the assembled table. */
module StagingWalk {
  import opened ByteStrings
  import opened Paths
  import opened Sorting
  import opened Links
  import opened Staging

  /* ----- trees on disk ----- */

  /** The path of a name in a directory; the root's own path is empty. */
  function ChildPath(dir: Bytes, name: Bytes): Bytes {
    if dir == [] then name else dir + [SLASH] + name
  }

  predicate IsDirectory(tree: Tree, d: Bytes) { d == [] || (d in tree && tree[d].Dir?) }

  /** Every entry lies in the root or in a directory of the tree. */
  predicate Rooted(tree: Tree) {
    forall p :: p in tree ==> Normalized(p) && IsDirectory(tree, Dirname(p))
  }

  /** `scan` lists each directory's names, each once, in an order of its own. */
  ghost predicate Lists(tree: Tree, scan: Bytes -> seq<Bytes>) {
    forall d :: IsDirectory(tree, d) ==> ListsOne(tree, d, scan(d))
  }

  ghost predicate ListsOne(tree: Tree, d: Bytes, names: seq<Bytes>) {
    Distinct(names) && forall n :: n in names <==> PlainName(n) && ChildPath(d, n) in tree
  }

  function Children(dir: Bytes, names: seq<Bytes>): (paths: seq<Bytes>)
    ensures |paths| == |names| && forall i :: 0 <= i < |names| ==> paths[i] == ChildPath(dir, names[i])
  {
    seq(|names|, i requires 0 <= i < |names| => ChildPath(dir, names[i]))
  }

  function Subdirectories(tree: Tree, paths: seq<Bytes>): seq<Bytes> {
    if paths == [] then []
    else Subdirectories(tree, paths[..|paths| - 1]) +
         (var p := paths[|paths| - 1]; if p in tree && tree[p].Dir? then [p] else [])
  }

  /* ----- names and directories ----- */

  lemma ChildDirectory(dir: Bytes, name: Bytes)
    requires dir == [] || Normalized(dir)
    requires PlainName(name)
    ensures Dirname(ChildPath(dir, name)) == dir
  {
    hide Dirname, Join, Split, Normalized;
    if dir == [] {
      DirnameName(name);
    } else {
      NormalizedIsPlain(dir);
      JoinSplit(dir);
      JoinEnds(Split(dir));
      DirnameSplit(dir, name);
    }
  }

  lemma PathHasName(p: Bytes) returns (name: Bytes)
    requires Normalized(p)
    ensures PlainName(name) && p == ChildPath(Dirname(p), name) && |Dirname(p)| < |p|
  {
    hide Dirname, Join, Split, Normalized;
    NormalizedIsPlain(p);
    JoinSplit(p);
    var parts := Split(p);
    name := parts[|parts| - 1];
    assert PlainName(name);
    DirnameRelative(parts);
    LastPart(parts);
    var dir := parts[..|parts| - 1];
    if dir == [] {
      JoinNoneOrOne(name);
      assert parts == [name];
    } else {
      PlainInit(parts);
      JoinSnoc(dir, name);
      JoinEnds(dir);
    }
  }

  /** What a directory lists is exactly what lies in it. */
  lemma ChildrenExact(tree: Tree, d: Bytes, names: seq<Bytes>)
    requires Rooted(tree) && IsDirectory(tree, d) && ListsOne(tree, d, names)
    ensures Distinct(Children(d, names))
    ensures forall p :: p in Children(d, names) <==> p in tree && Dirname(p) == d
  {
    hide Dirname, Normalized, PlainName;
    var kids := Children(d, names);
    forall p ensures p in kids <==> p in tree && Dirname(p) == d {
      if p in kids {
        var i :| 0 <= i < |kids| && kids[i] == p;
        assert names[i] in names;
        ChildDirectory(d, names[i]);
      }
      if p in tree && Dirname(p) == d {
        var name := PathHasName(p);
        var i :| 0 <= i < |names| && names[i] == name;
        assert kids[i] == p;
      }
    }
    forall i, j | 0 <= i < j < |kids| ensures kids[i] != kids[j] {
      SameName(d, names[i], names[j]);
    }
  }

  lemma SameName(d: Bytes, a: Bytes, b: Bytes)
    ensures ChildPath(d, a) == ChildPath(d, b) <==> a == b
  {
    if d != [] && ChildPath(d, a) == ChildPath(d, b) {
      var k := |d| + 1;
      assert ChildPath(d, a)[k..] == a && ChildPath(d, b)[k..] == b;
    }
  }

  lemma {:induction false} SubdirectoryMembers(tree: Tree, paths: seq<Bytes>, d: Bytes)
    ensures d in Subdirectories(tree, paths) <==> d in paths && d in tree && tree[d].Dir?
    decreases |paths|
  {
    if paths != [] {
      var init, p := paths[..|paths| - 1], paths[|paths| - 1];
      SubdirectoryMembers(tree, init, d);
      assert paths == init + [p];
    }
  }

  lemma {:induction false} SubdirectoriesDistinct(tree: Tree, paths: seq<Bytes>)
    requires Distinct(paths)
    ensures Distinct(Subdirectories(tree, paths))
    decreases |paths|
  {
    if paths != [] {
      var init, p := paths[..|paths| - 1], paths[|paths| - 1];
      SubdirectoriesDistinct(tree, init);
      SubdirectoryMembers(tree, init, p);
      if p in tree && tree[p].Dir? { DistinctSnoc(Subdirectories(tree, init), p); }
    }
  }

  /* ----- one directory ----- */

  datatype Walk = Walk(paths: seq<Bytes>, kinds: map<Kind, int>, payload: int, sized: seq<(Bytes, nat)>, escapes: int,
                       pending: seq<Bytes>)

  ghost predicate SizedOf(tree: Tree, paths: seq<Bytes>, sized: seq<(Bytes, nat)>) {
    forall p, n: nat :: (p, n) in sized <==> p in paths && p in tree && tree[p] == Regular(n)
  }

  /** The accumulators are those of the paths met. */
  ghost predicate Kept(tree: Tree, w: Walk) {
    Running(tree, w.paths, w.kinds, w.payload, w.escapes) && SizedOf(tree, w.paths, w.sized)
  }

  lemma SizedNext(tree: Tree, paths: seq<Bytes>, sized: seq<(Bytes, nat)>, p: Bytes)
    requires p in tree && SizedOf(tree, paths, sized)
    ensures SizedOf(tree, paths + [p], if tree[p].Regular? then sized + [(p, tree[p].size)] else sized)
  {
    var more := if tree[p].Regular? then sized + [(p, tree[p].size)] else sized;
    forall q, n: nat ensures (q, n) in more <==> q in paths + [p] && q in tree && tree[q] == Regular(n) {
      assert q in paths + [p] <==> q in paths || q == p;
    }
  }

  function VisitedOne(tree: Tree, w: Walk, p: Bytes): Walk
    requires p in tree
  {
    var e := tree[p];
    Walk(w.paths + [p], Bump(w.kinds, KindOf(e)), w.payload + (if e.Regular? then e.size else 0),
         if e.Regular? then w.sized + [(p, e.size)] else w.sized,
         w.escapes + (if e.Link? && Escapes(p, e.target) then 1 else 0),
         if e.Dir? then w.pending + [p] else w.pending)
  }

  method VisitOne(tree: Tree, w: Walk, p: Bytes) returns (r: Result<Walk>)
    requires p in tree
    ensures r == if tree[p].Special? then Fail else Ok(VisitedOne(tree, w, p))
  {
    hide Escapes;
    var e := tree[p];
    var next := w.(paths := w.paths + [p]);
    match e {
      case Link(target) =>
        if Escapes(p, target) { next := next.(escapes := next.escapes + 1); }
      case Dir => next := next.(pending := next.pending + [p]);
      case Regular(size) => next := next.(payload := next.payload + size, sized := next.sized + [(p, size)]);
      case Special => return Fail;
    }
    r := Ok(next.(kinds := Bump(next.kinds, KindOf(e))));
  }

  lemma VisitKeeps(tree: Tree, w: Walk, p: Bytes)
    requires p in tree && Kept(tree, w)
    ensures Kept(tree, VisitedOne(tree, w, p))
  {
    hide Running, SizedOf, Escapes, Bump;
    RunningNext(tree, w.paths, w.kinds, w.payload, w.escapes, p);
    SizedNext(tree, w.paths, w.sized, p);
  }

  lemma VisitAdds(tree: Tree, w: Walk, p: Bytes)
    requires p in tree
    ensures VisitedOne(tree, w, p).paths == w.paths + [p]
    ensures VisitedOne(tree, w, p).pending == w.pending + (if tree[p].Dir? then [p] else [])
  {
    hide Escapes, Bump;
    assert w.pending + [] == w.pending;
  }

  predicate AllOrdinary(tree: Tree, paths: seq<Bytes>) {
    forall i :: 0 <= i < |paths| ==> paths[i] in tree && !tree[paths[i]].Special?
  }

  lemma NothingScanned(tree: Tree)
    ensures Subdirectories(tree, []) == [] && AllOrdinary(tree, [])
  {
  }

  lemma OneScanned(tree: Tree, kids: seq<Bytes>, k: nat)
    requires k < |kids| && kids[k] in tree
    ensures kids[..k + 1] == kids[..k] + [kids[k]]
    ensures Subdirectories(tree, kids[..k + 1]) == Subdirectories(tree, kids[..k]) + (if tree[kids[k]].Dir? then [kids[k]] else [])
    ensures AllOrdinary(tree, kids[..k + 1]) <==> AllOrdinary(tree, kids[..k]) && !tree[kids[k]].Special?
    ensures AllOrdinary(tree, kids) ==> !tree[kids[k]].Special?
  {
    var more := kids[..k + 1];
    assert more == kids[..k] + [kids[k]] && more[..k] == kids[..k] && more[k] == kids[k];
    if AllOrdinary(tree, more) {
      forall i | 0 <= i < k ensures kids[..k][i] in tree && !tree[kids[..k][i]].Special? { assert more[i] == kids[..k][i]; }
    }
  }

  method ScanDirectory(tree: Tree, w: Walk, kids: seq<Bytes>) returns (r: Result<Walk>)
    requires Kept(tree, w) && forall i :: 0 <= i < |kids| ==> kids[i] in tree
    ensures r.Ok? <==> AllOrdinary(tree, kids)
    ensures r.Ok? ==> Kept(tree, r.value) && r.value.paths == w.paths + kids
    ensures r.Ok? ==> r.value.pending == w.pending + Subdirectories(tree, kids)
  {
    hide Kept, VisitedOne, Subdirectories, AllOrdinary;
    var acc := w;
    assert kids[..0] == [];
    NothingScanned(tree);
    for k := 0 to |kids|
      invariant Kept(tree, acc) && acc.paths == w.paths + kids[..k] && AllOrdinary(tree, kids[..k])
      invariant acc.pending == w.pending + Subdirectories(tree, kids[..k])
    {
      VisitKeeps(tree, acc, kids[k]);
      VisitAdds(tree, acc, kids[k]);
      OneScanned(tree, kids, k);
      var next := VisitOne(tree, acc, kids[k]);
      if next.Fail? { return Fail; }
      acc := next.value;
    }
    assert kids[..|kids|] == kids;
    return Ok(acc);
  }

  /* ----- the whole walk ----- */

  /** A directory the walk has heard of: the root, or one lying in a scanned directory. */
  predicate Known(tree: Tree, done: set<Bytes>, d: Bytes) {
    d == [] || (d in tree && tree[d].Dir? && Dirname(d) in done)
  }

  /** Scanned directories have had exactly their entries visited, and every known directory
      is either scanned or waiting. */
  ghost predicate Explored(tree: Tree, w: Walk, done: set<Bytes>) {
    && Distinct(w.paths) && Distinct(w.pending) && AllOrdinary(tree, w.paths)
    && (forall p :: p in w.paths <==> p in tree && Dirname(p) in done)
    && (forall d :: d in done || d in w.pending <==> Known(tree, done, d))
    && (forall d :: d in w.pending ==> d !in done)
  }

  function Directories(tree: Tree): set<Bytes> { {[]} + set p | p in tree && tree[p].Dir? }

  lemma ExploredStart(tree: Tree)
    ensures Explored(tree, Walk([], map[], 0, [], 0, [[]]), {}) && Kept(tree, Walk([], map[], 0, [], 0, [[]]))
  {
    hide Running, Dirname;
    RunningStart(tree);
  }

  /** A waiting directory is one of the tree's and not yet scanned. */
  lemma Waiting(tree: Tree, w: Walk, done: set<Bytes>)
    requires Explored(tree, w, done) && w.pending != []
    ensures var d := w.pending[|w.pending| - 1]; IsDirectory(tree, d) && d !in done && d in Directories(tree)
    ensures done <= Directories(tree)
  {
    hide Distinct, AllOrdinary, Dirname;
    assert w.pending[|w.pending| - 1] in w.pending;
    forall d | d in done ensures d in Directories(tree) { assert Known(tree, done, d); }
  }

  /** The pending stack after scanning its top. */
  lemma PendingNext(tree: Tree, pending: seq<Bytes>, done: set<Bytes>, kids: seq<Bytes>)
    requires Rooted(tree) && pending != [] && Distinct(pending) && Distinct(kids)
    requires forall d :: d in done || d in pending <==> Known(tree, done, d)
    requires forall d :: d in pending ==> d !in done
    requires forall p :: p in kids <==> p in tree && Dirname(p) == pending[|pending| - 1]
    ensures var rest := pending[..|pending| - 1] + Subdirectories(tree, kids);
      var next := done + {pending[|pending| - 1]};
      Distinct(rest) && (forall d :: d in next || d in rest <==> Known(tree, next, d)) && (forall d :: d in rest ==> d !in next)
  {
    hide Dirname, Normalized, Subdirectories, Distinct, IsDirectory;
    var init, top := pending[..|pending| - 1], pending[|pending| - 1];
    var subs := Subdirectories(tree, kids);
    var rest, next := init + subs, done + {top};
    assert pending == init + [top];
    PopDistinct(pending);
    SubdirectoriesDistinct(tree, kids);
    forall d ensures d in subs <==> d in tree && tree[d].Dir? && Dirname(d) == top { SubdirectoryMembers(tree, kids, d); }
    assert top in pending;
    forall d | d in subs ensures d !in pending && d !in done {
      assert Normalized(d);
      NotEmpty(d);
      assert Known(tree, done, d) ==> Dirname(d) in done;
    }
    ConcatDistinct(init, subs);
    forall d ensures d in next || d in rest <==> Known(tree, next, d) {
      assert d in pending <==> d in init || d == top;
      assert d in rest <==> d in init || d in subs;
    }
  }

  lemma NotEmpty(p: Bytes)
    requires Normalized(p)
    ensures p != []
  {
  }

  lemma PopDistinct<T>(s: seq<T>)
    requires Distinct(s) && s != []
    ensures Distinct(s[..|s| - 1]) && s[|s| - 1] !in s[..|s| - 1]
  {
  }

  lemma ConcatDistinct<T>(a: seq<T>, b: seq<T>)
    requires Distinct(a) && Distinct(b) && forall x :: x in b ==> x !in a
    ensures Distinct(a + b)
  {
    var s := a + b;
    forall i, j | 0 <= i < j < |s| ensures s[i] != s[j] {
      if i < |a| <= j { assert s[j] in b && s[i] in a; }
    }
  }

  lemma ExploredNext(tree: Tree, w: Walk, done: set<Bytes>, kids: seq<Bytes>, next: Walk)
    requires Rooted(tree) && Explored(tree, w, done) && w.pending != []
    requires Distinct(kids) && AllOrdinary(tree, kids)
    requires forall p :: p in kids <==> p in tree && Dirname(p) == w.pending[|w.pending| - 1]
    requires next.paths == w.paths + kids
    requires next.pending == w.pending[..|w.pending| - 1] + Subdirectories(tree, kids)
    ensures Explored(tree, next, done + {w.pending[|w.pending| - 1]})
  {
    hide Dirname, Rooted, Subdirectories, Distinct, Known;
    var top := w.pending[|w.pending| - 1];
    PendingNext(tree, w.pending, done, kids);
    assert top in w.pending;
    forall p | p in kids ensures p !in w.paths { assert Dirname(p) == top; }
    ConcatDistinct(w.paths, kids);
    forall p ensures p in next.paths <==> p in tree && Dirname(p) in done + {top} {
      assert p in next.paths <==> p in w.paths || p in kids;
    }
  }

  /** When nothing is waiting, every entry has been visited. */
  lemma {:induction false} NothingMissed(tree: Tree, w: Walk, done: set<Bytes>, p: Bytes)
    requires Rooted(tree) && Explored(tree, w, done) && w.pending == [] && p in tree
    ensures Dirname(p) in done
    decreases |p|
  {
    hide Dirname, Normalized, Distinct, AllOrdinary;
    var d := Dirname(p);
    var _ := PathHasName(p);
    if d != [] { NothingMissed(tree, w, done, d); }
    assert Known(tree, done, d);
  }

  lemma WalkComplete(tree: Tree, w: Walk, done: set<Bytes>)
    requires Rooted(tree) && Explored(tree, w, done) && w.pending == []
    ensures Enumerates(tree, w.paths) && NoSpecial(tree)
  {
    hide Dirname, Rooted, Distinct, Known;
    forall p ensures p in w.paths <==> p in tree {
      if p in tree { NothingMissed(tree, w, done, p); }
    }
    assert Elements(w.paths) == tree.Keys;
    forall p | p in tree ensures !tree[p].Special? {
      var i :| 0 <= i < |w.paths| && w.paths[i] == p;
    }
  }

  lemma SizedNonEmpty(tree: Tree, w: Walk)
    requires Rooted(tree) && Kept(tree, w)
    ensures forall i :: 0 <= i < |w.sized| ==> w.sized[i].0 != []
  {
    hide Running, Dirname, Split;
    forall i | 0 <= i < |w.sized| ensures w.sized[i].0 != [] {
      assert (w.sized[i].0, w.sized[i].1) in w.sized;
    }
  }

  lemma LargestOfSized(tree: Tree, paths: seq<Bytes>, sized: seq<(Bytes, nat)>, bytes: nat, path: Bytes)
    requires SizedOf(tree, paths, sized)
    requires forall i :: 0 <= i < |sized| ==> sized[i].1 <= bytes
    requires bytes == 0 ==> path == []
    requires bytes > 0 ==> (path, bytes) in sized && forall i :: 0 <= i < |sized| && sized[i].1 == bytes ==> !Less(sized[i].0, path)
    ensures LargestIn(tree, paths, bytes, path)
  {
    hide Less;
    forall p | p in paths && p in tree && tree[p].Regular?
      ensures tree[p].size <= bytes && (bytes > 0 && tree[p].size == bytes ==> !Less(p, path))
    {
      assert (p, tree[p].size) in sized;
    }
    forall p | p in paths && p in tree && bytes > 0 && tree[p] == Regular(bytes) && p != path ensures Less(path, p) {
      LessTotal(path, p);
    }
  }

  /** The walk refuses exactly the trees that hold something other than files, directories
      and links; otherwise it meets every entry once and reports the tree's totals. */
  method Traverse(host: Host, tree: Tree, scan: Bytes -> seq<Bytes>) returns (r: Result<Totals>, ghost visited: seq<Bytes>)
    requires Rooted(tree) && Lists(tree, scan)
    ensures r.Ok? <==> NoSpecial(tree)
    ensures r.Ok? ==> Enumerates(tree, visited) && Measures(host, tree, visited, r.value)
  {
    hide Rooted, Explored, Kept, Directories, Measures, Enumerates, IsDirectory, Distinct, Less, LargestIn, Dirname, PlainName, Manifest, Folded, Elements;
    var w := Walk([], map[], 0, [], 0, [[]]);
    ghost var done: set<Bytes> := {};
    ExploredStart(tree);
    while w.pending != []
      invariant Explored(tree, w, done) && Kept(tree, w)
      decreases Directories(tree) - done
    {
      var top := w.pending[|w.pending| - 1];
      Waiting(tree, w, done);
      var kids := Children(top, scan(top));
      ChildrenExact(tree, top, scan(top));
      Listed(tree, kids);
      PopKeeps(tree, w);
      var next := ScanDirectory(tree, w.(pending := w.pending[..|w.pending| - 1]), kids);
      if next.Fail? {
        visited := [];
        r := Fail;
        return;
      }
      ExploredNext(tree, w, done, kids, next.value);
      w := next.value;
      done := done + {top};
    }
    WalkComplete(tree, w, done);
    SizedNonEmpty(tree, w);
    var largest, path := LargestRegularFile(w.sized);
    LargestKept(tree, w, largest, path);
    var siblings := CaseFoldedSiblings(host, w.paths);
    var t := Totals(|w.paths|, w.kinds, w.payload, largest, path, Manifest(host, w.paths), siblings,
                    |w.paths| - |Elements(w.paths)|, w.escapes);
    RunningKept(tree, w);
    Concluded(host, tree, w.paths, w.paths, t);
    visited := w.paths;
    r := Ok(t);
  }

  lemma PopKeeps(tree: Tree, w: Walk)
    requires Kept(tree, w) && w.pending != []
    ensures Kept(tree, w.(pending := w.pending[..|w.pending| - 1]))
  {
    hide Running, SizedOf;
  }

  lemma Listed(tree: Tree, kids: seq<Bytes>)
    requires forall p :: p in kids ==> p in tree
    ensures forall i :: 0 <= i < |kids| ==> kids[i] in tree
    ensures AllOrdinary(tree, kids) || !NoSpecial(tree)
  {
  }

  lemma RunningKept(tree: Tree, w: Walk)
    requires Kept(tree, w)
    ensures Running(tree, w.paths, w.kinds, w.payload, w.escapes)
  {
    hide Running, SizedOf;
  }

  lemma LargestKept(tree: Tree, w: Walk, bytes: nat, path: Bytes)
    requires Kept(tree, w) && forall i :: 0 <= i < |w.sized| ==> w.sized[i].1 <= bytes
    requires bytes == 0 ==> path == []
    requires bytes > 0 ==> (path, bytes) in w.sized && forall i :: 0 <= i < |w.sized| && w.sized[i].1 == bytes ==> !Less(w.sized[i].0, path)
    ensures LargestIn(tree, w.paths, bytes, path)
  {
    hide Running, SizedOf, LargestIn, Less;
    LargestOfSized(tree, w.paths, w.sized, bytes, path);
  }
}
