/** Layers with no entry below one of their own links: when they can be staged, and the tree
    they leave, said without lookups. */
module StagePlain {
  import opened ByteStrings
  import opened Paths
  import opened Initrd
  import opened StagePlan
  import opened StageDisk
  import opened StageLookup
  import opened StageRuns
  import opened StageTree

  function At(base: Where, e: Entry): Where { base + Split(e.name) }

  /** `w` lies properly below `d`, both below the staging root. */
  predicate Inside(d: Where, w: Where) { |d| < |w| && w[..|d|] == d }

  predicate NoneBelowLink(entries: seq<Entry>) {
    forall i, j :: 0 <= i < |entries| && 0 <= j < |entries| && Inside(Split(entries[j].name), Split(entries[i].name)) ==> !entries[j].kind.Symlink?
  }

  /** An entry lies in the root or in a directory of the layer. */
  predicate Housed(entries: seq<Entry>, i: nat)
    requires i < |entries|
  {
    var at := Split(entries[i].name);
    |at| > 1 ==> exists m :: 0 <= m < |entries| && Split(entries[m].name) == Up(at) && entries[m].kind.Directory?
  }

  predicate LinkPoints(e: Entry) { e.kind.Symlink? ==> e.data != [] }

  /** Every entry lies in a directory of the layer, and every link points somewhere. */
  predicate LayerClosed(entries: seq<Entry>) { forall i :: 0 <= i < |entries| ==> Housed(entries, i) && LinkPoints(entries[i]) }

  predicate RootUsable(host: Host, root: Node) { root.kind.Directory? && Searchable(host, root) && Writable(host, root) }

  /* ----- walking down where there are no links ----- */

  /** Every directory from `cur` down to the last but one component is there and open. */
  predicate OpenDown(host: Host, nodes: Nodes, cur: Where, comps: seq<Bytes>) {
    forall m :: 0 <= m < |comps| ==> Enterable(host, nodes, cur + comps[..m])
  }

  lemma {:induction false} WalkDown(host: Host, nodes: Nodes, cur: Where, comps: seq<Bytes>, follow: bool, fuel: nat)
    requires comps != [] && Plain(comps)
    requires forall m :: 0 < m <= |comps| && cur + comps[..m] in nodes ==> !nodes[cur + comps[..m]].kind.Symlink?
    ensures Find(host, nodes, cur, comps, follow, fuel) == if OpenDown(host, nodes, cur, comps) then Ok(cur + comps) else Fail
    decreases |comps|
  {
    hide Permits, Split;
    var c, rest := comps[0], comps[1..];
    var next := cur + [c];
    assert PlainName(c);
    assert comps[..1] == [c] && comps[..0] == [] && cur + [] == cur;
    if rest == [] {
      assert comps == [c];
    } else {
      forall m | 0 <= m <= |rest| ensures next + rest[..m] == cur + comps[..m + 1] { assert comps[..m + 1] == [c] + rest[..m]; }
      assert rest[..0] == [] && next + [] == next;
      assert next + rest == cur + comps;
      if next in nodes && nodes[next].kind.Directory? { WalkDown(host, nodes, next, rest, follow, fuel); }
      OpenDownNext(host, nodes, cur, comps);
    }
  }

  lemma OpenDownNext(host: Host, nodes: Nodes, cur: Where, comps: seq<Bytes>)
    requires |comps| > 1
    ensures OpenDown(host, nodes, cur, comps) <==> Enterable(host, nodes, cur) && OpenDown(host, nodes, cur + [comps[0]], comps[1..])
    ensures OpenDown(host, nodes, cur + [comps[0]], comps[1..]) ==> Enterable(host, nodes, cur + [comps[0]])
  {
    hide Enterable;
    var c, rest := comps[0], comps[1..];
    var next := cur + [c];
    assert cur + comps[..0] == cur && next + rest[..0] == next;
    assert forall m :: 0 <= m < |rest| ==> next + rest[..m] == cur + comps[..m + 1];
    if OpenDown(host, nodes, cur, comps) {
      forall m | 0 <= m < |rest| ensures Enterable(host, nodes, next + rest[..m]) { assert Enterable(host, nodes, cur + comps[..m + 1]); }
    }
    if Enterable(host, nodes, cur) && OpenDown(host, nodes, next, rest) {
      forall m | 0 <= m < |comps| ensures Enterable(host, nodes, cur + comps[..m]) {
        if m > 0 { assert next + rest[..m - 1] == cur + comps[..m]; }
      }
    }
  }

  /* ----- the order of a layer ----- */

  lemma PathFacts(entries: seq<Entry>, i: nat)
    requires GoodLayer(entries) && i < |entries|
    ensures Plain(Split(entries[i].name)) && Split(entries[i].name) != []
  {
    hide Split, Normalized, Utf8, Increasing;
    NormalizedIsPlain(entries[i].name);
  }

  lemma PathsDiffer(entries: seq<Entry>, i: nat, j: nat)
    requires GoodLayer(entries) && i < |entries| && j < |entries| && Split(entries[i].name) == Split(entries[j].name)
    ensures i == j
  {
    hide Split, Normalized, Utf8, Increasing, Less;
    JoinSplit(entries[i].name);
    JoinSplit(entries[j].name);
    if i < j { NamesDiffer(entries, i, j); }
    if j < i { NamesDiffer(entries, j, i); }
  }

  /** In byte order a directory comes before what it contains. */
  lemma ParentFirst(entries: seq<Entry>, i: nat, j: nat)
    requires GoodLayer(entries) && i < |entries| && j < |entries|
    requires |Split(entries[j].name)| > 1 && Split(entries[i].name) == Up(Split(entries[j].name))
    ensures i < j
  {
    hide Split, Less, Join, Normalized, Utf8;
    var a, b := entries[i].name, entries[j].name;
    var at := Split(b);
    JoinSplit(a);
    JoinSplit(b);
    assert at == Up(at) + [at[|at| - 1]];
    JoinSnoc(Up(at), at[|at| - 1]);
    assert b == a + ([SLASH] + at[|at| - 1]);
    PrefixLess(a, [SLASH] + at[|at| - 1]);
    OrderOf(entries, i, j);
  }

  lemma OrderOf(entries: seq<Entry>, i: nat, j: nat)
    requires Increasing(Names(entries)) && i < |entries| && j < |entries| && Less(entries[i].name, entries[j].name)
    ensures i < j
  {
    hide Less;
    var names := Names(entries);
    LessIrreflexive(names[i]);
    if j < i { LessAsymmetric(names[j], names[i]); }
  }

  /** In a housed layer every directory above an entry comes earlier. */
  lemma {:induction false} DirectoriesFirst(entries: seq<Entry>, i: nat, m: nat) returns (j: nat)
    requires GoodLayer(entries) && i < |entries| && (forall k :: 0 <= k <= i ==> Housed(entries, k))
    requires 0 < m < |Split(entries[i].name)|
    ensures j < i && entries[j].kind.Directory? && Split(entries[j].name) == Split(entries[i].name)[..m]
    decreases i
  {
    hide Split, GoodLayer;
    var at := Split(entries[i].name);
    assert Housed(entries, i);
    var d :| 0 <= d < |entries| && Split(entries[d].name) == Up(at) && entries[d].kind.Directory?;
    ParentFirst(entries, d, i);
    if m == |at| - 1 {
      j := d;
    } else {
      assert Up(at)[..m] == at[..m];
      j := DirectoriesFirst(entries, d, m);
    }
  }

  /* ----- the first pass ----- */

  /** The disk with the first `k` entries on it. */
  predicate Laid(host: Host, start: Nodes, base: Where, entries: seq<Entry>, k: nat, nodes: Nodes)
    requires k <= |entries|
  {
    && (forall w :: w in nodes ==> w in start || exists j :: 0 <= j < k && w == At(base, entries[j]))
    && (forall w :: w in start ==> w in nodes && SameButTime(nodes[w], start[w]))
    && (forall j :: 0 <= j < k ==> At(base, entries[j]) in nodes && SameButTime(nodes[At(base, entries[j])], BuiltNode(host, entries[j])))
  }

  lemma LaidPrefix(host: Host, start: Nodes, base: Where, entries: seq<Entry>, k: nat, nodes: Nodes, at: Where)
    requires k <= |entries| && Vacant(start, base) && Laid(host, start, base, entries, k, nodes) && at != []
    ensures base + at in nodes <==> exists j :: 0 <= j < k && Split(entries[j].name) == at
    ensures forall j :: 0 <= j < k && Split(entries[j].name) == at ==>
      base + at in nodes && nodes[base + at].kind == entries[j].kind && SameButTime(nodes[base + at], BuiltNode(host, entries[j]))
  {
    hide Split;
    assert StrictlyBelow(base, base + at);
    forall j | 0 <= j < k ensures At(base, entries[j]) == base + at <==> Split(entries[j].name) == at {
      assert (base + at)[|base|..] == at && At(base, entries[j])[|base|..] == Split(entries[j].name);
    }
  }

  lemma RowUnlinked(host: Host, start: Nodes, base: Where, entries: seq<Entry>, k: nat, nodes: Nodes)
    requires GoodLayer(entries) && NoneBelowLink(entries) && k < |entries| && Vacant(start, base) && Laid(host, start, base, entries, k, nodes)
    ensures var at := Split(entries[k].name);
      && base + at !in nodes
      && forall m :: 0 < m <= |at| && base + at[..m] in nodes ==> !nodes[base + at[..m]].kind.Symlink?
  {
    hide Split, Laid, GoodLayer, Vacant;
    var at := Split(entries[k].name);
    PathFacts(entries, k);
    LaidPrefix(host, start, base, entries, k, nodes, at);
    if base + at in nodes {
      var j :| 0 <= j < k && Split(entries[j].name) == at;
      PathsDiffer(entries, j, k);
    }
    forall m | 0 < m <= |at| && base + at[..m] in nodes ensures !nodes[base + at[..m]].kind.Symlink? {
      LaidPrefix(host, start, base, entries, k, nodes, at[..m]);
      var j :| 0 <= j < k && Split(entries[j].name) == at[..m];
      assert at[..|at|] == at;
      assert Inside(Split(entries[j].name), at);
    }
  }

  lemma BuiltOpen(host: Host, node: Node)
    requires node.kind.Directory? && node.mode == BUILD_DIRECTORY_MODE && node.owner == host.uid
    ensures Searchable(host, node) && Writable(host, node)
  {
  }

  lemma BaseOpen(host: Host, start: Nodes, base: Where, entries: seq<Entry>, k: nat, nodes: Nodes)
    requires k <= |entries| && base in start && Laid(host, start, base, entries, k, nodes)
    ensures base in nodes && (RootUsable(host, nodes[base]) <==> RootUsable(host, start[base]))
    ensures Enterable(host, nodes, base) <==> start[base].kind.Directory? && Searchable(host, start[base])
  {
    assert SameButTime(nodes[base], start[base]);
  }

  /** Above a housed entry every directory is there, open and writable. */
  lemma HousedOpen(host: Host, start: Nodes, base: Where, entries: seq<Entry>, k: nat, nodes: Nodes)
    requires GoodLayer(entries) && k < |entries| && Vacant(start, base) && base in start && RootUsable(host, start[base])
    requires Laid(host, start, base, entries, k, nodes) && forall j :: 0 <= j <= k ==> Housed(entries, j)
    ensures var at := Split(entries[k].name);
      OpenDown(host, nodes, base, at) && base + Up(at) in nodes && Writable(host, nodes[base + Up(at)])
  {
    hide Split, Laid, GoodLayer, Vacant, Permits, Housed;
    var at := Split(entries[k].name);
    PathFacts(entries, k);
    BaseOpen(host, start, base, entries, k, nodes);
    forall m | 0 <= m < |at| ensures Enterable(host, nodes, base + at[..m]) && Writable(host, nodes[base + at[..m]]) {
      if m == 0 {
        assert base + at[..0] == base;
      } else {
        var j := DirectoriesFirst(entries, k, m);
        LaidPrefix(host, start, base, entries, k, nodes, at[..m]);
        BuiltOpen(host, nodes[base + at[..m]]);
      }
    }
    assert Up(at) == at[..|at| - 1];
  }

  /** An entry that can be placed is housed, in a root that can be filled. */
  lemma PlacedHoused(host: Host, start: Nodes, base: Where, entries: seq<Entry>, k: nat, nodes: Nodes)
    requires GoodLayer(entries) && k < |entries| && Vacant(start, base) && base in start && Laid(host, start, base, entries, k, nodes)
    requires OpenDown(host, nodes, base, Split(entries[k].name)) && CanPlace(host, nodes, At(base, entries[k]))
    requires k > 0 ==> RootUsable(host, start[base])
    ensures Housed(entries, k) && RootUsable(host, start[base])
  {
    hide Split, Laid, GoodLayer, Vacant, Permits;
    var at := Split(entries[k].name);
    PathFacts(entries, k);
    BaseOpen(host, start, base, entries, k, nodes);
    assert base + at[..0] == base;
    assert Enterable(host, nodes, base);
    if |at| > 1 {
      var m := |at| - 1;
      assert Enterable(host, nodes, base + at[..m]);
      LaidPrefix(host, start, base, entries, k, nodes, at[..m]);
      var j :| 0 <= j < k && Split(entries[j].name) == at[..m];
      assert nodes[base + at[..m]].kind == entries[j].kind;
    } else {
      assert Up(At(base, entries[k])) == base;
    }
  }

  lemma RowExact(host: Host, start: Nodes, base: Where, entries: seq<Entry>, k: nat, nodes: Nodes)
    requires GoodLayer(entries) && NoneBelowLink(entries) && k < |entries| && Vacant(start, base) && base in start
    requires Laid(host, start, base, entries, k, nodes) && (forall j :: 0 <= j < k ==> Housed(entries, j))
    requires k > 0 ==> RootUsable(host, start[base])
    ensures Build(host, nodes, base, entries[k], 0).Ok? <==> RootUsable(host, start[base]) && Housed(entries, k) && LinkPoints(entries[k])
    ensures Build(host, nodes, base, entries[k], 0).Ok? ==>
      && Land(host, nodes, base, entries[k]) == Seat(host, nodes, base, entries[k]) == Ok(At(base, entries[k]))
      && At(base, entries[k]) !in nodes && Laid(host, start, base, entries, k + 1, Build(host, nodes, base, entries[k], 0).value)
  {
    hide Split, Laid, GoodLayer, Vacant, Permits, Housed, NoneBelowLink, Find, OpenDown, BuiltNode, RootUsable;
    var e := entries[k];
    var at := Split(e.name);
    PathFacts(entries, k);
    RowUnlinked(host, start, base, entries, k, nodes);
    WalkDown(host, nodes, base, at, e.kind.File?, host.linkLimit);
    WalkDown(host, nodes, base, at, false, host.linkLimit);
    assert Up(base + at) == base + Up(at);
    if RootUsable(host, start[base]) && Housed(entries, k) {
      HousedOpen(host, start, base, entries, k, nodes);
      OpenUp(host, nodes, base, at);
    }
    if Build(host, nodes, base, e, 0).Ok? {
      PlacedHoused(host, start, base, entries, k, nodes);
      LaidNext(host, start, base, entries, k, nodes);
    }
  }

  lemma OpenUp(host: Host, nodes: Nodes, base: Where, at: Where)
    requires at != [] && OpenDown(host, nodes, base, at)
    ensures Enterable(host, nodes, base + Up(at))
  {
    assert Up(at) == at[..|at| - 1];
  }

  lemma AtBelow(base: Where, e: Entry)
    requires Split(e.name) != []
    ensures At(base, e) != []
  {
  }

  lemma PlaceEffect(nodes: Nodes, w: Where, node: Node, now: int)
    requires w != [] && Up(w) in nodes && w !in nodes
    ensures var next := Place(nodes, w, node, now);
      && (forall x :: x in next <==> x in nodes || x == w) && SameButTime(next[w], node)
      && forall x :: x in nodes ==> SameButTime(next[x], nodes[x])
  {
    assert Up(w) != w;
  }

  lemma LaidNext(host: Host, start: Nodes, base: Where, entries: seq<Entry>, k: nat, nodes: Nodes)
    requires k < |entries| && Laid(host, start, base, entries, k, nodes) && At(base, entries[k]) !in nodes
    requires Split(entries[k].name) != [] && Up(At(base, entries[k])) in nodes
    ensures Laid(host, start, base, entries, k + 1, Place(nodes, At(base, entries[k]), BuiltNode(host, entries[k]), 0))
  {
    hide Split, BuiltNode, Place, At;
    var w := At(base, entries[k]);
    var next := Place(nodes, w, BuiltNode(host, entries[k]), 0);
    AtBelow(base, entries[k]);
    PlaceEffect(nodes, w, BuiltNode(host, entries[k]), 0);
    forall j | 0 <= j < k ensures SameButTime(next[At(base, entries[j])], BuiltNode(host, entries[j])) {
      assert SameButTime(next[At(base, entries[j])], nodes[At(base, entries[j])]);
    }
    forall x | x in start ensures x in next && SameButTime(next[x], start[x]) { assert SameButTime(next[x], nodes[x]); }
    forall x | x in next ensures x in start || exists j :: 0 <= j < k + 1 && x == At(base, entries[j]) {
      if x !in nodes { assert x == At(base, entries[k]); }
    }
  }

  lemma LaidNone(host: Host, start: Nodes, base: Where, entries: seq<Entry>)
    ensures Laid(host, start, base, entries, 0, start)
  {
  }

  /** Without entries below links, `k` entries can be built exactly when the root can be filled
      and those entries are housed and point somewhere; then each is at its own path. */
  lemma {:induction false} PlainSkeleton(host: Host, start: Nodes, base: Where, entries: seq<Entry>, k: nat)
    requires GoodLayer(entries) && NoneBelowLink(entries) && k <= |entries| && Vacant(start, base) && base in start
    ensures Skeleton(host, start, base, entries, k).Ok? <==>
      (k > 0 ==> RootUsable(host, start[base])) && forall j :: 0 <= j < k ==> Housed(entries, j) && LinkPoints(entries[j])
    ensures Skeleton(host, start, base, entries, k).Ok? ==> Laid(host, start, base, entries, k, Skeleton(host, start, base, entries, k).value)
    decreases k
  {
    hide GoodLayer, NoneBelowLink, Vacant, Housed, LinkPoints, Build, RootUsable, Laid;
    LaidNone(host, start, base, entries);
    if k > 0 {
      PlainSkeleton(host, start, base, entries, k - 1);
      if Skeleton(host, start, base, entries, k - 1).Ok? {
        RowExact(host, start, base, entries, k - 1, Skeleton(host, start, base, entries, k - 1).value);
      }
    }
  }

  lemma PlainRow(host: Host, start: Nodes, base: Where, entries: seq<Entry>, k: nat)
    requires GoodLayer(entries) && NoneBelowLink(entries) && k < |entries| && Vacant(start, base) && base in start
    requires Skeleton(host, start, base, entries, k + 1).Ok?
    ensures Skeleton(host, start, base, entries, k).Ok?
    ensures var a := Skeleton(host, start, base, entries, k).value;
      && Land(host, a, base, entries[k]) == Seat(host, a, base, entries[k]) == Ok(At(base, entries[k])) && At(base, entries[k]) !in a
  {
    hide GoodLayer, NoneBelowLink, Vacant, Housed, LinkPoints, Build, RootUsable, Laid, Land, Seat;
    SkeletonNext(host, start, base, entries, k);
    PlainSkeleton(host, start, base, entries, k);
    PlainSkeleton(host, start, base, entries, k + 1);
    RowExact(host, start, base, entries, k, Skeleton(host, start, base, entries, k).value);
  }

  /** Without entries below links, a layer can be staged exactly when the root is empty, or
      can be made, and this user's to fill, and the layer is closed under directories. */
  lemma PlainStageable(host: Host, nodes: Nodes, base: Where, entries: seq<Entry>)
    requires GoodLayer(entries) && NoneBelowLink(entries) && FileTree(nodes)
    ensures Stageable(host, nodes, base, entries) <==>
      && Vacant(nodes, base) && Begun(host, nodes, base).Ok?
      && var start := Begun(host, nodes, base).value;
         base in start && Owned(host, start[base]) && RootUsable(host, start[base]) && LayerClosed(entries)
  {
    hide NoneBelowLink, Vacant, Housed, LinkPoints, RootUsable, Begun, FileTree, Skeleton;
    LayerNames(entries);
    hide GoodLayer, Increasing;
    if Vacant(nodes, base) && Begun(host, nodes, base).Ok? {
      var start := Begun(host, nodes, base).value;
      BeginFacts(host, nodes, base);
      BegunVacant(host, nodes, base);
      PlainSkeleton(host, start, base, entries, |entries|);
      if Skeleton(host, start, base, entries, |entries|).Ok? { PlainOwned(host, start, base, entries); }
    }
  }

  lemma BegunVacant(host: Host, nodes: Nodes, base: Where)
    requires FileTree(nodes) && Vacant(nodes, base) && Begun(host, nodes, base).Ok?
    ensures Vacant(Begun(host, nodes, base).value, base)
  {
    hide FileTree, Permits, WithDirectory, Vacant;
    DirectoryKeeps(host, nodes, base, base);
  }

  lemma PlainOwned(host: Host, start: Nodes, base: Where, entries: seq<Entry>)
    requires GoodLayer(entries) && NoneBelowLink(entries) && Vacant(start, base) && base in start
    requires FileTree(start) && BuildModes(base, start) && Skeleton(host, start, base, entries, |entries|).Ok?
    ensures SeatsOwned(host, start, base, entries, 0)
  {
    hide GoodLayer, NoneBelowLink, Vacant, Skeleton, FileTree, BuildModes, Seat, Land;
    forall j | 0 <= j < |entries|
      ensures Skeleton(host, start, base, entries, j).Ok? && SeatOwned(host, Skeleton(host, start, base, entries, j).value, base, entries[j])
    {
      SkeletonKeeps(host, start, base, entries, j + 1, |entries|);
      PlainRow(host, start, base, entries, j);
    }
  }

  /* ----- the tree that is left ----- */

  /** The entry's own content and mode, as far as a change of owner lets the mode stand, and
      the canonical time. */
  function FinalNode(host: Host, e: Entry): Node {
    var mode := if e.kind.Symlink? then LINK_MODE else e.mode % 0x1000;
    Node(e.kind, if host.uid == 0 then AfterChown(e.kind, mode) else mode, BuiltNode(host, e).content, host.uid, CANONICAL_TIME)
  }

  lemma FinishPlain(host: Host, a: Nodes, base: Where, e: Entry, b: Nodes, w: Where)
    requires FileTree(a) && base in a && RowBuilt(host, a, base, e, b) && Steady(host, a, b)
    requires Land(host, a, base, e) == Seat(host, a, base, e) == Ok(w) && w !in a && SameButTime(b[w], BuiltNode(host, e))
    ensures Finish(host, b, base, e) == Ok(b[w := FinalNode(host, e)])
  {
    hide Spot, Steady, FileTree, RowBuilt, Land, Seat, AfterChown;
    RowFactsAt(host, a, base, e, b);
    var b1 := if e.kind.Symlink? then b else b[w := SetMode(e.mode % 0x1000)(b[w])];
    if !e.kind.Symlink? { ChangeMode(host, a, base, e, b); }
    assert WithMode(host, b, base, e) == Ok(b1);
    RowFactsAt(host, a, base, e, b1);
    var b2 := if host.uid != 0 then b1 else b1[w := SetOwner()(b1[w])];
    if host.uid == 0 { ChangeOwner(host, a, base, e, b1); }
    assert WithOwner(host, b1, base, e) == Ok(b2);
    RowFactsAt(host, a, base, e, b2);
    assert b2[w := SetTime()(b2[w])] == b[w := FinalNode(host, e)];
  }

  /** After the rows from `k` on are finished. */
  predicate Final(host: Host, base: Where, entries: seq<Entry>, k: nat, built: Nodes, b: Nodes)
    requires k <= |entries|
  {
    && b.Keys == built.Keys
    && (forall j :: k <= j < |entries| ==> At(base, entries[j]) in b && b[At(base, entries[j])] == FinalNode(host, entries[j]))
    && (forall w :: w in built && (forall j :: k <= j < |entries| ==> w != At(base, entries[j])) ==> b[w] == built[w])
  }

  lemma FinalNext(host: Host, base: Where, entries: seq<Entry>, k: nat, built: Nodes, b: Nodes)
    requires GoodLayer(entries) && k < |entries| && Final(host, base, entries, k + 1, built, b) && At(base, entries[k]) in built
    ensures Final(host, base, entries, k, built, b[At(base, entries[k]) := FinalNode(host, entries[k])])
    ensures b[At(base, entries[k])] == built[At(base, entries[k])]
  {
    hide GoodLayer, FinalNode, At;
    var w := At(base, entries[k]);
    forall j | k < j < |entries| ensures At(base, entries[j]) != w { PlacesDiffer(base, entries, k, j); }
  }

  lemma PlacesDiffer(base: Where, entries: seq<Entry>, i: nat, j: nat)
    requires GoodLayer(entries) && i < j < |entries|
    ensures At(base, entries[i]) != At(base, entries[j])
  {
    hide GoodLayer, Split;
    if At(base, entries[i]) == At(base, entries[j]) {
      assert At(base, entries[i])[|base|..] == Split(entries[i].name) && At(base, entries[j])[|base|..] == Split(entries[j].name);
      PathsDiffer(entries, i, j);
    }
  }

  lemma {:induction false} PlainFinished(host: Host, start: Nodes, base: Where, entries: seq<Entry>, k: nat)
    requires GoodLayer(entries) && NoneBelowLink(entries) && Vacant(start, base) && base in start && k <= |entries|
    requires FileTree(start) && BuildModes(base, start) && Skeleton(host, start, base, entries, |entries|).Ok?
    ensures var built := Skeleton(host, start, base, entries, |entries|).value;
      Finished(host, built, base, entries, k).Ok? && Final(host, base, entries, k, built, Finished(host, built, base, entries, k).value)
    decreases |entries| - k
  {
    hide GoodLayer, NoneBelowLink, Vacant, Skeleton, FileTree, BuildModes, Steady, Finish, RowBuilt, Land, Seat, FinalNode, Build, Laid, At;
    var built := Skeleton(host, start, base, entries, |entries|).value;
    if k < |entries| {
      PlainFinished(host, start, base, entries, k + 1);
      var b := Finished(host, built, base, entries, k + 1).value;
      SkeletonKeeps(host, start, base, entries, k + 1, |entries|);
      PlainRow(host, start, base, entries, k);
      PlainPaths(entries);
      SteadySelf(host, built);
      FinishAll(host, start, base, entries, built, k + 1);
      RowReady(host, start, base, entries, k, b);
      BuiltHere(host, start, base, entries, k);
      FinalNext(host, base, entries, k, built, b);
      FinishPlain(host, Skeleton(host, start, base, entries, k).value, base, entries[k], b, At(base, entries[k]));
    }
  }

  lemma BuiltHere(host: Host, start: Nodes, base: Where, entries: seq<Entry>, k: nat)
    requires GoodLayer(entries) && NoneBelowLink(entries) && Vacant(start, base) && base in start && k < |entries|
    requires Skeleton(host, start, base, entries, |entries|).Ok?
    ensures var built := Skeleton(host, start, base, entries, |entries|).value;
      At(base, entries[k]) in built && SameButTime(built[At(base, entries[k])], BuiltNode(host, entries[k]))
  {
    hide GoodLayer, NoneBelowLink, Vacant, Skeleton, BuiltNode, At, Housed, LinkPoints, RootUsable;
    PlainSkeleton(host, start, base, entries, |entries|);
  }

  /** The staged tree: below the root the layer's entries and nothing else, each with its
      content, its mode and the canonical time; the root with the canonical time; no clock
      reading anywhere; and all around it nothing but times disturbed. */
  predicate Staged(host: Host, before: Nodes, base: Where, entries: seq<Entry>, nodes: Nodes) {
    && (forall i :: 0 <= i < |entries| ==> At(base, entries[i]) in nodes && nodes[At(base, entries[i])] == FinalNode(host, entries[i]))
    && (forall w :: w in nodes && StrictlyBelow(base, w) ==> exists i :: 0 <= i < |entries| && w == At(base, entries[i]))
    && base in nodes && nodes[base].kind.Directory? && nodes[base].mtime == CANONICAL_TIME
    && (forall w :: w in before && !AtOrAbove(base, w) ==> w in nodes && SameButTime(nodes[w], before[w]))
    && (forall w :: w in nodes && !AtOrAbove(base, w) ==> w in before || AtOrAbove(w, base))
  }

  lemma OutcomeNodes(host: Host, start: Nodes, base: Where, entries: seq<Entry>, w: Where)
    requires GoodLayer(entries) && NoneBelowLink(entries) && Vacant(start, base) && base in start && start[base].kind.Directory?
    requires FileTree(start) && BuildModes(base, start) && Skeleton(host, start, base, entries, |entries|).Ok?
    ensures var built := Skeleton(host, start, base, entries, |entries|).value; Finished(host, built, base, entries, 0).Ok?
    ensures var built := Skeleton(host, start, base, entries, |entries|).value;
      var fin := Finished(host, built, base, entries, 0).value;
      && base in fin && fin[base].kind.Directory?
      && (w in fin ==> w in start || exists i :: 0 <= i < |entries| && w == At(base, entries[i]))
      && (w in start && !AtOrAbove(base, w) ==> w in fin && SameButTime(fin[w], start[w]))
  {
    hide GoodLayer, NoneBelowLink, Vacant, Skeleton, FileTree, BuildModes, Housed, LinkPoints, RootUsable, FinalNode, BuiltNode, Finished;
    var built := Skeleton(host, start, base, entries, |entries|).value;
    PlainSkeleton(host, start, base, entries, |entries|);
    PlainFinished(host, start, base, entries, 0);
    forall i | 0 <= i < |entries| ensures AtOrAbove(base, At(base, entries[i])) && At(base, entries[i]) != base { PathFacts(entries, i); }
    assert SameButTime(built[base], start[base]);
  }

  lemma EntryNodes(host: Host, start: Nodes, base: Where, entries: seq<Entry>, i: nat, nodes: Nodes)
    requires GoodLayer(entries) && NoneBelowLink(entries) && Vacant(start, base) && base in start
    requires FileTree(start) && BuildModes(base, start) && Skeleton(host, start, base, entries, |entries|).Ok? && i < |entries|
    requires var built := Skeleton(host, start, base, entries, |entries|).value;
      var fin := Finished(host, built, base, entries, 0); fin.Ok? && base in fin.value && Similar(nodes, RootFinished(host, fin.value, base))
    requires SeatsTimed(host, start, base, entries, 0, nodes)
    ensures At(base, entries[i]) in nodes && nodes[At(base, entries[i])] == FinalNode(host, entries[i])
  {
    hide GoodLayer, NoneBelowLink, Vacant, Skeleton, FileTree, BuildModes, Finished, Seat, Land, AfterChown, BuiltNode, Split;
    PlainFinished(host, start, base, entries, 0);
    SkeletonKeeps(host, start, base, entries, i + 1, |entries|);
    PlainRow(host, start, base, entries, i);
    PathFacts(entries, i);
    var w := At(base, entries[i]);
    assert w != base;
    var out := RootFinished(host, Finished(host, Skeleton(host, start, base, entries, |entries|).value, base, entries, 0).value, base);
    assert out[w] == FinalNode(host, entries[i]);
    assert SameButTime(nodes[w], out[w]);
  }

  lemma PlainOutcome(host: Host, before: Nodes, base: Where, entries: seq<Entry>, nodes: Nodes)
    requires GoodLayer(entries) && NoneBelowLink(entries) && FileTree(before) && Stageable(host, before, base, entries)
    requires Outcome(host, before, base, entries).Ok? && Similar(nodes, Outcome(host, before, base, entries).value)
    requires SeatsTimed(host, Begun(host, before, base).value, base, entries, 0, nodes) && base in nodes && nodes[base].mtime == CANONICAL_TIME
    ensures Staged(host, before, base, entries, nodes)
  {
    hide GoodLayer, NoneBelowLink, Vacant, Skeleton, FileTree, BuildModes, Finished, SeatsOwned, SeatsTimed, FinalNode, AfterChown, Begun, At;
    var start := Begun(host, before, base).value;
    var fin := Finished(host, Skeleton(host, start, base, entries, |entries|).value, base, entries, 0).value;
    BeginFacts(host, before, base);
    BegunVacant(host, before, base);
    forall i | 0 <= i < |entries| ensures At(base, entries[i]) in nodes && nodes[At(base, entries[i])] == FinalNode(host, entries[i]) {
      EntryNodes(host, start, base, entries, i, nodes);
    }
    OutcomeNodes(host, start, base, entries, base);
    assert SameButTime(nodes[base], RootFinished(host, fin, base)[base]);
    forall w | w in nodes && StrictlyBelow(base, w) ensures exists i :: 0 <= i < |entries| && w == At(base, entries[i]) {
      OutcomeNodes(host, start, base, entries, w);
      VacantAt(start, base, w);
    }
    forall w | w in before && !AtOrAbove(base, w) ensures w in nodes && SameButTime(nodes[w], before[w]) {
      BegunAround(host, before, base, w);
      OutcomeNodes(host, start, base, entries, w);
      assert w != base && w in RootFinished(host, fin, base) && RootFinished(host, fin, base)[w] == fin[w];
    }
    forall w | w in nodes && !AtOrAbove(base, w) ensures w in before || AtOrAbove(w, base) {
      OutcomeNodes(host, start, base, entries, w);
      BegunAround(host, before, base, w);
      forall i | 0 <= i < |entries| ensures w != At(base, entries[i]) { BelowBase(base, entries[i]); }
    }
  }

  lemma BelowBase(base: Where, e: Entry)
    ensures AtOrAbove(base, At(base, e))
  {
  }

  lemma VacantAt(start: Nodes, base: Where, w: Where)
    requires Vacant(start, base) && StrictlyBelow(base, w)
    ensures w !in start
  {
  }

  lemma BegunAround(host: Host, before: Nodes, base: Where, w: Where)
    requires FileTree(before) && Vacant(before, base) && Begun(host, before, base).Ok?
    ensures var start := Begun(host, before, base).value;
      (w in before ==> w in start && SameButTime(start[w], before[w])) && (w in start ==> w in before || AtOrAbove(w, base))
  {
    hide FileTree, Permits, WithDirectory, Vacant;
    DirectoryKeeps(host, before, base, base);
  }

  /** What a member becomes: at its own path, with its own bytes, the canonical time and, if
      changing the owner cleared nothing, its own permissions. */
  predicate Delivered(host: Host, base: Where, m: Member, nodes: Nodes) {
    var w := base + Split(m.name);
    var special, group := m.mode / 512 % 8, m.mode / 8 % 8;
    && w in nodes && nodes[w].mtime == 0 && nodes[w].owner == host.uid
    && match m.form
       case DirForm => nodes[w].kind == Directory && nodes[w].content == [] && nodes[w].mode == m.mode % 4096
       case SymForm => nodes[w].kind == Symlink && nodes[w].content == m.payload
       case RegForm =>
         && nodes[w].kind == File && nodes[w].content == m.payload
         && (host.uid != 0 || !(special >= 4 || (special % 4 >= 2 && group % 2 == 1)) ==> nodes[w].mode == m.mode % 4096)
       case _ => false
  }

  lemma MemberDelivered(host: Host, before: Nodes, base: Where, members: seq<Member>, nodes: Nodes, i: nat)
    requires i < |members| && MemberAccepted(members[i]) && Staged(host, before, base, EntriesOf(members), nodes)
    ensures Delivered(host, base, members[i], nodes)
  {
    hide Split, Normalized, Utf8, AfterChown;
    var m, e := members[i], EntriesOf(members)[i];
    assert nodes[At(base, e)] == FinalNode(host, e);
    assert e == EntryOf(m) && e.mode % 4096 == m.mode % 4096;
    if m.form.RegForm? {
      ChownExact(e);
      SpecialDigits(m.mode);
    } else if m.form.DirForm? {
      ChownExact(e);
    }
  }

  /** The special and group digits of a mode, by bits. */
  lemma SpecialDigits(mode: nat)
    ensures var special, group, low := mode / 512 % 8, mode / 8 % 8, mode % 4096;
      && (Bit(low, 0x800) <==> special >= 4) && (Bit(low, 0x400) <==> special % 4 >= 2) && (Bit(low, 0x08) <==> group % 2 == 1)
  {
    hide Bit;
    var low := mode % 4096;
    DigitAbove(low);
    DigitBits(low / 512);
    DigitBits(low / 8);
    LowDigits(mode / 4096, low);
  }

  lemma LowDigits(q: nat, low: nat)
    requires low < 4096
    ensures (4096 * q + low) / 512 % 8 == low / 512
    ensures (4096 * q + low) / 8 % 8 == low / 8 % 8
  {
    var n := 4096 * q + low;
    assert n / 512 == 8 * q + low / 512;
    assert n / 8 == 8 * (64 * q) + low / 8;
    EightApart(q, low / 512);
    EightApart(64 * q, low / 8);
  }

  lemma EightApart(q: nat, r: nat)
    ensures (8 * q + r) % 8 == r % 8
  {
  }

  /** Staging a layer that has no entry below one of its links. */
  method StageLayer(disk: Disk, plan: Plan, members: seq<Member>) returns (r: Result<seq<Bytes>>)
    requires FileTree(disk.nodes) && WellOrdered(disk.base, disk.history) && NoneBelowLink(EntriesOf(members))
    modifies disk
    ensures r.Ok? <==>
      && PlanFits(plan, members) && Vacant(old(disk.nodes), disk.base) && Begun(disk.host, old(disk.nodes), disk.base).Ok?
      && LayerClosed(EntriesOf(members))
      && var start := Begun(disk.host, old(disk.nodes), disk.base).value;
         disk.base in start && Owned(disk.host, start[disk.base]) && RootUsable(disk.host, start[disk.base])
    ensures r.Ok? ==> r.value == Names(EntriesOf(members)) && Staged(disk.host, old(disk.nodes), disk.base, EntriesOf(members), disk.nodes)
    ensures r.Ok? ==> forall i :: 0 <= i < |members| ==> Delivered(disk.host, disk.base, members[i], disk.nodes)
    ensures WellOrdered(disk.base, disk.history) && old(disk.history) <= disk.history
  {
    hide PlanFits, FileTree, WellOrdered, NoneBelowLink, EntryOf, LayerClosed, RootUsable, Stageable, Outcome, SeatsTimed, Similar, Staged,
         GoodLayer, Permits, Vacant, Begun, Places, Delivered, MemberAccepted;
    ghost var before := disk.nodes;
    if PlanFits(plan, members) {
      FittingIsGood(plan, members);
      PlainStageable(disk.host, before, disk.base, EntriesOf(members));
    }
    r := StageTree.StageTree(disk, plan, members);
    if r.Ok? {
      PlainOutcome(disk.host, before, disk.base, EntriesOf(members), disk.nodes);
      forall i | 0 <= i < |members| ensures Delivered(disk.host, disk.base, members[i], disk.nodes) {
        FittingMember(plan, members, i);
        MemberDelivered(disk.host, before, disk.base, members, disk.nodes, i);
      }
    }
  }

  lemma FittingMember(plan: Plan, members: seq<Member>, i: nat)
    requires PlanFits(plan, members) && i < |members|
    ensures MemberAccepted(members[i])
  {
    hide MemberAccepted;
  }

  lemma FittingIsGood(plan: Plan, members: seq<Member>)
    requires PlanFits(plan, members)
    ensures GoodLayer(EntriesOf(members))
  {
    hide Normalized, Utf8;
    AcceptedIsGood(members);
  }

  /* ----- modes ----- */

  /** A set-user-id file, or a set-group-id file its group may execute. */
  predicate LosesBits(e: Entry) {
    e.kind.File? && (Bit(e.mode % 0x1000, 0x800) || (Bit(e.mode % 0x1000, 0x400) && Bit(e.mode % 0x1000, 0x08)))
  }

  lemma ChownExact(e: Entry)
    requires !e.kind.Symlink?
    ensures AfterChown(e.kind, e.mode % 0x1000) == e.mode % 0x1000 <==> !LosesBits(e)
  {
  }

  /** Every file and directory ends with its planned mode if and only if root is not staging,
      or no file of the layer is set-user-id, or set-group-id and group-executable: the owner
      is set after the mode. */
  lemma PlannedModes(host: Host, before: Nodes, base: Where, entries: seq<Entry>, nodes: Nodes)
    requires Staged(host, before, base, entries, nodes)
    ensures (forall i :: 0 <= i < |entries| && !entries[i].kind.Symlink? ==> nodes[At(base, entries[i])].mode == RowOf(entries[i]).mode)
            <==> (host.uid != 0 || forall i :: 0 <= i < |entries| ==> !LosesBits(entries[i]))
  {
    hide At, AfterChown, LosesBits, BuiltNode;
    forall i | 0 <= i < |entries| && !entries[i].kind.Symlink?
      ensures nodes[At(base, entries[i])].mode == RowOf(entries[i]).mode <==> host.uid != 0 || !LosesBits(entries[i])
    {
      assert nodes[At(base, entries[i])] == FinalNode(host, entries[i]);
      ChownExact(entries[i]);
    }
    forall i | 0 <= i < |entries| && entries[i].kind.Symlink? ensures !LosesBits(entries[i]) { LinksLoseNothing(entries[i]); }
    if host.uid == 0 && forall i :: 0 <= i < |entries| && !entries[i].kind.Symlink? ==> nodes[At(base, entries[i])].mode == RowOf(entries[i]).mode {
      forall i | 0 <= i < |entries| ensures !LosesBits(entries[i]) {
        if !entries[i].kind.Symlink? { assert nodes[At(base, entries[i])].mode == RowOf(entries[i]).mode; }
      }
    }
  }

  lemma LinksLoseNothing(e: Entry)
    requires e.kind.Symlink?
    ensures !LosesBits(e)
  {
  }

  /** One empty file planned with mode 4755, and a disk with an empty directory for it. */
  const GUARDED: Member := Member([115], RegForm, 0x9ED, 0, 0, 0, [])
  const SPARE: Nodes := map[[] := Node(Directory, 0x1ED, [], 0, 0), [[120]] := Node(Directory, 0x1ED, [], 0, 0)]

  lemma GuardedLayer()
    ensures LayerAccepted([GUARDED]) && EntriesOf([GUARDED]) == [Entry([115], File, 0x89ED, [])] && Split([115]) == [[115]]
  {
    SplitOne([115]);
    hide Split;
    NormalizedIsPlain([115]);
    assert Utf8([115]);
    assert EntryOf(GUARDED) == Entry([115], File, 0x89ED, []);
  }

  lemma SpareRoot(host: Host)
    requires host.uid == 0
    ensures FileTree(SPARE) && Vacant(SPARE, [[120]]) && Begun(host, SPARE, [[120]]) == Ok(SPARE)
    ensures Owned(host, SPARE[[[120]]]) && RootUsable(host, SPARE[[[120]]])
  {
    var base: Where := [[120]];
    assert Up(base) == [] && Up([]) == [] && base[..0] == [];
    forall k | 0 <= k < |base| ensures Enterable(host, SPARE, base[..k]) { assert k == 0; }
    assert Open(host, SPARE, base);
  }

  /** Root can stage that layer on that disk, and every tree the run can leave has the file
      with mode 0755. */
  lemma SetUserIdLost(clock: nat -> int, limit: nat, nodes: Nodes)
    ensures var host, base, entries := Host(clock, 0, limit), [[120]], EntriesOf([GUARDED]);
      && PlanFits(Plan(false, RowsOf(entries)), [GUARDED]) && NoneBelowLink(entries) && Stageable(host, SPARE, base, entries)
      && RowsOf(entries)[0].mode == 0x9ED
      && (Staged(host, SPARE, base, entries, nodes) ==> base + [[115]] in nodes && nodes[base + [[115]]].mode == 0x1ED)
  {
    GuardedLayer();
    hide Split, LayerAccepted, FileTree, Vacant, Begun, Stageable, Open, Permits, RootUsable;
    var host, base: Where, entries := Host(clock, 0, limit), [[120]], EntriesOf([GUARDED]);
    AcceptedIsGood([GUARDED]);
    SpareRoot(host);
    assert LayerClosed(entries) && NoneBelowLink(entries);
    PlainStageable(host, SPARE, base, entries);
    assert At(base, entries[0]) == base + [[115]];
    if Staged(host, SPARE, base, entries, nodes) { assert nodes[At(base, entries[0])] == FinalNode(host, entries[0]); }
  }
}
