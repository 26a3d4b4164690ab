/** Staging a layer's tree from its plan. */
module StageTree {
  import opened ByteStrings
  import opened Paths
  import opened Initrd
  import opened StagePlan
  import opened StageDisk
  import opened StageLookup
  import opened StageRuns

  /* ----- the staging root ----- */

  /** Nothing lies below the root. */
  predicate Vacant(nodes: Nodes, base: Where) { forall w :: w in nodes ==> !StrictlyBelow(base, w) }

  lemma {:induction false} DirectoryKeeps(host: Host, nodes: Nodes, w: Where, base: Where)
    requires FileTree(nodes) && Vacant(nodes, base) && w <= base && WithDirectory(host, nodes, w).Ok?
    ensures var n := WithDirectory(host, nodes, w).value; FileTree(n) && Vacant(n, base) && w in n && n[w].kind.Directory?
    ensures var n := WithDirectory(host, nodes, w).value; forall x :: x in nodes ==> x in n && SameButTime(n[x], nodes[x])
    ensures forall x :: x in WithDirectory(host, nodes, w).value ==> x in nodes || x <= w
    decreases |w|
  {
    hide Permits, Open, Steady, BuildModes;
    if w !in nodes {
      DirectoryKeeps(host, nodes, Up(w), base);
      var n := WithDirectory(host, nodes, Up(w)).value;
      PlaceKeeps(host, n, w, NewDirectory(host), 0, base);
    }
  }

  lemma OpenBelow(host: Host, nodes: Nodes, w: Where)
    requires w != [] && Open(host, nodes, Up(w)) && Enterable(host, nodes, Up(w))
    ensures Open(host, nodes, w)
  {
    hide Enterable;
    forall k | 0 <= k < |w| ensures Enterable(host, nodes, w[..k]) {
      if k < |w| - 1 { assert w[..k] == Up(w)[..k]; }
    }
  }

  /** The directories above one that was there or was made can be searched. */
  lemma {:induction false} DirectoryOpen(host: Host, nodes: Nodes, w: Where, base: Where)
    requires FileTree(nodes) && Vacant(nodes, base) && w <= base && WithDirectory(host, nodes, w).Ok?
    ensures Open(host, WithDirectory(host, nodes, w).value, w)
    decreases |w|
  {
    hide FileTree, Vacant, Open, Permits, Steady;
    if w !in nodes {
      DirectoryOpen(host, nodes, Up(w), base);
      DirectoryKeeps(host, nodes, Up(w), base);
      DirectoryKeeps(host, nodes, w, base);
      var n := WithDirectory(host, nodes, Up(w)).value;
      OpenBelow(host, n, w);
      assert w !in n;
      PlaceKeeps(host, n, w, NewDirectory(host), 0, base);
      OpenSteady(host, n, WithDirectory(host, nodes, w).value, w);
    }
  }

  predicate AtOrAbove(x: Where, w: Where) { x <= w }

  lemma PrefixesThere(nodes: Nodes, w: Where)
    requires FileTree(nodes) && w in nodes
    ensures forall x :: AtOrAbove(x, w) ==> x in nodes
  {
    hide FileTree;
    forall x | AtOrAbove(x, w) ensures x in nodes {
      assert x == w[..|x|] && w == w[..|w|];
      if |x| < |w| { Ancestors(nodes, w, |x|); }
    }
  }

  lemma PrefixOrUp(x: Where, w: Where)
    requires w != []
    ensures AtOrAbove(x, w) <==> x == w || AtOrAbove(x, Up(w))
  {
    if x <= w && x != w { assert x == Up(w)[..|x|]; }
  }

  /** Make the staging root, and what is missing above it. */
  method MakeDirectories(disk: Disk, w: Where) returns (ok: bool)
    requires FileTree(disk.nodes) && Vacant(disk.nodes, disk.base) && w <= disk.base && WellOrdered(disk.base, disk.history)
    modifies disk
    ensures ok <==> WithDirectory(disk.host, old(disk.nodes), w).Ok?
    ensures ok ==> Similar(disk.nodes, WithDirectory(disk.host, old(disk.nodes), w).value)
    ensures FileTree(disk.nodes) && Vacant(disk.nodes, disk.base)
    ensures WellOrdered(disk.base, disk.history) && old(disk.history) <= disk.history
    ensures ok ==> forall x :: x in disk.touched <==> x in old(disk.touched) || (AtOrAbove(x, w) && x !in old(disk.nodes))
    decreases |w|
  {
    hide FileTree, CanPlace, Place, WellOrdered, Vacant, Open;
    SimilarSelf(disk.nodes);
    ghost var start := disk.nodes;
    if w in disk.nodes {
      PrefixesThere(start, w);
      return disk.nodes[w].kind.Directory? && Open(disk.host, disk.nodes, w);
    }
    if w == [] { return false; }
    forall x ensures AtOrAbove(x, w) <==> x == w || AtOrAbove(x, Up(w)) { PrefixOrUp(x, w); }
    ok := MakeDirectories(disk, Up(w));
    if !ok { return; }
    ghost var before, past, now := disk.nodes, disk.history, disk.host.clock(disk.ticks);
    ghost var n := WithDirectory(disk.host, start, Up(w)).value;
    DirectoryKeeps(disk.host, start, Up(w), disk.base);
    assert w !in n && w !in before;
    EnterSimilar(disk.host, before, n, w);
    WayOpen(disk.host, start, before, w, disk.base);
    ok := disk.MakeAt(w, Node(Directory, BUILD_DIRECTORY_MODE, [], disk.host.uid, 0));
    if ok {
      PlaceDefined(disk.host, n, w);
      PlaceSimilar(before, n, w, NewDirectory(disk.host), NewDirectory(disk.host), now, 0);
      PlaceKeeps(disk.host, before, w, NewDirectory(disk.host), now, disk.base);
      StillVacant(before, disk.nodes, disk.base, w);
      CreationOrdered(disk.host, disk.base, past, before, w);
    }
  }

  lemma WayOpen(host: Host, start: Nodes, before: Nodes, w: Where, base: Where)
    requires FileTree(start) && Vacant(start, base) && w != [] && w <= base && WithDirectory(host, start, Up(w)).Ok?
    requires Similar(before, WithDirectory(host, start, Up(w)).value)
    ensures CanPlace(host, before, w) ==> Open(host, before, w)
  {
    hide FileTree, Vacant, Open, Permits, Similar, Steady;
    var n := WithDirectory(host, start, Up(w)).value;
    DirectoryOpen(host, start, Up(w), base);
    SimilarSteady(host, before, n);
    OpenSteady(host, n, before, Up(w));
    if CanPlace(host, before, w) { OpenBelow(host, before, w); }
  }

  lemma StillVacant(a: Nodes, b: Nodes, base: Where, w: Where)
    requires Vacant(a, base) && b.Keys == a.Keys + {w} && w <= base
    ensures Vacant(b, base)
  {
  }

  lemma CreationOrdered(host: Host, base: Where, history: seq<Event>, nodes: Nodes, w: Where)
    requires WellOrdered(base, history) && CanPlace(host, nodes, w) && w !in nodes
    ensures WellOrdered(base, history + [Created(w, nodes)])
  {
    hide WellOrdered;
    WellOrderedNext(base, history, Created(w, nodes));
  }

  lemma ChangeOrdered(base: Where, history: seq<Event>, nodes: Nodes, w: Where)
    requires WellOrdered(base, history) && w in nodes && BuildAbove(base, nodes, w)
    ensures WellOrdered(base, history + [Changed(w, nodes)])
  {
    hide WellOrdered, BuildAbove;
    WellOrderedNext(base, history, Changed(w, nodes));
  }

  /* ----- the first pass ----- */

  ghost predicate Building(disk: Disk)
    reads disk
  {
    && FileTree(disk.nodes) && BuildModes(disk.base, disk.nodes) && disk.base in disk.nodes && WellOrdered(disk.base, disk.history)
    && Open(disk.host, disk.nodes, disk.base)
  }

  /** Nothing to follow at the end of a path just written. */
  lemma WrittenAgain(host: Host, a: Nodes, b: Nodes, base: Where, e: Entry)
    requires FileTree(a) && base in a && Steady(host, a, b) && Spot(host, a, base, e, true).Ok?
    requires var w := Spot(host, a, base, e, true).value; w in b && b[w].kind.File?
    ensures Spot(host, b, base, e, true) == Spot(host, a, base, e, true)
  {
    hide Spot, FileTree, Steady;
    SteadyGrown(host, a, b);
    SpotLater(host, a, b, base, e, true, true);
  }

  lemma PlaceThenMode(nodes: Nodes, w: Where, node: Node, now: int, mode: nat)
    requires w != [] && Up(w) in nodes && w !in nodes
    ensures var more := Place(nodes, w, node, now);
      w in more && more[w := SetMode(mode)(more[w])] == Place(nodes, w, node.(mode := mode), now)
  {
    assert Up(w) != w;
  }

  lemma RewriteThenMode(nodes: Nodes, w: Where, node: Node, mode: nat)
    ensures var more := nodes[w := node]; more[w := SetMode(mode)(more[w])] == nodes[w := node.(mode := mode)]
  {
  }

  /** Write a file's bytes, then narrow its mode. */
  method StageFile(disk: Disk, comps: seq<Bytes>, data: Bytes, ghost e: Entry) returns (ok: bool)
    requires Building(disk) && comps == Split(e.name) && e.kind.File? && data == e.data
    modifies disk
    ensures ok <==> Build(disk.host, old(disk.nodes), disk.base, e, disk.host.clock(old(disk.ticks))).Ok?
    ensures ok ==> Build(disk.host, old(disk.nodes), disk.base, e, disk.host.clock(old(disk.ticks))) == Ok(disk.nodes)
    ensures ok ==> disk.touched == old(disk.touched) + {Land(disk.host, old(disk.nodes), disk.base, e).value}
    ensures WellOrdered(disk.base, disk.history) && old(disk.history) <= disk.history
  {
    hide FileTree, BuildModes, WellOrdered, Find, Place, CanPlace, Permits, Split, BuildAbove, Open;
    ghost var host, base, a, past, now := disk.host, disk.base, disk.nodes, disk.history, disk.host.clock(disk.ticks);
    ghost var w := Spot(host, a, base, e, true);
    ok := disk.Write(comps, data);
    if !ok { return; }
    if w.value in a {
      SteadySelf(host, a);
      AboveLater(host, base, a, a, w.value);
      ChangeOrdered(base, past, a, w.value);
      SteadyRewritten(host, a, w.value, disk.nodes[w.value]);
      RewriteThenMode(a, w.value, a[w.value].(content := data, mtime := now), BUILD_FILE_MODE);
    } else {
      PlaceDefined(host, a, w.value);
      PlaceKeeps(host, a, w.value, Node(File, NEW_FILE_MODE, data, host.uid, 0), now, base);
      CreationOrdered(host, base, past, a, w.value);
      PlaceThenMode(a, w.value, Node(File, NEW_FILE_MODE, data, host.uid, 0), now, BUILD_FILE_MODE);
    }
    WrittenAgain(host, a, disk.nodes, base, e);
    OpenSteady(host, a, disk.nodes, base);
    ghost var b, later := disk.nodes, disk.history;
    WrittenAbove(host, base, a, b, w.value);
    ChangeOrdered(base, later, b, w.value);
    ok := disk.Amend(comps, true, SetMode(BUILD_FILE_MODE));
  }

  lemma WrittenAbove(host: Host, base: Where, a: Nodes, b: Nodes, w: Where)
    requires FileTree(a) && BuildModes(base, a) && Steady(host, a, b) && (w in a || CanPlace(host, a, w))
    ensures BuildAbove(base, b, w)
  {
    hide FileTree, BuildModes, Steady, Permits, BuildAbove;
    AboveLater(host, base, a, b, w);
  }

  lemma SteadyRewritten(host: Host, a: Nodes, w: Where, node: Node)
    requires w in a && a[w].kind.File? && node.kind == a[w].kind && node.owner == a[w].owner
    ensures Steady(host, a, a[w := node])
  {
  }

  /** Create what one row names. */
  method StageRow(disk: Disk, row: PlanRow, comps: seq<Bytes>, data: Bytes, ghost e: Entry) returns (ok: bool)
    requires Building(disk) && row == RowOf(e) && comps == Split(e.name) && data == e.data
    modifies disk
    ensures ok <==> Build(disk.host, old(disk.nodes), disk.base, e, disk.host.clock(old(disk.ticks))).Ok?
    ensures ok ==> Build(disk.host, old(disk.nodes), disk.base, e, disk.host.clock(old(disk.ticks))) == Ok(disk.nodes)
    ensures ok ==> disk.touched == old(disk.touched) + {Land(disk.host, old(disk.nodes), disk.base, e).value}
    ensures ok ==> Building(disk)
    ensures WellOrdered(disk.base, disk.history) && old(disk.history) <= disk.history
  {
    hide FileTree, BuildModes, WellOrdered, Find, Place, CanPlace, Permits, Split, Open;
    ghost var host, base, a, past, now := disk.host, disk.base, disk.nodes, disk.history, disk.host.clock(disk.ticks);
    match row.kind {
      case Directory =>
        ok := disk.Make(comps, Node(Directory, BUILD_DIRECTORY_MODE, [], disk.host.uid, 0));
        if ok { CreationOrdered(host, base, past, a, Spot(host, a, base, e, false).value); }
      case Symlink =>
        ok := disk.Make(comps, Node(Symlink, LINK_MODE, row.rest.target, disk.host.uid, 0));
        if ok { CreationOrdered(host, base, past, a, Spot(host, a, base, e, false).value); }
      case File =>
        ok := StageFile(disk, comps, data, e);
    }
    if ok {
      BuildKeeps(host, a, base, e, now);
      BaseKept(host, a, disk.nodes, base);
      OpenSteady(host, a, disk.nodes, base);
    }
  }

  lemma BaseKept(host: Host, a: Nodes, b: Nodes, base: Where)
    requires Steady(host, a, b) && base in a
    ensures base in b
  {
  }

  method ContentsByName(entries: seq<Entry>) returns (contents: map<Bytes, Bytes>)
    requires Increasing(Names(entries))
    ensures forall i :: 0 <= i < |entries| ==> entries[i].name in contents && contents[entries[i].name] == entries[i].data
  {
    hide Increasing;
    contents := map[];
    for k := 0 to |entries|
      invariant forall i :: 0 <= i < k ==> entries[i].name in contents && contents[entries[i].name] == entries[i].data
    {
      forall i | 0 <= i < k ensures entries[i].name != entries[k].name { NamesDiffer(entries, i, k); }
      contents := contents[entries[k].name := entries[k].data];
    }
  }

  lemma NamesDiffer(entries: seq<Entry>, i: nat, j: nat)
    requires Increasing(Names(entries)) && i < j < |entries|
    ensures entries[i].name != entries[j].name
  {
    hide Less;
    assert Names(entries)[i] == entries[i].name && Names(entries)[j] == entries[j].name;
    LessIrreflexive(entries[i].name);
  }

  lemma RowFacts(entries: seq<Entry>, k: nat)
    requires GoodLayer(entries) && k < |entries|
    ensures SafeRelative(RowOf(entries[k]).path) == Ok(Split(entries[k].name)) && PlainPath(entries[k])
    ensures RowOf(entries[k]).path == entries[k].name
  {
    hide Split, SafeRelative, Normalized, Utf8, Increasing;
    NormalizedIsSafe(entries[k].name);
  }

  /** The places the first `k` rows go to. */
  ghost function Lands(host: Host, start: Nodes, base: Where, entries: seq<Entry>, k: nat): set<Where>
    requires k <= |entries|
  {
    if k == 0 then {}
    else Lands(host, start, base, entries, k - 1) + PlacesOf(host, Skeleton(host, start, base, entries, k - 1), base, entries[k - 1], false)
  }

  /** The places the second pass goes to for rows from `k` on. */
  ghost function Seats(host: Host, start: Nodes, base: Where, entries: seq<Entry>, k: nat): set<Where>
    requires k <= |entries|
    decreases |entries| - k
  {
    if k == |entries| then {}
    else Seats(host, start, base, entries, k + 1) + PlacesOf(host, Skeleton(host, start, base, entries, k), base, entries[k], true)
  }

  ghost function PlacesOf(host: Host, nodes: Result<Nodes>, base: Where, e: Entry, seat: bool): set<Where> {
    if nodes.Fail? || Land(host, nodes.value, base, e).Fail? then {}
    else if !seat || Seat(host, nodes.value, base, e).Fail? then {Land(host, nodes.value, base, e).value}
    else {Land(host, nodes.value, base, e).value, Seat(host, nodes.value, base, e).value}
  }

  /** Goes through exactly when every entry's directory, links followed, is there and can be
      written, and its place is free or a file to rewrite. */
  method FirstPass(disk: Disk, rows: seq<PlanRow>, contents: map<Bytes, Bytes>, ghost entries: seq<Entry>, ghost start: Nodes)
    returns (r: Result<seq<Bytes>>)
    requires GoodLayer(entries) && rows == RowsOf(entries) && Building(disk) && Similar(disk.nodes, start)
    requires forall i :: 0 <= i < |entries| ==> entries[i].name in contents && contents[entries[i].name] == entries[i].data
    modifies disk
    ensures r.Ok? <==> Skeleton(disk.host, start, disk.base, entries, |entries|).Ok?
    ensures r.Ok? ==> r.value == Names(entries) && Building(disk)
    ensures r.Ok? ==> Similar(disk.nodes, Skeleton(disk.host, start, disk.base, entries, |entries|).value)
    ensures r.Ok? ==> disk.touched == old(disk.touched) + Lands(disk.host, start, disk.base, entries, |entries|)
    ensures WellOrdered(disk.base, disk.history) && old(disk.history) <= disk.history
  {
    hide Split, GoodLayer, SafeRelative, WellOrdered, FileTree, BuildModes, Build, RowOf, Land, Similar, Skeleton, Lands, PlainPath;
    ghost var host, base := disk.host, disk.base;
    var created: seq<Bytes> := [];
    NothingBuilt(host, start, base, entries);
    for k := 0 to |rows|
      invariant Building(disk) && old(disk.history) <= disk.history && Skeleton(host, start, base, entries, k).Ok?
      invariant Similar(disk.nodes, Skeleton(host, start, base, entries, k).value)
      invariant created == Names(entries[..k]) && disk.touched == old(disk.touched) + Lands(host, start, base, entries, k)
    {
      var row := rows[k];
      RowFacts(entries, k);
      var comps := SafeRelative(row.path);
      ghost var a, now := disk.nodes, host.clock(disk.ticks);
      ghost var skeleton := Skeleton(host, start, base, entries, k).value;
      BuildSimilar(host, a, skeleton, base, entries[k], now, 0);
      LandSimilar(host, a, skeleton, base, entries[k]);
      SkeletonStep(host, start, base, entries, k);
      var ok := StageRow(disk, row, comps.value, contents[row.path], entries[k]);
      if !ok {
        SkeletonStops(host, start, base, entries, k + 1, |entries|);
        return Fail;
      }
      LandsNext(host, start, base, entries, k);
      created := created + [row.path];
      assert entries[..k + 1] == entries[..k] + [entries[k]];
    }
    assert entries[..|entries|] == entries;
    return Ok(created);
  }

  lemma NothingBuilt(host: Host, start: Nodes, base: Where, entries: seq<Entry>)
    ensures Skeleton(host, start, base, entries, 0) == Ok(start) && Lands(host, start, base, entries, 0) == {}
  {
  }

  lemma SkeletonStep(host: Host, start: Nodes, base: Where, entries: seq<Entry>, k: nat)
    requires k < |entries| && Skeleton(host, start, base, entries, k).Ok?
    ensures Skeleton(host, start, base, entries, k + 1) == Build(host, Skeleton(host, start, base, entries, k).value, base, entries[k], 0)
  {
    hide Build;
  }

  lemma LandSimilar(host: Host, a: Nodes, b: Nodes, base: Where, e: Entry)
    requires Similar(a, b)
    ensures Land(host, a, base, e) == Land(host, b, base, e)
  {
    hide Spot;
    SpotSimilar(host, a, b, base, e, e.kind.File?);
  }

  lemma LandsNext(host: Host, start: Nodes, base: Where, entries: seq<Entry>, k: nat)
    requires k < |entries| && Skeleton(host, start, base, entries, k + 1).Ok?
    ensures Skeleton(host, start, base, entries, k).Ok? && Land(host, Skeleton(host, start, base, entries, k).value, base, entries[k]).Ok?
    ensures Lands(host, start, base, entries, k + 1)
      == Lands(host, start, base, entries, k) + {Land(host, Skeleton(host, start, base, entries, k).value, base, entries[k]).value}
  {
    hide Spot;
  }

  lemma {:induction false} SkeletonStops(host: Host, start: Nodes, base: Where, entries: seq<Entry>, i: nat, k: nat)
    requires i <= k <= |entries| && Skeleton(host, start, base, entries, i).Fail?
    ensures Skeleton(host, start, base, entries, k).Fail?
    decreases k - i
  {
    hide Build;
    if i < k { SkeletonStops(host, start, base, entries, i, k - 1); }
  }

  /* ----- the second pass ----- */

  lemma PlaceKnown(host: Host, a: Nodes, base: Where, e: Entry, b: Nodes, w: Where)
    requires FileTree(a) && BuildModes(base, a) && Steady(host, a, b) && PlainPath(e) && Build(host, a, base, e, 0).Ok?
    requires Ok(w) == Land(host, a, base, e) || Ok(w) == Seat(host, a, base, e)
    ensures BuildAbove(base, b, w)
  {
    hide Spot, FileTree, BuildModes, Steady, Permits, BuildAbove, PlainPath, Place;
    SeatOf(host, a, base, e);
    AboveLater(host, base, a, b, w);
  }

  /** Mode, owner and time of one row, once everything in it is in place. */
  method FinishDisk(disk: Disk, row: PlanRow, comps: seq<Bytes>, ghost e: Entry, ghost a: Nodes) returns (ok: bool)
    requires row == RowOf(e) && comps == Split(e.name) && PlainPath(e) && Build(disk.host, a, disk.base, e, 0).Ok?
    requires FileTree(a) && BuildModes(disk.base, a) && disk.base in a && Open(disk.host, a, disk.base)
    requires RowBuilt(disk.host, a, disk.base, e, disk.nodes) && Steady(disk.host, a, disk.nodes) && WellOrdered(disk.base, disk.history)
    modifies disk
    ensures ok <==> Finish(disk.host, old(disk.nodes), disk.base, e).Ok?
    ensures ok ==> Finish(disk.host, old(disk.nodes), disk.base, e) == Ok(disk.nodes)
    ensures ok ==> disk.touched == old(disk.touched) + PlacesOf(disk.host, Ok(a), disk.base, e, true)
    ensures WellOrdered(disk.base, disk.history) && old(disk.history) <= disk.history
  {
    hide Find, FileTree, BuildModes, Steady, WellOrdered, Split, RowBuilt, PlainPath, Build, Land, Seat, SetMode, SetOwner, SetTime, Open;
    ghost var host, base := disk.host, disk.base;
    ghost var b := disk.nodes;
    RowFactsAt(host, a, base, e, b);
    OpenSteady(host, a, b, base);
    ghost var land, seat := Land(host, a, base, e).value, Seat(host, a, base, e).value;
    PlaceKnown(host, a, base, e, b, land);
    PlaceKnown(host, a, base, e, b, seat);
    if !row.kind.Symlink? {
      ChangeOrdered(base, disk.history, b, land);
      ChangeMode(host, a, base, e, b);
      ok := disk.Amend(comps, true, SetMode(row.mode));
    }
    ghost var b1 := disk.nodes;
    RowFactsAt(host, a, base, e, b1);
    OpenSteady(host, a, b1, base);
    PlaceKnown(host, a, base, e, b1, seat);
    if disk.host.uid == 0 {
      ChangeOrdered(base, disk.history, b1, seat);
      ChangeOwner(host, a, base, e, b1);
      ok := disk.Amend(comps, false, SetOwner());
    }
    ghost var b2 := disk.nodes;
    RowFactsAt(host, a, base, e, b2);
    OpenSteady(host, a, b2, base);
    PlaceKnown(host, a, base, e, b2, seat);
    ChangeOrdered(base, disk.history, b2, seat);
    ok := disk.Amend(comps, false, SetTime());
  }

  lemma RowFactsAt(host: Host, a: Nodes, base: Where, e: Entry, b: Nodes)
    requires FileTree(a) && base in a && RowBuilt(host, a, base, e, b) && Steady(host, a, b)
    ensures var land, seat := Land(host, a, base, e), Seat(host, a, base, e);
      && land.Ok? && seat.Ok? && land.value in b && seat.value in b && Owned(host, b[land.value])
      && Spot(host, b, base, e, false) == seat && (!e.kind.Symlink? ==> Spot(host, b, base, e, true) == land)
      && (e.kind.Symlink? ==> seat == land)
  {
    hide Spot, FileTree, Steady;
    RowSpots(host, a, base, e, b);
  }

  lemma ChangeMode(host: Host, a: Nodes, base: Where, e: Entry, b: Nodes)
    requires RowBuilt(host, a, base, e, b) && Steady(host, a, b) && Land(host, a, base, e).Ok?
    ensures var land := Land(host, a, base, e).value; var c := b[land := SetMode(e.mode % 0x1000)(b[land])];
      RowBuilt(host, a, base, e, c) && Steady(host, a, c)
  {
    hide Spot, Steady;
    var land := Land(host, a, base, e).value;
    ChangeKeeps(host, a, base, e, b, land, SetMode(e.mode % 0x1000)(b[land]));
  }

  lemma ChangeOwner(host: Host, a: Nodes, base: Where, e: Entry, b: Nodes)
    requires RowBuilt(host, a, base, e, b) && Steady(host, a, b) && Seat(host, a, base, e).Ok? && host.uid == 0
    ensures var seat := Seat(host, a, base, e).value; var c := b[seat := SetOwner()(b[seat])];
      RowBuilt(host, a, base, e, c) && Steady(host, a, c)
  {
    hide Spot, Steady, AfterChown;
    var seat := Seat(host, a, base, e).value;
    ChangeKeeps(host, a, base, e, b, seat, SetOwner()(b[seat]));
  }

  lemma RowReady(host: Host, start: Nodes, base: Where, entries: seq<Entry>, k: nat, b: Nodes)
    requires FileTree(start) && BuildModes(base, start) && base in start && k < |entries| && PlainPath(entries[k])
    requires Skeleton(host, start, base, entries, k + 1).Ok? && Steady(host, Skeleton(host, start, base, entries, k + 1).value, b)
    ensures Skeleton(host, start, base, entries, k).Ok?
    ensures var a := Skeleton(host, start, base, entries, k).value;
      && FileTree(a) && BuildModes(base, a) && base in a && Build(host, a, base, entries[k], 0).Ok?
      && RowBuilt(host, a, base, entries[k], b) && Steady(host, a, b)
  {
    hide Skeleton, FileTree, BuildModes, PlainPath, Steady, RowBuilt, Build;
    SkeletonKeeps(host, start, base, entries, k, k + 1);
    SkeletonKeeps(host, start, base, entries, k, k);
    SkeletonNext(host, start, base, entries, k);
    var a, next := Skeleton(host, start, base, entries, k).value, Skeleton(host, start, base, entries, k + 1).value;
    StartKept(host, start, base, entries, k);
    RowBuiltNow(host, a, base, entries[k], 0);
    RowBuiltLater(host, a, base, entries[k], next, b);
    SteadyTrans(host, a, next, b);
  }

  lemma PlainPaths(entries: seq<Entry>)
    requires GoodLayer(entries)
    ensures forall i :: 0 <= i < |entries| ==> PlainPath(entries[i])
  {
    hide GoodLayer, PlainPath, SafeRelative, RowOf;
    forall i | 0 <= i < |entries| ensures PlainPath(entries[i]) { RowFacts(entries, i); }
  }

  /** In reverse, so that a directory is finished after everything in it.  Fails only at a
      link it does not own, which can only lie outside the layer. */
  method SecondPass(disk: Disk, rows: seq<PlanRow>, ghost entries: seq<Entry>, ghost start: Nodes) returns (ok: bool)
    requires GoodLayer(entries) && rows == RowsOf(entries) && WellOrdered(disk.base, disk.history)
    requires FileTree(start) && BuildModes(disk.base, start) && disk.base in start && Open(disk.host, start, disk.base)
    requires Skeleton(disk.host, start, disk.base, entries, |entries|).Ok?
    requires Similar(disk.nodes, Skeleton(disk.host, start, disk.base, entries, |entries|).value)
    modifies disk
    ensures ok <==> SeatsOwned(disk.host, start, disk.base, entries, 0)
    ensures ok ==> Finished(disk.host, old(disk.nodes), disk.base, entries, 0) == Ok(disk.nodes)
    ensures ok ==> SeatsTimed(disk.host, start, disk.base, entries, 0, disk.nodes) && Steady(disk.host, start, disk.nodes)
    ensures ok ==> disk.touched == old(disk.touched) + Seats(disk.host, start, disk.base, entries, 0)
    ensures WellOrdered(disk.base, disk.history) && old(disk.history) <= disk.history
  {
    hide Split, GoodLayer, SafeRelative, WellOrdered, FileTree, BuildModes, Build, RowOf, Similar, Skeleton, Seats, PlainPath, Steady,
         Finish, Finished, RowBuilt, SeatsOwned, SeatsTimed, PlacesOf, Open;
    ghost var host, base, built := disk.host, disk.base, disk.nodes;
    SimilarSteady(host, built, Skeleton(host, start, base, entries, |entries|).value);
    PlainPaths(entries);
    NothingFinished(host, start, built, base, entries);
    ok := true;
    for k := |rows| downto 0
      invariant ok && Finished(host, built, base, entries, k) == Ok(disk.nodes)
      invariant WellOrdered(base, disk.history) && old(disk.history) <= disk.history
      invariant disk.touched == old(disk.touched) + Seats(host, start, base, entries, k)
    {
      var row := rows[k];
      RowFacts(entries, k);
      var comps := SafeRelative(row.path);
      FinishAll(host, start, base, entries, built, k + 1);
      RowReady(host, start, base, entries, k, disk.nodes);
      SkeletonOpen(host, start, base, entries, k);
      FinishedNext(host, start, built, base, entries, k);
      ok := FinishDisk(disk, row, comps.value, entries[k], Skeleton(host, start, base, entries, k).value);
      if !ok {
        FinishAll(host, start, base, entries, built, k);
        NotAllOwned(host, start, base, entries, k);
        return;
      }
    }
    FinishAll(host, start, base, entries, built, 0);
    NothingBuilt(host, start, base, entries);
  }

  lemma SkeletonOpen(host: Host, start: Nodes, base: Where, entries: seq<Entry>, k: nat)
    requires FileTree(start) && BuildModes(base, start) && Open(host, start, base) && k <= |entries| && Skeleton(host, start, base, entries, k).Ok?
    ensures Open(host, Skeleton(host, start, base, entries, k).value, base)
  {
    hide FileTree, BuildModes, Open, Steady, Skeleton;
    SkeletonKeeps(host, start, base, entries, 0, k);
    NothingBuilt(host, start, base, entries);
    OpenSteady(host, start, Skeleton(host, start, base, entries, k).value, base);
  }

  lemma NothingFinished(host: Host, start: Nodes, built: Nodes, base: Where, entries: seq<Entry>)
    ensures Finished(host, built, base, entries, |entries|) == Ok(built) && Seats(host, start, base, entries, |entries|) == {}
  {
  }

  lemma FinishedNext(host: Host, start: Nodes, built: Nodes, base: Where, entries: seq<Entry>, k: nat)
    requires k < |entries| && Finished(host, built, base, entries, k + 1).Ok?
    ensures Finished(host, built, base, entries, k) == Finish(host, Finished(host, built, base, entries, k + 1).value, base, entries[k])
    ensures Seats(host, start, base, entries, k)
      == Seats(host, start, base, entries, k + 1) + PlacesOf(host, Skeleton(host, start, base, entries, k), base, entries[k], true)
  {
    hide Finish, PlacesOf, Skeleton;
  }

  lemma NotAllOwned(host: Host, start: Nodes, base: Where, entries: seq<Entry>, k: nat)
    requires k <= |entries| && !SeatsOwned(host, start, base, entries, k)
    ensures !SeatsOwned(host, start, base, entries, 0)
  {
    hide Skeleton, SeatOwned;
  }

  /* ----- the whole ----- */

  function RootFinished(host: Host, nodes: Nodes, base: Where): Nodes
    requires base in nodes
  {
    var owned := if host.uid == 0 then SetOwner()(nodes[base]) else nodes[base];
    nodes[base := SetTime()(owned)]
  }

  /** The root last: its time was disturbed by every entry created in it. */
  method FinishRoot(disk: Disk) returns (ok: bool)
    requires disk.base in disk.nodes && WellOrdered(disk.base, disk.history) && Open(disk.host, disk.nodes, disk.base)
    modifies disk
    ensures ok <==> Owned(disk.host, old(disk.nodes)[disk.base])
    ensures ok ==> disk.nodes == RootFinished(disk.host, old(disk.nodes), disk.base) && disk.touched == old(disk.touched) + {disk.base}
    ensures WellOrdered(disk.base, disk.history) && old(disk.history) <= disk.history
  {
    hide WellOrdered, AfterChown, Open;
    ghost var base := disk.base;
    if disk.host.uid == 0 {
      ChangeOrdered(base, disk.history, disk.nodes, base);
      RootOpen(disk.host, disk.nodes, base, SetOwner()(disk.nodes[base]));
      ok := disk.Amend([], true, SetOwner());
    }
    ChangeOrdered(base, disk.history, disk.nodes, base);
    ok := disk.Amend([], true, SetTime());
  }

  lemma RootOpen(host: Host, nodes: Nodes, base: Where, node: Node)
    requires Open(host, nodes, base)
    ensures Open(host, nodes[base := node], base)
  {
    forall k | 0 <= k < |base| ensures Enterable(host, nodes[base := node], base[..k]) { assert |base[..k]| < |base|; }
  }

  /** The tree the passes begin with. */
  function Begun(host: Host, nodes: Nodes, base: Where): Result<Nodes> {
    if base in nodes && !(nodes[base].kind.Directory? && Listable(host, nodes[base])) then Fail
    else WithDirectory(host, nodes, base)
  }

  /** When staging goes through: the root is empty or can be made, belongs to this user, each
      entry in turn has a place, and no link of someone else's stands in the way. */
  ghost predicate Stageable(host: Host, nodes: Nodes, base: Where, entries: seq<Entry>) {
    && Vacant(nodes, base) && Begun(host, nodes, base).Ok?
    && var start := Begun(host, nodes, base).value;
       && base in start && Owned(host, start[base])
       && Skeleton(host, start, base, entries, |entries|).Ok? && SeatsOwned(host, start, base, entries, 0)
  }

  /** The tree it leaves, but for times. */
  ghost function Outcome(host: Host, nodes: Nodes, base: Where, entries: seq<Entry>): Result<Nodes>
    requires Begun(host, nodes, base).Ok?
  {
    match Skeleton(host, Begun(host, nodes, base).value, base, entries, |entries|)
    case Fail => Fail
    case Ok(built) =>
      match Finished(host, built, base, entries, 0)
      case Fail => Fail
      case Ok(n) => if base in n then Ok(RootFinished(host, n, base)) else Fail
  }

  /** Every place staging creates or changes, from the staging root on. */
  ghost function Places(host: Host, nodes: Nodes, base: Where, entries: seq<Entry>): set<Where>
    requires Begun(host, nodes, base).Ok?
  {
    var start := Begun(host, nodes, base).value;
    Lands(host, start, base, entries, |entries|) + Seats(host, start, base, entries, 0) + {base}
  }

  lemma {:induction false} FinishedSimilar(host: Host, a: Nodes, b: Nodes, base: Where, entries: seq<Entry>, k: nat)
    requires Similar(a, b) && k <= |entries|
    ensures BothSimilar(Finished(host, a, base, entries, k), Finished(host, b, base, entries, k))
    decreases |entries| - k
  {
    hide Similar, WithMode, WithOwner, WithTime;
    if k < |entries| {
      FinishedSimilar(host, a, b, base, entries, k + 1);
      if Finished(host, a, base, entries, k + 1).Ok? {
        var x, y := Finished(host, a, base, entries, k + 1).value, Finished(host, b, base, entries, k + 1).value;
        FinishSimilarly(host, x, y, base, entries[k]);
      }
    }
  }

  lemma FinishSimilarly(host: Host, a: Nodes, b: Nodes, base: Where, e: Entry)
    requires Similar(a, b)
    ensures BothSimilar(Finish(host, a, base, e), Finish(host, b, base, e))
  {
    hide Similar, WithMode, WithOwner, WithTime;
    FinishSimilar(host, a, b, base, e);
    if WithMode(host, a, base, e).Ok? {
      var a1, b1 := WithMode(host, a, base, e).value, WithMode(host, b, base, e).value;
      FinishSimilar(host, a1, b1, base, e);
      if WithOwner(host, a1, base, e).Ok? {
        FinishSimilar(host, WithOwner(host, a1, base, e).value, WithOwner(host, b1, base, e).value, base, e);
      }
    }
  }

  lemma BeginFacts(host: Host, nodes: Nodes, base: Where)
    requires FileTree(nodes) && Vacant(nodes, base) && Begun(host, nodes, base).Ok?
    ensures var start := Begun(host, nodes, base).value;
      FileTree(start) && BuildModes(base, start) && base in start && start[base].kind.Directory? && Open(host, start, base)
  {
    hide FileTree, Permits, WithDirectory, Open;
    DirectoryKeeps(host, nodes, base, base);
    DirectoryOpen(host, nodes, base, base);
  }

  lemma VacantModes(nodes: Nodes, base: Where)
    requires Vacant(nodes, base)
    ensures BuildModes(base, nodes)
  {
  }

  lemma SteadyBase(host: Host, start: Nodes, nodes: Nodes, base: Where)
    requires Steady(host, start, nodes) && base in start && start[base].kind.Directory?
    ensures base in nodes && (Owned(host, nodes[base]) <==> Owned(host, start[base]))
  {
  }

  lemma RootTimed(host: Host, start: Nodes, base: Where, entries: seq<Entry>, nodes: Nodes)
    requires base in nodes && SeatsTimed(host, start, base, entries, 0, nodes)
    ensures SeatsTimed(host, start, base, entries, 0, RootFinished(host, nodes, base))
  {
    hide Skeleton, Seat, AfterChown;
  }

  lemma RootSimilar(host: Host, a: Nodes, b: Nodes, base: Where)
    requires Similar(a, b) && base in a
    ensures base in b && Similar(RootFinished(host, a, base), RootFinished(host, b, base))
  {
    assert SameButTime(a[base], b[base]);
  }

  /** Staging goes through exactly when the plan is the layer's and the layer can be staged
      here.  Then the tree is the one the passes lead to; every entry's place and the root
      carry the canonical time, whatever the clock; what was created or changed are exactly
      those places and what was missing above the root; and nodes appear after their
      directory and change while every directory between the root and them carries the build
      mode.  A refused plan or an occupied root changes nothing. */
  method StageTree(disk: Disk, plan: Plan, members: seq<Member>) returns (r: Result<seq<Bytes>>)
    requires FileTree(disk.nodes) && WellOrdered(disk.base, disk.history)
    modifies disk
    ensures r.Ok? <==> PlanFits(plan, members) && Stageable(disk.host, old(disk.nodes), disk.base, EntriesOf(members))
    ensures r.Ok? ==> var entries := EntriesOf(members);
      && r.value == Names(entries) && Begun(disk.host, old(disk.nodes), disk.base).Ok?
      && Outcome(disk.host, old(disk.nodes), disk.base, entries).Ok?
      && Similar(disk.nodes, Outcome(disk.host, old(disk.nodes), disk.base, entries).value)
      && SeatsTimed(disk.host, Begun(disk.host, old(disk.nodes), disk.base).value, disk.base, entries, 0, disk.nodes)
      && disk.base in disk.nodes && disk.nodes[disk.base].mtime == CANONICAL_TIME
    ensures r.Ok? ==> forall x :: x in disk.touched <==>
      || x in old(disk.touched) || x in Places(disk.host, old(disk.nodes), disk.base, EntriesOf(members))
      || (AtOrAbove(x, disk.base) && x !in old(disk.nodes))
    ensures !PlanFits(plan, members) || !Vacant(old(disk.nodes), disk.base) ==> disk.nodes == old(disk.nodes)
    ensures WellOrdered(disk.base, disk.history) && old(disk.history) <= disk.history
  {
    hide PlanFits, LayerAccepted, EntryOf, RowOf, GoodLayer, WellOrdered, FileTree, BuildModes, Similar, Skeleton, Steady, Increasing,
         SeatsOwned, SeatsTimed, Seats, Lands, Finished, RootFinished, WithDirectory, Permits, Open;
    ghost var host, base, before := disk.host, disk.base, disk.nodes;
    var matched := AssertPlanMatchesLayer(plan, members);
    if matched.Fail? { return Fail; }
    var rows := matched.value;
    if disk.base in disk.nodes && !(disk.nodes[disk.base].kind.Directory? && Listable(disk.host, disk.nodes[disk.base])) { return Fail; }
    if exists w :: w in disk.nodes && StrictlyBelow(disk.base, w) { return Fail; }
    var ok := MakeDirectories(disk, disk.base);
    if !ok { return Fail; }
    ghost var start := Begun(host, before, base).value;
    BeginFacts(host, before, base);
    SimilarSteady(host, disk.nodes, start);
    BaseKept(host, start, disk.nodes, base);
    OpenSteady(host, start, disk.nodes, base);
    VacantModes(disk.nodes, base);
    var entries := FittingLayer(plan, members);
    LayerNames(entries);
    var contents := ContentsByName(entries);
    r := FirstPass(disk, rows, contents, entries, start);
    if r.Fail? { return Fail; }
    ghost var built := disk.nodes;
    ok := SecondPass(disk, rows, entries, start);
    if !ok { return Fail; }
    ghost var finished := disk.nodes;
    SteadyBase(host, start, finished, base);
    OpenSteady(host, start, finished, base);
    FinishedSimilar(host, built, Skeleton(host, start, base, entries, |entries|).value, base, entries, 0);
    RootSimilar(host, finished, Finished(host, Skeleton(host, start, base, entries, |entries|).value, base, entries, 0).value, base);
    RootTimed(host, start, base, entries, finished);
    RootTime(host, finished, base);
    ok := FinishRoot(disk);
    if !ok { return Fail; }
  }

  lemma RootTime(host: Host, nodes: Nodes, base: Where)
    requires base in nodes
    ensures base in RootFinished(host, nodes, base) && RootFinished(host, nodes, base)[base].mtime == CANONICAL_TIME
  {
  }

  lemma LayerNames(entries: seq<Entry>)
    requires GoodLayer(entries)
    ensures entries != [] && Increasing(Names(entries))
  {
    hide Normalized, Utf8, Increasing, Coherent;
  }

  /** The layer read again, now known to be acceptable. */
  method FittingLayer(plan: Plan, members: seq<Member>) returns (entries: seq<Entry>)
    requires PlanFits(plan, members)
    ensures entries == EntriesOf(members) && GoodLayer(entries) && plan.rows == RowsOf(entries)
  {
    hide GoodLayer, EntryOf, RowOf, Increasing;
    var layer := LayerEntries(members);
    entries := layer.value;
  }
}
