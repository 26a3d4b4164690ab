/** When staging stays below its root: a condition on the layer alone, for every disk the
    root may lie on. */
module StageContain {
  import opened ByteStrings
  import opened Paths
  import opened Initrd
  import opened StagePlan
  import opened StageDisk
  import opened StageLookup
  import opened StageRuns
  import opened StageTree
  import opened StagePlain

  /* ----- a layer by itself ----- */

  datatype Thing = Folder | Alias(target: Bytes) | Data

  /** What lies below the staging root, by place relative to it. */
  type Table = map<Where, Thing>

  datatype Trip = Arrives(at: Where) | Leaves | Stuck

  predicate IsFolder(table: Table, w: Where) { w == [] || (w in table && table[w].Folder?) }

  /** Lookup within the layer: where a path leads, that it steps out of the root, or that it
      leads nowhere. */
  function Travel(table: Table, cur: Where, comps: seq<Bytes>, follow: bool, fuel: nat): Trip
    decreases fuel, |comps|
  {
    if comps == [] then Arrives(cur)
    else
      var c, rest := comps[0], comps[1..];
      var next := cur + [c];
      if c == [] || c == DOT then Travel(table, cur, rest, follow, fuel)
      else if c == DOTDOT then (if cur == [] then Leaves else Travel(table, Up(cur), rest, follow, fuel))
      else if next in table && table[next].Alias? && (rest != [] || follow) then
        if fuel == 0 then Stuck
        else if Absolute(table[next].target) then Leaves
        else Travel(table, cur, Split(table[next].target) + rest, follow, fuel - 1)
      else if rest == [] then Arrives(next)
      else if IsFolder(table, next) then Travel(table, next, rest, follow, fuel)
      else Stuck
  }

  function ThingOf(e: Entry): Thing {
    match e.kind
    case Directory => Folder
    case Symlink => Alias(e.data)
    case File => Data
  }

  function RowTrip(table: Table, e: Entry, limit: nat): Trip { Travel(table, [], Split(e.name), e.kind.File?, limit) }

  /** The layer's next entry: a free place in a folder, or a file to rewrite. */
  function FrameStep(table: Table, e: Entry, limit: nat): Option<Table> {
    var trip := RowTrip(table, e, limit);
    if !trip.Arrives? || trip.at == [] then None
    else if trip.at !in table then (if IsFolder(table, Up(trip.at)) && LinkPoints(e) then Some(table[trip.at := ThingOf(e)]) else None)
    else if e.kind.File? && table[trip.at].Data? then Some(table)
    else None
  }

  function Frame(entries: seq<Entry>, limit: nat, k: nat): Option<Table>
    requires k <= |entries|
  {
    if k == 0 then Some(map[])
    else match Frame(entries, limit, k - 1)
      case None => None
      case Some(table) => FrameStep(table, entries[k - 1], limit)
  }

  /** Entry `i`, reached with everything before it in place, is looked for outside the root. */
  predicate StepsOut(entries: seq<Entry>, limit: nat, i: nat)
    requires i < |entries|
  {
    Frame(entries, limit, i).Some? && RowTrip(Frame(entries, limit, i).value, entries[i], limit) == Leaves
  }

  /** No entry is ever looked for outside the root. */
  predicate StaysInside(entries: seq<Entry>, limit: nat) { forall i :: 0 <= i < |entries| ==> !StepsOut(entries, limit, i) }

  /* ----- the layer on a disk ----- */

  predicate TableTree(table: Table) { [] !in table && forall r :: r in table ==> IsFolder(table, Up(r)) }

  predicate MirrorsAt(host: Host, node: Node, thing: Thing) {
    && Owned(host, node)
    && match thing
       case Folder => node.kind.Directory? && Searchable(host, node) && Writable(host, node)
       case Alias(target) => node.kind.Symlink? && node.content == target
       case Data => node.kind.File? && Writable(host, node)
  }

  /** Below a root that can be filled, the disk holds the table and it is all this user's. */
  predicate Mirrors(host: Host, base: Where, table: Table, nodes: Nodes) {
    && base in nodes && RootUsable(host, nodes[base]) && TableTree(table)
    && HoldsTable(host, base, table, nodes) && OnlyTable(base, table, nodes)
  }

  predicate HoldsTable(host: Host, base: Where, table: Table, nodes: Nodes) {
    forall r :: r in table ==> base + r in nodes && MirrorsAt(host, nodes[base + r], table[r])
  }

  predicate OnlyTable(base: Where, table: Table, nodes: Nodes) {
    forall w :: w in nodes && StrictlyBelow(base, w) ==> w[|base|..] in table
  }

  lemma MirrorsPlace(host: Host, base: Where, table: Table, nodes: Nodes, r: Where)
    requires Mirrors(host, base, table, nodes) && r != []
    ensures base + r in nodes <==> r in table
    ensures r in table ==> MirrorsAt(host, nodes[base + r], table[r])
  {
    assert StrictlyBelow(base, base + r) && (base + r)[|base|..] == r;
  }

  lemma FolderOpen(host: Host, base: Where, table: Table, nodes: Nodes, r: Where)
    requires Mirrors(host, base, table, nodes) && IsFolder(table, r)
    ensures Enterable(host, nodes, base + r) && Writable(host, nodes[base + r])
  {
    hide Permits;
    if r == [] {
      assert base + [] == base;
    } else {
      MirrorsPlace(host, base, table, nodes, r);
    }
  }

  /** The places lookup stands on. */
  function StandsOn(host: Host, nodes: Nodes, cur: Where, comps: seq<Bytes>, follow: bool, fuel: nat): set<Where>
    decreases fuel, |comps|
  {
    if comps == [] || !Enterable(host, nodes, cur) then {cur}
    else
      var c, rest := comps[0], comps[1..];
      var next := cur + [c];
      {cur} +
      if c == [] || c == DOT then StandsOn(host, nodes, cur, rest, follow, fuel)
      else if c == DOTDOT then StandsOn(host, nodes, Up(cur), rest, follow, fuel)
      else if next in nodes && nodes[next].kind.Symlink? && (rest != [] || follow) then
        if fuel == 0 then {}
        else StandsOn(host, nodes, if Absolute(nodes[next].content) then [] else cur, Split(nodes[next].content) + rest, follow, fuel - 1)
      else if rest != [] && next in nodes && nodes[next].kind.Directory? then StandsOn(host, nodes, next, rest, follow, fuel)
      else {}
  }

  predicate AllBelow(base: Where, places: set<Where>) { forall w :: w in places ==> AtOrAbove(base, w) }

  lemma StandsHere(host: Host, nodes: Nodes, cur: Where, comps: seq<Bytes>, follow: bool, fuel: nat)
    ensures cur in StandsOn(host, nodes, cur, comps, follow, fuel)
  {
  }

  lemma BelowParts(base: Where, r: Where)
    ensures AtOrAbove(base, base + r)
    ensures base != [] ==> !AtOrAbove(base, Up(base)) && !AtOrAbove(base, [])
    ensures r != [] ==> Up(base + r) == base + Up(r)
  {
  }

  lemma BelowUnion(base: Where, a: set<Where>, b: set<Where>)
    ensures AllBelow(base, a + b) <==> AllBelow(base, a) && AllBelow(base, b)
  {
  }

  /** Lookup on the disk does what lookup in the layer says: it arrives where that arrives,
      fails where that is stuck, and stands outside the root exactly if that leaves. */
  lemma {:induction false} TravelFind(host: Host, base: Where, table: Table, nodes: Nodes, cur: Where, comps: seq<Bytes>, follow: bool, fuel: nat)
    requires base != [] && Mirrors(host, base, table, nodes) && IsFolder(table, cur)
    ensures var trip, found := Travel(table, cur, comps, follow, fuel), Find(host, nodes, base + cur, comps, follow, fuel);
      (trip.Arrives? ==> found == Ok(base + trip.at)) && (trip.Stuck? ==> found.Fail?)
    ensures AllBelow(base, StandsOn(host, nodes, base + cur, comps, follow, fuel)) <==> Travel(table, cur, comps, follow, fuel) != Leaves
    decreases fuel, |comps|
  {
    hide Split, Permits, Mirrors, MirrorsAt;
    FolderOpen(host, base, table, nodes, cur);
    BelowParts(base, cur);
    if comps != [] {
      var c, rest := comps[0], comps[1..];
      var next := cur + [c];
      assert base + next == base + cur + [c];
      MirrorsPlace(host, base, table, nodes, next);
      if next in table { MirrorKinds(host, nodes[base + next], table[next]); }
      if c == [] || c == DOT {
        TravelFind(host, base, table, nodes, cur, rest, follow, fuel);
      } else if c == DOTDOT {
        if cur == [] {
          assert base + [] == base;
          StandsHere(host, nodes, Up(base), rest, follow, fuel);
        } else {
          MirrorsTree(host, base, table, nodes, cur);
          TravelFind(host, base, table, nodes, Up(cur), rest, follow, fuel);
        }
      } else if next in table && table[next].Alias? && (rest != [] || follow) {
        if fuel > 0 {
          var more := Split(table[next].target) + rest;
          if Absolute(table[next].target) {
            StandsHere(host, nodes, [], more, follow, fuel - 1);
          } else {
            TravelFind(host, base, table, nodes, cur, more, follow, fuel - 1);
          }
        }
      } else if rest != [] && IsFolder(table, next) {
        TravelFind(host, base, table, nodes, next, rest, follow, fuel);
      }
    }
  }

  lemma MirrorKinds(host: Host, node: Node, thing: Thing)
    requires MirrorsAt(host, node, thing)
    ensures node.kind.Symlink? <==> thing.Alias?
    ensures node.kind.Directory? <==> thing.Folder?
    ensures node.kind.File? <==> thing.Data?
    ensures thing.Alias? ==> node.content == thing.target
  {
  }

  lemma MirrorsTree(host: Host, base: Where, table: Table, nodes: Nodes, r: Where)
    requires Mirrors(host, base, table, nodes) && IsFolder(table, r)
    ensures IsFolder(table, Up(r))
  {
  }

  /* ----- building the layer inside its root ----- */

  lemma MirrorsNone(host: Host, base: Where, nodes: Nodes)
    requires base in nodes && RootUsable(host, nodes[base]) && Vacant(nodes, base)
    ensures Mirrors(host, base, map[], nodes)
  {
  }

  lemma BuiltMirrors(host: Host, e: Entry, node: Node)
    requires SameButTime(node, BuiltNode(host, e))
    ensures MirrorsAt(host, node, ThingOf(e))
  {
  }

  lemma MirrorsSame(host: Host, a: Node, b: Node, thing: Thing)
    requires SameButTime(a, b)
    ensures MirrorsAt(host, a, thing) <==> MirrorsAt(host, b, thing)
    ensures RootUsable(host, a) <==> RootUsable(host, b)
  {
  }

  lemma TreeNext(table: Table, r: Where, thing: Thing)
    requires TableTree(table) && r != [] && r !in table && IsFolder(table, Up(r))
    ensures TableTree(table[r := thing])
  {
  }

  lemma RelativePlaces(base: Where, x: Where, r: Where)
    ensures base + x == base + r <==> x == r
    ensures (base + r)[|base|..] == r
  {
    assert (base + x)[|base|..] == x && (base + r)[|base|..] == r;
  }

  lemma HoldsNext(host: Host, base: Where, table: Table, nodes: Nodes, r: Where, thing: Thing, next: Nodes)
    requires HoldsTable(host, base, table, nodes) && r !in table && base + r in next && MirrorsAt(host, next[base + r], thing)
    requires forall x :: x in nodes ==> x in next && SameButTime(next[x], nodes[x])
    ensures HoldsTable(host, base, table[r := thing], next)
  {
    hide MirrorsAt, SameButTime;
    var more := table[r := thing];
    forall x | x in more ensures base + x in next && MirrorsAt(host, next[base + x], more[x]) {
      if x != r { MirrorsSame(host, next[base + x], nodes[base + x], table[x]); }
    }
  }

  lemma OnlyNext(base: Where, table: Table, nodes: Nodes, r: Where, thing: Thing, next: Nodes)
    requires OnlyTable(base, table, nodes) && forall x :: x in next ==> x in nodes || x == base + r
    ensures OnlyTable(base, table[r := thing], next)
  {
    RelativePlaces(base, r, r);
  }

  lemma MirrorsPlaced(host: Host, base: Where, table: Table, nodes: Nodes, r: Where, e: Entry)
    requires Mirrors(host, base, table, nodes) && r != [] && r !in table && IsFolder(table, Up(r)) && Up(base + r) in nodes
    ensures Mirrors(host, base, table[r := ThingOf(e)], Place(nodes, base + r, BuiltNode(host, e), 0))
  {
    hide MirrorsAt, Place, BuiltNode, RootUsable, HoldsTable, OnlyTable, TableTree, SameButTime, ThingOf;
    var next := Place(nodes, base + r, BuiltNode(host, e), 0);
    FreePlace(base, table, nodes, r);
    PlaceEffect(nodes, base + r, BuiltNode(host, e), 0);
    BuiltMirrors(host, e, next[base + r]);
    MirrorsSame(host, next[base], nodes[base], Data);
    TreeNext(table, r, ThingOf(e));
    HoldsNext(host, base, table, nodes, r, ThingOf(e), next);
    OnlyNext(base, table, nodes, r, ThingOf(e), next);
  }

  lemma FreePlace(base: Where, table: Table, nodes: Nodes, r: Where)
    requires OnlyTable(base, table, nodes) && r != [] && r !in table
    ensures base + r !in nodes
  {
    RelativePlaces(base, r, r);
    assert StrictlyBelow(base, base + r);
  }

  lemma MirrorsRewritten(host: Host, base: Where, table: Table, nodes: Nodes, r: Where, node: Node)
    requires Mirrors(host, base, table, nodes) && r in table && MirrorsAt(host, node, table[r])
    ensures Mirrors(host, base, table, nodes[base + r := node])
  {
    hide MirrorsAt, RootUsable;
    var next := nodes[base + r := node];
    assert base + r != base;
    forall x | x in table ensures base + x in next && MirrorsAt(host, next[base + x], table[x]) { RelativePlaces(base, x, r); }
    assert OnlyTable(base, table, next);
  }

  lemma RewrittenMirrors(host: Host, node: Node, data: Bytes)
    requires MirrorsAt(host, node, Data)
    ensures MirrorsAt(host, node.(content := data, mode := BUILD_FILE_MODE, mtime := 0), Data)
  {
  }

  /** One entry: on the disk it is built exactly when the layer has a place for it, unless it
      is looked for outside the root. */
  lemma StepExact(host: Host, base: Where, table: Table, nodes: Nodes, e: Entry)
    requires base != [] && Mirrors(host, base, table, nodes) && RowTrip(table, e, host.linkLimit) != Leaves
    ensures Build(host, nodes, base, e, 0).Ok? <==> FrameStep(table, e, host.linkLimit).Some?
    ensures Build(host, nodes, base, e, 0).Ok? ==> Mirrors(host, base, FrameStep(table, e, host.linkLimit).value, Build(host, nodes, base, e, 0).value)
    ensures Build(host, nodes, base, e, 0).Ok? ==> Land(host, nodes, base, e).Ok? && AtOrAbove(base, Land(host, nodes, base, e).value)
  {
    hide Find, Travel, Mirrors, MirrorsAt, Permits, Split, Place, BuiltNode;
    assert base + [] == base;
    TravelFind(host, base, table, nodes, [], Split(e.name), e.kind.File?, host.linkLimit);
    var trip := RowTrip(table, e, host.linkLimit);
    if trip.Arrives? {
      var r := trip.at;
      BelowParts(base, r);
      if r == [] {
        FolderOpen(host, base, table, nodes, []);
      } else {
        MirrorsPlace(host, base, table, nodes, r);
        if r in table {
          DataWritable(host, nodes[base + r], table[r]);
          if table[r].Data? {
            RewrittenMirrors(host, nodes[base + r], e.data);
            MirrorsRewritten(host, base, table, nodes, r, nodes[base + r].(content := e.data, mode := BUILD_FILE_MODE, mtime := 0));
          }
        } else {
          UpFolder(host, base, table, nodes, r);
          if IsFolder(table, Up(r)) {
            FolderOpen(host, base, table, nodes, Up(r));
            MirrorsPlaced(host, base, table, nodes, r, e);
          }
        }
      }
    }
  }

  lemma DataWritable(host: Host, node: Node, thing: Thing)
    requires MirrorsAt(host, node, thing)
    ensures node.kind.File? <==> thing.Data?
    ensures thing.Data? ==> Writable(host, node) && Owned(host, node)
  {
  }

  lemma UpFolder(host: Host, base: Where, table: Table, nodes: Nodes, r: Where)
    requires Mirrors(host, base, table, nodes) && r != []
    ensures CanPlace(host, nodes, base + r) ==> IsFolder(table, Up(r))
  {
    hide Permits;
    BelowParts(base, r);
    if Up(r) != [] { MirrorsPlace(host, base, table, nodes, Up(r)); }
  }

  /** As long as no entry is looked for outside the root, the disk follows the layer. */
  lemma {:induction false} FrameSkeleton(host: Host, start: Nodes, base: Where, entries: seq<Entry>, k: nat)
    requires base != [] && base in start && RootUsable(host, start[base]) && Vacant(start, base) && k <= |entries|
    requires forall i :: 0 <= i < k ==> !StepsOut(entries, host.linkLimit, i)
    ensures Skeleton(host, start, base, entries, k).Ok? <==> Frame(entries, host.linkLimit, k).Some?
    ensures Skeleton(host, start, base, entries, k).Ok? ==>
      Mirrors(host, base, Frame(entries, host.linkLimit, k).value, Skeleton(host, start, base, entries, k).value)
    decreases k
  {
    hide Build, FrameStep, RowTrip, Mirrors, RootUsable, Vacant;
    MirrorsNone(host, base, start);
    if k > 0 {
      FrameSkeleton(host, start, base, entries, k - 1);
      if Skeleton(host, start, base, entries, k - 1).Ok? {
        assert !StepsOut(entries, host.linkLimit, k - 1);
        StepExact(host, base, Frame(entries, host.linkLimit, k - 1).value, Skeleton(host, start, base, entries, k - 1).value, entries[k - 1]);
      }
    }
  }

  /** Every place lookup stands on, for every entry that is reached, lies below the root if and
      only if no entry of the layer is looked for outside it: a condition on the layer alone,
      whatever lies around the root. */
  lemma InsideExact(host: Host, start: Nodes, base: Where, entries: seq<Entry>)
    requires base != [] && base in start && RootUsable(host, start[base]) && Vacant(start, base)
    ensures (forall i :: 0 <= i < |entries| && Skeleton(host, start, base, entries, i).Ok? ==>
               AllBelow(base, StandsOn(host, Skeleton(host, start, base, entries, i).value, base, Split(entries[i].name), entries[i].kind.File?, host.linkLimit)))
            <==> StaysInside(entries, host.linkLimit)
  {
    hide Skeleton, Frame, StandsOn, AllBelow, RootUsable, Vacant, Split, RowTrip;
    if StaysInside(entries, host.linkLimit) {
      forall i | 0 <= i < |entries| && Skeleton(host, start, base, entries, i).Ok?
        ensures AllBelow(base, StandsOn(host, Skeleton(host, start, base, entries, i).value, base, Split(entries[i].name), entries[i].kind.File?, host.linkLimit))
      {
        FrameSkeleton(host, start, base, entries, i);
        assert !StepsOut(entries, host.linkLimit, i);
        RowStands(host, base, Frame(entries, host.linkLimit, i).value, Skeleton(host, start, base, entries, i).value, entries[i]);
      }
    } else {
      var i := FirstOut(entries, host.linkLimit);
      FrameSkeleton(host, start, base, entries, i);
      RowStands(host, base, Frame(entries, host.linkLimit, i).value, Skeleton(host, start, base, entries, i).value, entries[i]);
    }
  }

  lemma RowStands(host: Host, base: Where, table: Table, nodes: Nodes, e: Entry)
    requires base != [] && Mirrors(host, base, table, nodes)
    ensures AllBelow(base, StandsOn(host, nodes, base, Split(e.name), e.kind.File?, host.linkLimit)) <==> RowTrip(table, e, host.linkLimit) != Leaves
  {
    hide Mirrors, StandsOn, AllBelow, Split, Travel, Find;
    assert base + [] == base;
    TravelFind(host, base, table, nodes, [], Split(e.name), e.kind.File?, host.linkLimit);
  }

  lemma FirstOut(entries: seq<Entry>, limit: nat) returns (i: nat)
    requires !StaysInside(entries, limit)
    ensures i < |entries| && StepsOut(entries, limit, i) && forall j :: 0 <= j < i ==> !StepsOut(entries, limit, j)
  {
    hide StepsOut;
    i := 0;
    while !StepsOut(entries, limit, i)
      invariant i < |entries| && forall j :: 0 <= j < i ==> !StepsOut(entries, limit, j)
      decreases |entries| - i
    {
      i := i + 1;
    }
  }

  /* ----- everything that is touched ----- */

  lemma {:induction false} TravelSeat(table: Table, cur: Where, comps: seq<Bytes>, fuel: nat)
    requires EndsPlainly(comps) && Travel(table, cur, comps, true, fuel) != Leaves
    ensures Travel(table, cur, comps, false, fuel) != Leaves
    decreases fuel, |comps|
  {
    hide Split;
    var c, rest := comps[0], comps[1..];
    var next := cur + [c];
    assert rest != [] ==> rest[|rest| - 1] == comps[|comps| - 1];
    if c == [] || c == DOT {
      TravelSeat(table, cur, rest, fuel);
    } else if c == DOTDOT {
      TravelSeat(table, Up(cur), rest, fuel);
    } else if next in table && table[next].Alias? {
      if rest != [] && fuel > 0 {
        var more := Split(table[next].target) + rest;
        assert more[|more| - 1] == comps[|comps| - 1];
        TravelSeat(table, cur, more, fuel - 1);
      }
    } else if rest != [] && IsFolder(table, next) {
      TravelSeat(table, next, rest, fuel);
    }
  }

  /** A path that ends in a name does not lead to the root itself. */
  lemma {:induction false} TravelEnds(table: Table, cur: Where, comps: seq<Bytes>, fuel: nat)
    requires EndsPlainly(comps)
    ensures Travel(table, cur, comps, false, fuel).Arrives? ==> Travel(table, cur, comps, false, fuel).at != []
    decreases fuel, |comps|
  {
    hide Split;
    var c, rest := comps[0], comps[1..];
    var next := cur + [c];
    assert rest != [] ==> rest[|rest| - 1] == comps[|comps| - 1];
    if c == [] || c == DOT {
      TravelEnds(table, cur, rest, fuel);
    } else if c == DOTDOT {
      TravelEnds(table, Up(cur), rest, fuel);
    } else if next in table && table[next].Alias? && rest != [] {
      if fuel > 0 {
        var more := Split(table[next].target) + rest;
        assert more[|more| - 1] == comps[|comps| - 1];
        TravelEnds(table, cur, more, fuel - 1);
      }
    } else if rest != [] && IsFolder(table, next) {
      TravelEnds(table, next, rest, fuel);
    }
  }

  /** The seat of a row that stays inside: below the root, and this user's if it was there. */
  lemma SeatInside(host: Host, base: Where, table: Table, nodes: Nodes, e: Entry)
    requires base != [] && Mirrors(host, base, table, nodes) && RowTrip(table, e, host.linkLimit) != Leaves && PlainPath(e)
    requires Build(host, nodes, base, e, 0).Ok?
    ensures SeatOwned(host, nodes, base, e) && Seat(host, nodes, base, e).Ok? && AtOrAbove(base, Seat(host, nodes, base, e).value)
  {
    hide Mirrors, MirrorsAt, Travel, Find, Split, Permits, Build, Plain;
    var parts := Split(e.name);
    LandOfBuild(host, nodes, base, e);
    SeatOf(host, nodes, base, e);
    PlainEnds(parts);
    if e.kind.File? { TravelSeat(table, [], parts, host.linkLimit); }
    assert base + [] == base;
    TravelFind(host, base, table, nodes, [], parts, false, host.linkLimit);
    var trip := Travel(table, [], parts, false, host.linkLimit);
    BelowParts(base, trip.at);
    TravelEnds(table, [], parts, host.linkLimit);
    MirrorsPlace(host, base, table, nodes, trip.at);
    if trip.at in table { MirrorsOwned(host, nodes[base + trip.at], table[trip.at]); }
  }

  lemma LandOfBuild(host: Host, nodes: Nodes, base: Where, e: Entry)
    requires Build(host, nodes, base, e, 0).Ok?
    ensures Land(host, nodes, base, e).Ok?
  {
    hide Spot;
  }

  lemma PlainEnds(parts: seq<Bytes>)
    requires Plain(parts) && parts != []
    ensures EndsPlainly(parts)
  {
  }

  lemma MirrorsOwned(host: Host, node: Node, thing: Thing)
    requires MirrorsAt(host, node, thing)
    ensures Owned(host, node)
  {
  }

  lemma RowInside(host: Host, start: Nodes, base: Where, entries: seq<Entry>, k: nat)
    requires base != [] && base in start && RootUsable(host, start[base]) && Vacant(start, base) && k < |entries| && PlainPath(entries[k])
    requires StaysInside(entries, host.linkLimit) && Skeleton(host, start, base, entries, k + 1).Ok?
    ensures Skeleton(host, start, base, entries, k).Ok?
    ensures var a := Skeleton(host, start, base, entries, k).value;
      && SeatOwned(host, a, base, entries[k]) && AllBelow(base, PlacesOf(host, Ok(a), base, entries[k], true))
      && AllBelow(base, PlacesOf(host, Ok(a), base, entries[k], false))
  {
    hide Skeleton, Frame, RootUsable, Vacant, RowTrip, Mirrors, Build, Land, Seat, SeatOwned, PlainPath;
    SkeletonNext(host, start, base, entries, k);
    FrameSkeleton(host, start, base, entries, k);
    assert !StepsOut(entries, host.linkLimit, k);
    var a := Skeleton(host, start, base, entries, k).value;
    var table := Frame(entries, host.linkLimit, k).value;
    StepExact(host, base, table, a, entries[k]);
    SeatInside(host, base, table, a, entries[k]);
  }

  lemma {:induction false} LandsInside(host: Host, start: Nodes, base: Where, entries: seq<Entry>, k: nat)
    requires base != [] && base in start && RootUsable(host, start[base]) && Vacant(start, base) && k <= |entries|
    requires forall i :: 0 <= i < |entries| ==> PlainPath(entries[i])
    requires StaysInside(entries, host.linkLimit) && Skeleton(host, start, base, entries, k).Ok?
    ensures AllBelow(base, Lands(host, start, base, entries, k))
    decreases k
  {
    hide Skeleton, RootUsable, Vacant, PlacesOf, PlainPath, StaysInside;
    if k > 0 {
      RowInside(host, start, base, entries, k - 1);
      LandsInside(host, start, base, entries, k - 1);
      BelowUnion(base, Lands(host, start, base, entries, k - 1), PlacesOf(host, Skeleton(host, start, base, entries, k - 1), base, entries[k - 1], false));
    }
  }

  lemma {:induction false} SeatsInside(host: Host, start: Nodes, base: Where, entries: seq<Entry>, k: nat)
    requires base != [] && base in start && RootUsable(host, start[base]) && Vacant(start, base) && k <= |entries|
    requires forall i :: 0 <= i < |entries| ==> PlainPath(entries[i])
    requires FileTree(start) && BuildModes(base, start)
    requires StaysInside(entries, host.linkLimit) && Skeleton(host, start, base, entries, |entries|).Ok?
    ensures AllBelow(base, Seats(host, start, base, entries, k)) && SeatsOwned(host, start, base, entries, k)
    decreases |entries| - k
  {
    hide Skeleton, RootUsable, Vacant, PlacesOf, PlainPath, StaysInside, FileTree, BuildModes, SeatOwned;
    if k < |entries| {
      SkeletonKeeps(host, start, base, entries, k + 1, |entries|);
      RowInside(host, start, base, entries, k);
      SeatsInside(host, start, base, entries, k + 1);
      BelowUnion(base, Seats(host, start, base, entries, k + 1), PlacesOf(host, Skeleton(host, start, base, entries, k), base, entries[k], true));
    }
  }

  /** The first entry can only go into the root itself, which then can be filled. */
  lemma FirstRow(host: Host, start: Nodes, base: Where, e: Entry)
    requires Vacant(start, base) && base in start && PlainPath(e) && Build(host, start, base, e, 0).Ok?
    ensures RootUsable(host, start[base])
  {
    hide Split, Permits, Find;
    var at := Split(e.name);
    forall m | 0 < m <= |at| ensures base + at[..m] !in start {
      assert StrictlyBelow(base, base + at[..m]);
    }
    WalkDown(host, start, base, at, e.kind.File?, host.linkLimit);
    assert Enterable(host, start, base + at[..0]) && base + at[..0] == base;
    assert |at| > 1 ==> Enterable(host, start, base + at[..1]);
    assert |at| == 1 && at[..1] == at;
    assert Up(base + at) == base;
  }

  lemma InsideSkeleton(host: Host, start: Nodes, base: Where, entries: seq<Entry>)
    requires base != [] && base in start && Vacant(start, base) && FileTree(start) && BuildModes(base, start) && entries != []
    requires StaysInside(entries, host.linkLimit) && forall i :: 0 <= i < |entries| ==> PlainPath(entries[i])
    ensures Skeleton(host, start, base, entries, |entries|).Ok? <==> RootUsable(host, start[base]) && Frame(entries, host.linkLimit, |entries|).Some?
    ensures Skeleton(host, start, base, entries, |entries|).Ok? ==>
      && SeatsOwned(host, start, base, entries, 0)
      && AllBelow(base, Lands(host, start, base, entries, |entries|) + Seats(host, start, base, entries, 0) + {base})
  {
    hide Vacant, RootUsable, FileTree, Skeleton, Frame, StaysInside, Lands, Seats, SeatsOwned, BuildModes, PlainPath, AllBelow, Build;
    StaysPrefix(entries, host.linkLimit);
    if Skeleton(host, start, base, entries, |entries|).Ok? {
      SkeletonKeeps(host, start, base, entries, 1, |entries|);
      SkeletonNext(host, start, base, entries, 0);
      NothingBuilt(host, start, base, entries);
      FirstRow(host, start, base, entries[0]);
      FrameSkeleton(host, start, base, entries, |entries|);
      LandsInside(host, start, base, entries, |entries|);
      SeatsInside(host, start, base, entries, 0);
      BelowUnion(base, Lands(host, start, base, entries, |entries|), Seats(host, start, base, entries, 0));
      BelowUnion(base, Lands(host, start, base, entries, |entries|) + Seats(host, start, base, entries, 0), {base});
      RootBelow(base);
    }
    if RootUsable(host, start[base]) { FrameSkeleton(host, start, base, entries, |entries|); }
  }

  lemma RootBelow(base: Where)
    ensures AllBelow(base, {base})
  {
  }

  /** A layer none of whose entries is looked for outside the root can be staged exactly when
      the root is empty, or can be made, and this user's to fill, and each entry in turn has a
      place in the layer; and then whatever is created or changed lies below the root. */
  lemma InsideStageable(host: Host, nodes: Nodes, base: Where, entries: seq<Entry>)
    requires GoodLayer(entries) && FileTree(nodes) && base != [] && StaysInside(entries, host.linkLimit)
    ensures Stageable(host, nodes, base, entries) <==>
      && Vacant(nodes, base) && Begun(host, nodes, base).Ok? && Frame(entries, host.linkLimit, |entries|).Some?
      && var start := Begun(host, nodes, base).value;
         base in start && Owned(host, start[base]) && RootUsable(host, start[base])
    ensures Stageable(host, nodes, base, entries) ==> AllBelow(base, Places(host, nodes, base, entries))
  {
    hide Vacant, RootUsable, Begun, FileTree, Skeleton, Frame, StaysInside, Lands, Seats, SeatsOwned, BuildModes, PlainPath, AllBelow,
         GoodLayer, Increasing;
    LayerNames(entries);
    PlainPaths(entries);
    if Vacant(nodes, base) && Begun(host, nodes, base).Ok? {
      BeginFacts(host, nodes, base);
      BegunVacant(host, nodes, base);
      InsideSkeleton(host, Begun(host, nodes, base).value, base, entries);
    }
  }

  lemma StaysPrefix(entries: seq<Entry>, limit: nat)
    requires StaysInside(entries, limit)
    ensures forall i :: 0 <= i < |entries| ==> !StepsOut(entries, limit, i)
  {
  }

  /* ----- entries below links ----- */

  const A: Bytes := [97]
  const X: Bytes := [120]
  const Z: Bytes := [122]
  const ZX: Bytes := [122, 47, 120]

  /** A directory, a link to it, and a file below the link. */
  function LinkedLayer(): seq<Entry> {
    [Entry(A, Directory, 0x41ED, []), Entry(Z, Symlink, 0xA1FF, A), Entry(ZX, File, 0x81A4, [1])]
  }

  /** A link to a directory outside, and a file below the link. */
  function EscapingLayer(): seq<Entry> {
    [Entry(Z, Symlink, 0xA1FF, [SLASH] + A), Entry(ZX, File, 0x81A4, [1])]
  }

  lemma LiteralPaths()
    ensures Split(A) == [A] && Split(Z) == [Z] && Split(ZX) == [Z, X] && Split([SLASH] + A) == [[], A]
  {
    SplitOne(A);
    SplitOne(Z);
    SplitOne(X);
    assert ZX == Z + [SLASH] + X;
    SplitCons(Z, X);
    assert [] + [SLASH] + A == [SLASH] + A;
    SplitCons([], A);
  }

  lemma LiteralNames(entries: seq<Entry>)
    requires entries == LinkedLayer() || entries == EscapingLayer()
    ensures GoodLayer(entries)
  {
    LiteralPaths();
    hide Split;
    forall i | 0 <= i < |entries| ensures Normalized(entries[i].name) && Utf8(entries[i].name) && Coherent(entries[i]) {
      var name := entries[i].name;
      NormalizedIsPlain(name);
      AsciiText(name);
    }
    var names := Names(entries);
    forall i, j | 0 <= i < j < |names| ensures Less(names[i], names[j]) {
      assert names[i] == A || names[i] == Z;
      assert names[j] == Z || names[j] == ZX;
      LiteralOrder();
    }
  }

  lemma LiteralOrder()
    ensures Less(A, Z) && Less(A, ZX) && Less(Z, ZX)
  {
    assert ZX == Z + [SLASH, 120];
    PrefixLess(Z, [SLASH, 120]);
  }

  lemma AsciiText(name: Bytes)
    requires forall i :: 0 <= i < |name| ==> name[i] < 0x80
    ensures Utf8(name)
  {
  }

  lemma FrameNext(entries: seq<Entry>, limit: nat, k: nat, table: Table, w: Where)
    requires k < |entries| && Frame(entries, limit, k) == Some(table) && RowTrip(table, entries[k], limit) == Arrives(w)
    requires w != [] && w !in table && IsFolder(table, Up(w)) && LinkPoints(entries[k])
    ensures Frame(entries, limit, k + 1) == Some(table[w := ThingOf(entries[k])]) && !StepsOut(entries, limit, k)
  {
    hide RowTrip;
  }

  lemma FrameBegins(entries: seq<Entry>, limit: nat)
    ensures Frame(entries, limit, 0) == Some(map[])
  {
  }

  /** The linked layer is not closed under directories by name, and yet every entry has its
      place: the file goes into the directory the link names. */
  lemma ThroughLink(limit: nat)
    requires limit > 0
    ensures var entries := LinkedLayer();
      && GoodLayer(entries) && !LayerClosed(entries) && StaysInside(entries, limit)
      && Frame(entries, limit, 3) == Some(map[[A] := Folder, [Z] := Alias(A), [A, X] := Data])
  {
    hide Split, GoodLayer, LayerClosed, RowTrip, Frame, StepsOut;
    var entries := LinkedLayer();
    LiteralNames(entries);
    NotHoused();
    LinkedTrips(limit);
    FrameBegins(entries, limit);
    FrameNext(entries, limit, 0, map[], [A]);
    FrameNext(entries, limit, 1, map[[A] := Folder], [Z]);
    var table: Table := map[[A] := Folder, [Z] := Alias(A)];
    assert map[[A] := Folder][[Z] := Alias(A)] == table;
    assert Up([A, X]) == [A];
    FrameNext(entries, limit, 2, table, [A, X]);
    assert table[[A, X] := Data] == map[[A] := Folder, [Z] := Alias(A), [A, X] := Data];
  }

  lemma NotHoused()
    ensures !LayerClosed(LinkedLayer())
  {
    LiteralPaths();
    hide Split;
    var entries := LinkedLayer();
    assert Up(Split(entries[2].name)) == [Z];
    assert !Housed(entries, 2);
  }

  lemma TravelLast(table: Table, cur: Where, c: Bytes, follow: bool, fuel: nat)
    requires PlainName(c) && cur + [c] !in table
    ensures Travel(table, cur, [c], follow, fuel) == Arrives(cur + [c])
  {
    assert [c][1..] == [];
  }

  lemma TravelDown(table: Table, cur: Where, c: Bytes, rest: seq<Bytes>, follow: bool, fuel: nat)
    requires PlainName(c) && rest != [] && cur + [c] in table && table[cur + [c]].Folder?
    ensures Travel(table, cur, [c] + rest, follow, fuel) == Travel(table, cur + [c], rest, follow, fuel)
  {
    assert ([c] + rest)[1..] == rest;
  }

  lemma TravelLink(table: Table, cur: Where, c: Bytes, rest: seq<Bytes>, follow: bool, fuel: nat)
    requires PlainName(c) && rest != [] && fuel > 0
    requires cur + [c] in table && table[cur + [c]].Alias? && !Absolute(table[cur + [c]].target)
    ensures Travel(table, cur, [c] + rest, follow, fuel) == Travel(table, cur, Split(table[cur + [c]].target) + rest, follow, fuel - 1)
  {
    hide Split;
    assert ([c] + rest)[1..] == rest;
  }

  lemma LinkedTrips(limit: nat)
    requires limit > 0
    ensures RowTrip(map[], LinkedLayer()[0], limit) == Arrives([A])
    ensures RowTrip(map[[A] := Folder], LinkedLayer()[1], limit) == Arrives([Z])
    ensures RowTrip(map[[A] := Folder, [Z] := Alias(A)], LinkedLayer()[2], limit) == Arrives([A, X])
  {
    hide Split, Travel;
    LiteralPaths();
    assert [] + [A] == [A] && [] + [Z] == [Z] && [A] + [X] == [A, X] && [Z] + [X] == [Z, X];
    var table: Table := map[[A] := Folder, [Z] := Alias(A)];
    TravelLast(map[], [], A, false, limit);
    TravelLast(map[[A] := Folder], [], Z, false, limit);
    TravelLink(table, [], Z, [X], true, limit);
    TravelDown(table, [], A, [X], true, limit - 1);
    TravelLast(table, [A], X, true, limit - 1);
  }

  /* ----- leaving the root ----- */

  const OPEN: Node := Node(Directory, 0x1ED, [], 0, 0)

  /** A disk with two directories: the staging root and one beside it. */
  const BESIDE: Nodes := map[[] := OPEN, [A] := OPEN, [X] := OPEN]

  lemma BesideTree()
    ensures FileTree(BESIDE) && Vacant(BESIDE, [X])
  {
    assert Up([A]) == [] && Up([X]) == [] && Up([]) == [];
  }

  /** The same disk with the layer's link in the staging root. */
  function Linked(host: Host): Nodes {
    map[[] := OPEN, [A] := OPEN, [X] := OPEN, [X, Z] := Node(Symlink, LINK_MODE, [SLASH] + A, host.uid, 0)]
  }

  lemma FindDown(host: Host, nodes: Nodes, cur: Where, c: Bytes, rest: seq<Bytes>, follow: bool, fuel: nat)
    requires Enterable(host, nodes, cur) && PlainName(c) && rest != [] && cur + [c] in nodes && nodes[cur + [c]].kind.Directory?
    ensures Find(host, nodes, cur, [c] + rest, follow, fuel) == Find(host, nodes, cur + [c], rest, follow, fuel)
  {
    assert ([c] + rest)[1..] == rest;
  }

  lemma FindLast(host: Host, nodes: Nodes, cur: Where, c: Bytes, follow: bool, fuel: nat)
    requires Enterable(host, nodes, cur) && PlainName(c) && cur + [c] !in nodes
    ensures Find(host, nodes, cur, [c], follow, fuel) == Ok(cur + [c])
  {
    assert [c][1..] == [];
  }

  lemma FindLink(host: Host, nodes: Nodes, cur: Where, c: Bytes, rest: seq<Bytes>, follow: bool, fuel: nat)
    requires Enterable(host, nodes, cur) && PlainName(c) && rest != [] && fuel > 0
    requires cur + [c] in nodes && nodes[cur + [c]].kind.Symlink? && Absolute(nodes[cur + [c]].content)
    ensures Find(host, nodes, cur, [c] + rest, follow, fuel) == Find(host, nodes, [], Split(nodes[cur + [c]].content) + rest, follow, fuel - 1)
  {
    hide Split;
    assert ([c] + rest)[1..] == rest;
  }

  lemma FindSlash(host: Host, nodes: Nodes, cur: Where, rest: seq<Bytes>, follow: bool, fuel: nat)
    requires Enterable(host, nodes, cur)
    ensures Find(host, nodes, cur, [[]] + rest, follow, fuel) == Find(host, nodes, cur, rest, follow, fuel)
  {
    assert ([[]] + rest)[1..] == rest;
  }

  lemma EscapeSpots(host: Host, follow: bool)
    requires host.uid == 0 && host.linkLimit > 0
    ensures Spot(host, BESIDE, [X], EscapingLayer()[0], false) == Ok([X, Z])
    ensures Spot(host, Linked(host), [X], EscapingLayer()[1], follow) == Ok([A, X])
  {
    hide Find, Split;
    LiteralPaths();
    var fuel, linked := host.linkLimit, Linked(host);
    assert [X] + [Z] == [X, Z] && [Z] + [X] == [Z, X] && [A] + [X] == [A, X] && [] + [A] == [A];
    FindLast(host, BESIDE, [X], Z, false, fuel);
    FindLink(host, linked, [X], Z, [X], follow, fuel);
    assert Split([SLASH] + A) + [X] == [[]] + [A, X];
    FindSlash(host, linked, [], [A, X], follow, fuel - 1);
    FindDown(host, linked, [], A, [X], follow, fuel - 1);
    FindLast(host, linked, [A], X, follow, fuel - 1);
  }

  lemma EscapeBuilt(host: Host)
    requires host.uid == 0 && host.linkLimit > 0
    ensures var entries := EscapingLayer();
      && Skeleton(host, BESIDE, [X], entries, 1) == Ok(Linked(host))
      && Skeleton(host, BESIDE, [X], entries, 2).Ok? && [A, X] in Lands(host, BESIDE, [X], entries, 2)
  {
    hide Find, Split, Spot;
    var entries := EscapingLayer();
    EscapeSpots(host, true);
    NothingBuilt(host, BESIDE, [X], entries);
    assert Up([X, Z]) == [X] && Up([A, X]) == [A];
    assert Place(BESIDE, [X, Z], BuiltNode(host, entries[0]), 0) == Linked(host);
    assert Build(host, BESIDE, [X], entries[0], 0) == Ok(Linked(host));
    SkeletonStep(host, BESIDE, [X], entries, 0);
    assert Build(host, Linked(host), [X], entries[1], 0).Ok?;
    SkeletonStep(host, BESIDE, [X], entries, 1);
    LandsNext(host, BESIDE, [X], entries, 1);
  }

  lemma EscapeOwned(host: Host)
    requires host.uid == 0 && host.linkLimit > 0
    ensures SeatsOwned(host, BESIDE, [X], EscapingLayer(), 0)
  {
    hide Find, Split, Spot, Skeleton;
    EscapeBuilt(host);
    EscapeSpots(host, false);
    NothingBuilt(host, BESIDE, [X], EscapingLayer());
  }

  lemma EscapeStaged(host: Host)
    requires host.uid == 0 && host.linkLimit > 0
    ensures var entries := EscapingLayer();
      Stageable(host, BESIDE, [X], entries) && [A, X] in Places(host, BESIDE, [X], entries)
  {
    hide Find, Split, Spot, Skeleton, Lands, SeatsOwned;
    BesideTree();
    assert Begun(host, BESIDE, [X]) == Ok(BESIDE);
    EscapeBuilt(host);
    EscapeOwned(host);
  }

  /** Staged by root at `/x`, the escaping layer goes through and creates a file in `/a`. */
  lemma LinkLeadsOut(host: Host)
    requires host.uid == 0 && host.linkLimit > 0
    ensures var entries := EscapingLayer();
      && GoodLayer(entries) && Stageable(host, BESIDE, [X], entries) && !StaysInside(entries, host.linkLimit)
      && [A, X] in Places(host, BESIDE, [X], entries) && !AtOrAbove([X], [A, X])
  {
    hide GoodLayer, FileTree, Vacant, StaysInside, BuildModes, Stageable, Places;
    var entries := EscapingLayer();
    LiteralNames(entries);
    BesideTree();
    EscapeStaged(host);
    assert [A, X][0] == A;
    if StaysInside(entries, host.linkLimit) { InsideStageable(host, BESIDE, [X], entries); }
  }
}
