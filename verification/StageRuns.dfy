/** Both passes over any layer on any disk: what the first pass finds stays found, so the
    second pass goes where the first one went. */
module StageRuns {
  import opened ByteStrings
  import opened Paths
  import opened Initrd
  import opened StagePlan
  import opened StageDisk
  import opened StageLookup

  /* ----- what every disk keeps ----- */

  /** Every node lies in a directory. */
  predicate FileTree(nodes: Nodes) {
    [] in nodes && forall w :: w in nodes ==> Up(w) in nodes && (w != [] ==> nodes[Up(w)].kind.Directory?)
  }

  predicate StrictlyBelow(base: Where, w: Where) { base <= w && |base| < |w| }

  /** Directories below the root carry the build mode. */
  predicate BuildModes(base: Where, nodes: Nodes) {
    forall w :: w in nodes && StrictlyBelow(base, w) && nodes[w].kind.Directory? ==> nodes[w].mode == BUILD_DIRECTORY_MODE
  }

  /** `b` keeps what `a` has: kinds, link targets, directories' modes and owners; and, unless
      root is running, all owners. */
  predicate Steady(host: Host, a: Nodes, b: Nodes) {
    forall w :: w in a ==>
      && w in b && b[w].kind == a[w].kind && (a[w].kind.Symlink? ==> b[w].content == a[w].content)
      && (a[w].kind.Directory? ==> b[w].mode == a[w].mode && b[w].owner == a[w].owner)
      && (host.uid != 0 ==> b[w].owner == a[w].owner)
  }

  lemma SteadyGrown(host: Host, a: Nodes, b: Nodes)
    requires Steady(host, a, b)
    ensures Grown(host, a, b)
  {
  }

  /** What could be reached can be reached later. */
  lemma OpenSteady(host: Host, a: Nodes, b: Nodes, w: Where)
    requires Steady(host, a, b) && Open(host, a, w)
    ensures Open(host, b, w)
  {
    hide Enterable, Steady;
    SteadyGrown(host, a, b);
    forall k | 0 <= k < |w| ensures Enterable(host, b, w[..k]) { GrownOpen(host, a, b, w[..k]); }
  }

  lemma GrownOpen(host: Host, a: Nodes, b: Nodes, d: Where)
    requires Grown(host, a, b) && Enterable(host, a, d)
    ensures Enterable(host, b, d)
  {
  }

  lemma SteadyTrans(host: Host, a: Nodes, b: Nodes, c: Nodes)
    requires Steady(host, a, b) && Steady(host, b, c)
    ensures Steady(host, a, c)
  {
  }

  lemma BuildKeeps(host: Host, nodes: Nodes, base: Where, e: Entry, now: int)
    requires FileTree(nodes) && Build(host, nodes, base, e, now).Ok?
    ensures var next := Build(host, nodes, base, e, now).value;
      FileTree(next) && Steady(host, nodes, next) && (BuildModes(base, nodes) ==> BuildModes(base, next))
  {
    hide Spot, Permits;
    var w := Spot(host, nodes, base, e, e.kind.File?).value;
    if w !in nodes { PlaceKeeps(host, nodes, w, BuiltNode(host, e), now, base); }
  }

  lemma PlaceKeeps(host: Host, nodes: Nodes, w: Where, node: Node, now: int, base: Where)
    requires FileTree(nodes) && w !in nodes && CanPlace(host, nodes, w)
    requires node.kind.Directory? ==> node.mode == BUILD_DIRECTORY_MODE
    ensures var next := Place(nodes, w, node, now);
      && FileTree(next) && Steady(host, nodes, next) && (BuildModes(base, nodes) ==> BuildModes(base, next))
      && w in next && SameButTime(next[w], node) && next.Keys == nodes.Keys + {w}
  {
    hide Permits;
    assert Up(w) != w;
  }

  lemma {:induction false} SkeletonKeeps(host: Host, start: Nodes, base: Where, entries: seq<Entry>, i: nat, k: nat)
    requires FileTree(start) && BuildModes(base, start) && i <= k <= |entries| && Skeleton(host, start, base, entries, k).Ok?
    ensures Skeleton(host, start, base, entries, i).Ok?
    ensures var a, b := Skeleton(host, start, base, entries, i).value, Skeleton(host, start, base, entries, k).value;
      FileTree(b) && BuildModes(base, b) && Steady(host, a, b)
    decreases k
  {
    hide Build, FileTree, BuildModes;
    if k > 0 {
      var c := Skeleton(host, start, base, entries, k - 1).value;
      SkeletonKeeps(host, start, base, entries, if i < k then i else k - 1, k - 1);
      BuildKeeps(host, c, base, entries[k - 1], 0);
      if i < k {
        SteadyTrans(host, Skeleton(host, start, base, entries, i).value, c, Skeleton(host, start, base, entries, k).value);
      } else {
        hide Steady;
        SteadySelf(host, Skeleton(host, start, base, entries, k).value);
      }
    } else {
      SteadySelf(host, start);
    }
  }

  lemma SteadySelf(host: Host, a: Nodes)
    ensures Steady(host, a, a)
  {
  }

  /* ----- where a row goes ----- */

  /** Where the row's bytes or node go, and where the path itself ends; they differ only for a
      file whose own place is a link. */
  function Land(host: Host, nodes: Nodes, base: Where, e: Entry): Result<Where> { Spot(host, nodes, base, e, e.kind.File?) }
  function Seat(host: Host, nodes: Nodes, base: Where, e: Entry): Result<Where> { Spot(host, nodes, base, e, false) }

  predicate PlainPath(e: Entry) { Plain(Split(e.name)) }

  lemma SeatOf(host: Host, nodes: Nodes, base: Where, e: Entry)
    requires PlainPath(e) && Land(host, nodes, base, e).Ok?
    ensures var seat := Seat(host, nodes, base, e);
      seat.Ok? && (seat == Land(host, nodes, base, e) || (seat.value in nodes && nodes[seat.value].kind.Symlink? && e.kind.File?))
  {
    hide Find, Split;
    var parts := Split(e.name);
    assert PlainName(parts[|parts| - 1]);
    if e.kind.File? { FindSeat(host, nodes, base, parts, host.linkLimit); }
  }

  /** A place that was found, free or not, is found in every later tree. */
  lemma SpotLater(host: Host, a: Nodes, b: Nodes, base: Where, e: Entry, follow: bool, again: bool)
    requires FileTree(a) && base in a && Grown(host, a, b) && Spot(host, a, base, e, follow).Ok?
    requires var w := Spot(host, a, base, e, follow).value;
      w in b && (if w in a then again == follow else (follow ==> again) && (again ==> !b[w].kind.Symlink?))
    ensures Spot(host, b, base, e, again) == Spot(host, a, base, e, follow)
  {
    hide Find, Split, Grown;
    var w := Spot(host, a, base, e, follow).value;
    if w in a {
      FindGrown(host, a, b, base, Split(e.name), follow, host.linkLimit);
    } else {
      FindPlaced(host, a, b, base, Split(e.name), follow, host.linkLimit, again, w);
    }
  }

  /* ----- the second pass ----- */

  /** The link a file's path ends at, if it was there before, belongs to this user. */
  predicate SeatOwned(host: Host, nodes: Nodes, base: Where, e: Entry) {
    var seat := Seat(host, nodes, base, e);
    seat.Ok? && (seat.value in nodes ==> Owned(host, nodes[seat.value]))
  }

  /** What the second pass finds at the places of row `e`, given the tree `a` before that row
      was built. */
  predicate RowBuilt(host: Host, a: Nodes, base: Where, e: Entry, b: Nodes) {
    var land, seat := Land(host, a, base, e), Seat(host, a, base, e);
    && land.Ok? && seat.Ok? && land.value in b && seat.value in b
    && Owned(host, b[land.value])
    && b[land.value].kind == e.kind
    && (seat != land ==> b[seat.value].kind.Symlink?)
    && (seat.value in a <==> seat != land || land.value in a)
    && (land.value in a ==> e.kind.File?)
    && (seat.value in a ==> (Owned(host, b[seat.value]) <==> Owned(host, a[seat.value])))
  }

  lemma RowBuiltNow(host: Host, a: Nodes, base: Where, e: Entry, now: int)
    requires FileTree(a) && PlainPath(e) && Build(host, a, base, e, now).Ok?
    ensures RowBuilt(host, a, base, e, Build(host, a, base, e, now).value)
  {
    hide Spot, Permits, PlainPath;
    SeatOf(host, a, base, e);
    var w := Land(host, a, base, e).value;
    if w !in a { PlaceKeeps(host, a, w, BuiltNode(host, e), now, base); }
  }

  lemma RowBuiltLater(host: Host, a: Nodes, base: Where, e: Entry, b: Nodes, c: Nodes)
    requires RowBuilt(host, a, base, e, b) && Steady(host, b, c)
    ensures RowBuilt(host, a, base, e, c)
  {
    hide Spot;
  }

  /** The changes of the second pass to one row keep everything steady that was there before
      the row. */
  lemma ChangeKeeps(host: Host, a: Nodes, base: Where, e: Entry, b: Nodes, w: Where, node: Node)
    requires RowBuilt(host, a, base, e, b) && Steady(host, a, b)
    requires Ok(w) == Land(host, a, base, e) || Ok(w) == Seat(host, a, base, e)
    requires node.kind == b[w].kind && node.content == b[w].content && (host.uid != 0 ==> node.owner == b[w].owner)
    ensures RowBuilt(host, a, base, e, b[w := node]) && Steady(host, a, b[w := node]) && b[w := node].Keys == b.Keys
  {
    hide Spot;
    var c := b[w := node];
    assert w in a ==> !a[w].kind.Directory?;
  }

  /** Lookups of the second pass. */
  lemma RowSpots(host: Host, a: Nodes, base: Where, e: Entry, b: Nodes)
    requires FileTree(a) && base in a && RowBuilt(host, a, base, e, b) && Steady(host, a, b)
    ensures Spot(host, b, base, e, false) == Seat(host, a, base, e)
    ensures !e.kind.Symlink? ==> Spot(host, b, base, e, true) == Land(host, a, base, e)
  {
    hide Spot, Steady, FileTree;
    SteadyGrown(host, a, b);
    SpotLater(host, a, b, base, e, false, false);
    if !e.kind.Symlink? { SpotLater(host, a, b, base, e, e.kind.File?, true); }
  }

  /** One row of the second pass: it goes through exactly when the seat is this user's, and
      ends with the row's mode, owner and time. */
  lemma FinishRow(host: Host, a: Nodes, base: Where, e: Entry, b: Nodes)
    requires FileTree(a) && base in a && RowBuilt(host, a, base, e, b) && Steady(host, a, b)
    ensures Finish(host, b, base, e).Ok? <==> SeatOwned(host, a, base, e)
    ensures Finish(host, b, base, e).Ok? ==> var c := Finish(host, b, base, e).value;
      && Steady(host, a, c) && c.Keys == b.Keys && RowBuilt(host, a, base, e, c)
      && c[Seat(host, a, base, e).value].mtime == CANONICAL_TIME
      && (forall w :: w in b && Ok(w) != Seat(host, a, base, e) && Ok(w) != Land(host, a, base, e) ==> c[w] == b[w])
      && (forall w :: w in b ==> c[w].mtime == b[w].mtime || c[w].mtime == CANONICAL_TIME)
  {
    hide Spot, Steady, FileTree, RowBuilt, Land, Seat, AfterChown;
    RowSpots(host, a, base, e, b);
    RowFacts(host, a, base, e, b);
    var land, seat := Land(host, a, base, e).value, Seat(host, a, base, e).value;
    var b1 := if e.kind.Symlink? then b else b[land := SetMode(e.mode % 0x1000)(b[land])];
    if !e.kind.Symlink? { ChangeKeeps(host, a, base, e, b, land, b1[land]); }
    assert WithMode(host, b, base, e) == Ok(b1);
    RowSpots(host, a, base, e, b1);
    RowFacts(host, a, base, e, b1);
    var b2 := if host.uid != 0 then b1 else b1[seat := SetOwner()(b1[seat])];
    if host.uid == 0 { ChangeKeeps(host, a, base, e, b1, seat, b2[seat]); }
    assert WithOwner(host, b1, base, e) == Ok(b2);
    RowSpots(host, a, base, e, b2);
    RowFacts(host, a, base, e, b2);
    ChangeKeeps(host, a, base, e, b2, seat, SetTime()(b2[seat]));
  }

  lemma RowFacts(host: Host, a: Nodes, base: Where, e: Entry, b: Nodes)
    requires RowBuilt(host, a, base, e, b)
    ensures var land, seat := Land(host, a, base, e), Seat(host, a, base, e);
      && land.Ok? && seat.Ok? && land.value in b && seat.value in b && Owned(host, b[land.value])
      && (Owned(host, b[seat.value]) <==> SeatOwned(host, a, base, e))
  {
    hide Spot;
  }

  /** The second pass from row `k` on, over any tree that keeps what the first pass built: it
      goes through exactly when the seats of those rows are this user's, and all of them then
      carry the canonical time. */
  lemma {:induction false} FinishAll(host: Host, start: Nodes, base: Where, entries: seq<Entry>, built: Nodes, k: nat)
    requires FileTree(start) && BuildModes(base, start) && base in start && k <= |entries|
    requires forall i :: 0 <= i < |entries| ==> PlainPath(entries[i])
    requires Skeleton(host, start, base, entries, |entries|).Ok?
    requires Steady(host, Skeleton(host, start, base, entries, |entries|).value, built)
    ensures SeatsOwned(host, start, base, entries, k) <==> Finished(host, built, base, entries, k).Ok?
    ensures Finished(host, built, base, entries, k).Ok? ==> var b := Finished(host, built, base, entries, k).value;
      && b.Keys == built.Keys && Skeleton(host, start, base, entries, k).Ok?
      && Steady(host, Skeleton(host, start, base, entries, k).value, b) && SeatsTimed(host, start, base, entries, k, b)
    decreases |entries| - k
  {
    hide Skeleton, FileTree, BuildModes, PlainPath, Steady, Finish, Seat, SeatOwned, RowBuilt, Build;
    SkeletonKeeps(host, start, base, entries, k, |entries|);
    if k < |entries| {
      FinishAll(host, start, base, entries, built, k + 1);
      SkeletonKeeps(host, start, base, entries, k + 1, |entries|);
      if Finished(host, built, base, entries, k + 1).Ok? {
        FinishOneMore(host, start, base, entries, k, Finished(host, built, base, entries, k + 1).value);
      }
    }
  }

  lemma FinishOneMore(host: Host, start: Nodes, base: Where, entries: seq<Entry>, k: nat, b: Nodes)
    requires FileTree(start) && BuildModes(base, start) && base in start && k < |entries| && PlainPath(entries[k])
    requires Skeleton(host, start, base, entries, k + 1).Ok? && Steady(host, Skeleton(host, start, base, entries, k + 1).value, b)
    requires SeatsTimed(host, start, base, entries, k + 1, b)
    ensures Skeleton(host, start, base, entries, k).Ok?
    ensures Finish(host, b, base, entries[k]).Ok? <==> SeatOwned(host, Skeleton(host, start, base, entries, k).value, base, entries[k])
    ensures Finish(host, b, base, entries[k]).Ok? ==> var c := Finish(host, b, base, entries[k]).value;
      && c.Keys == b.Keys && Steady(host, Skeleton(host, start, base, entries, k).value, c) && SeatsTimed(host, start, base, entries, k, c)
  {
    hide Skeleton, FileTree, BuildModes, PlainPath, Steady, Finish, Seat, Land, SeatOwned, RowBuilt, Build, SeatsTimed;
    SkeletonKeeps(host, start, base, entries, k, k + 1);
    SkeletonKeeps(host, start, base, entries, k, k);
    SkeletonNext(host, start, base, entries, k);
    var a, e := Skeleton(host, start, base, entries, k).value, entries[k];
    StartKept(host, start, base, entries, k);
    RowBuiltNow(host, a, base, e, 0);
    RowBuiltLater(host, a, base, e, Skeleton(host, start, base, entries, k + 1).value, b);
    SteadyTrans(host, a, Skeleton(host, start, base, entries, k + 1).value, b);
    FinishRow(host, a, base, e, b);
    if Finish(host, b, base, e).Ok? {
      var c := Finish(host, b, base, e).value;
      RowFacts(host, a, base, e, c);
      TimesKept(host, start, base, entries, k, b, c);
    }
  }

  lemma TimesKept(host: Host, start: Nodes, base: Where, entries: seq<Entry>, k: nat, b: Nodes, c: Nodes)
    requires k < |entries| && SeatsTimed(host, start, base, entries, k + 1, b) && c.Keys == b.Keys
    requires forall w :: w in b ==> c[w].mtime == b[w].mtime || c[w].mtime == CANONICAL_TIME
    requires Skeleton(host, start, base, entries, k).Ok?
    requires var seat := Seat(host, Skeleton(host, start, base, entries, k).value, base, entries[k]);
      seat.Ok? && seat.value in c && c[seat.value].mtime == CANONICAL_TIME
    ensures SeatsTimed(host, start, base, entries, k, c)
  {
    hide Skeleton, Seat;
  }

  lemma SkeletonNext(host: Host, start: Nodes, base: Where, entries: seq<Entry>, k: nat)
    requires k < |entries| && Skeleton(host, start, base, entries, k + 1).Ok?
    ensures Skeleton(host, start, base, entries, k).Ok?
    ensures Skeleton(host, start, base, entries, k + 1) == Build(host, Skeleton(host, start, base, entries, k).value, base, entries[k], 0)
  {
    hide Build;
  }

  lemma StartKept(host: Host, start: Nodes, base: Where, entries: seq<Entry>, k: nat)
    requires FileTree(start) && BuildModes(base, start) && base in start && k <= |entries| && Skeleton(host, start, base, entries, k).Ok?
    ensures base in Skeleton(host, start, base, entries, k).value
  {
    hide Build, FileTree, BuildModes;
    SkeletonKeeps(host, start, base, entries, 0, k);
  }

  ghost predicate SeatsOwned(host: Host, start: Nodes, base: Where, entries: seq<Entry>, k: nat)
    requires k <= |entries|
  {
    forall j :: k <= j < |entries| ==>
      Skeleton(host, start, base, entries, j).Ok? && SeatOwned(host, Skeleton(host, start, base, entries, j).value, base, entries[j])
  }

  ghost predicate SeatsTimed(host: Host, start: Nodes, base: Where, entries: seq<Entry>, k: nat, b: Nodes)
    requires k <= |entries|
  {
    forall j :: k <= j < |entries| ==>
      && Skeleton(host, start, base, entries, j).Ok?
      && var seat := Seat(host, Skeleton(host, start, base, entries, j).value, base, entries[j]);
         seat.Ok? && seat.value in b && b[seat.value].mtime == CANONICAL_TIME
  }

  lemma SimilarSteady(host: Host, a: Nodes, b: Nodes)
    requires Similar(a, b)
    ensures Steady(host, a, b) && Steady(host, b, a)
  {
    forall w | w in a ensures SameButTime(a[w], b[w]) { }
  }

  /* ----- histories ----- */

  /** Every directory strictly between the root and `at` still carries the build mode. */
  predicate BuildAbove(base: Where, nodes: Nodes, at: Where) {
    base <= at ==> forall k :: |base| < k < |at| ==>
      at[..k] in nodes && nodes[at[..k]].kind.Directory? && nodes[at[..k]].mode == BUILD_DIRECTORY_MODE
  }

  /** A node appears once its directory is there; a node changes while all directories between
      the root and it still carry the build mode. */
  ghost predicate EventOk(base: Where, e: Event) {
    match e
    case Created(at, before) => at != [] && at !in before && Up(at) in before && before[Up(at)].kind.Directory?
    case Changed(at, before) => at in before && BuildAbove(base, before, at)
  }

  ghost predicate WellOrdered(base: Where, history: seq<Event>) { forall i :: 0 <= i < |history| ==> EventOk(base, history[i]) }

  lemma WellOrderedNext(base: Where, history: seq<Event>, e: Event)
    requires WellOrdered(base, history) && EventOk(base, e)
    ensures WellOrdered(base, history + [e])
  {
    hide EventOk;
  }

  lemma {:induction false} Ancestors(nodes: Nodes, w: Where, k: nat)
    requires FileTree(nodes) && w in nodes && k < |w|
    ensures w[..k] in nodes && nodes[w[..k]].kind.Directory?
    decreases |w|
  {
    if k < |w| - 1 {
      assert Up(w)[..k] == w[..k];
      Ancestors(nodes, Up(w), k);
    }
  }

  lemma AboveLater(host: Host, base: Where, a: Nodes, b: Nodes, at: Where)
    requires FileTree(a) && BuildModes(base, a) && Steady(host, a, b) && (at in a || (Up(at) in a && a[Up(at)].kind.Directory?))
    ensures BuildAbove(base, b, at)
  {
    hide FileTree;
    if base <= at {
      forall k | |base| < k < |at|
        ensures at[..k] in b && b[at[..k]].kind.Directory? && b[at[..k]].mode == BUILD_DIRECTORY_MODE
      {
        if at in a {
          Ancestors(a, at, k);
        } else if k < |at| - 1 {
          assert Up(at)[..k] == at[..k];
          Ancestors(a, Up(at), k);
        }
        assert StrictlyBelow(base, at[..k]);
      }
    }
  }
}
