/** A filesystem as the staging script sees it: lookup that follows links, creation, and
    changes of mode, owner and time. */
module StageDisk {
  import opened ByteStrings
  import opened Paths
  import opened Initrd
  import opened StagePlan

  const BUILD_DIRECTORY_MODE: nat := 0x1ED
  const BUILD_FILE_MODE: nat := 0x180
  const NEW_FILE_MODE: nat := 0x1A4
  const LINK_MODE: nat := 0x1FF

  /** A place in the whole filesystem, by components and without links; `/` is the empty list. */
  type Where = seq<Bytes>

  datatype Node = Node(kind: Kind, mode: nat, content: Bytes, owner: nat, mtime: int)

  type Nodes = map<Where, Node>

  /** The machine: its clock, who is running, and how many links one lookup may follow. */
  datatype Host = Host(clock: nat -> int, uid: nat, linkLimit: nat)

  /** Whether a node's mode lets this user do something: the owner's bit or everyone's. */
  predicate Permits(host: Host, node: Node, owners: nat, others: nat)
    requires owners > 0 && others > 0
  {
    host.uid == 0 || (if node.owner == host.uid then Bit(node.mode, owners) else Bit(node.mode, others))
  }

  predicate Listable(host: Host, node: Node) { Permits(host, node, 0x100, 0x04) }
  predicate Writable(host: Host, node: Node) { Permits(host, node, 0x80, 0x02) }
  predicate Searchable(host: Host, node: Node) { Permits(host, node, 0x40, 0x01) }
  predicate Owned(host: Host, node: Node) { host.uid == 0 || node.owner == host.uid }

  /** Permission by octal digits: reading is 4, writing 2 and searching 1, in the third digit
      for the owner and in the first for anyone else. */
  lemma PermissionDigits(host: Host, node: Node)
    ensures var digit := if node.owner == host.uid then node.mode / 64 % 8 else node.mode % 8;
      && (Listable(host, node) <==> host.uid == 0 || digit >= 4)
      && (Writable(host, node) <==> host.uid == 0 || digit % 4 >= 2)
      && (Searchable(host, node) <==> host.uid == 0 || digit % 2 == 1)
  {
    DigitBits(node.mode / 64);
    DigitBits(node.mode);
    assert node.mode / 0x100 == node.mode / 64 / 4 && node.mode / 0x80 == node.mode / 64 / 2;
  }

  function Up(w: Where): Where { if w == [] then [] else w[..|w| - 1] }

  predicate Enterable(host: Host, nodes: Nodes, d: Where) {
    d in nodes && nodes[d].kind.Directory? && Searchable(host, nodes[d])
  }

  /** Every directory above a place may be searched, from `/` down. */
  predicate Open(host: Host, nodes: Nodes, w: Where) {
    forall k :: 0 <= k < |w| ==> Enterable(host, nodes, w[..k])
  }

  predicate Absolute(target: Bytes) { target != [] && target[0] == SLASH }

  /** Where a path leads from a directory, one component at a time.  A link on the way is
      followed, one at the end if asked; the last name need not be there yet. */
  function Find(host: Host, nodes: Nodes, cur: Where, comps: seq<Bytes>, follow: bool, fuel: nat): Result<Where>
    decreases fuel, |comps|
  {
    if comps == [] then Ok(cur)
    else if !Enterable(host, nodes, cur) then Fail
    else
      var c, rest := comps[0], comps[1..];
      var next := cur + [c];
      if c == [] || c == DOT then Find(host, nodes, cur, rest, follow, fuel)
      else if c == DOTDOT then Find(host, nodes, Up(cur), rest, follow, fuel)
      else if next in nodes && nodes[next].kind.Symlink? && (rest != [] || follow) then
        if fuel == 0 then Fail
        else Find(host, nodes, if Absolute(nodes[next].content) then [] else cur, Split(nodes[next].content) + rest, follow, fuel - 1)
      else if rest == [] then Ok(next)
      else if next in nodes && nodes[next].kind.Directory? then Find(host, nodes, next, rest, follow, fuel)
      else Fail
  }

  predicate CanPlace(host: Host, nodes: Nodes, w: Where) {
    w != [] && Enterable(host, nodes, Up(w)) && Writable(host, nodes[Up(w)])
  }

  /** Something can be put at a place exactly when the directory it goes into is there and may
      be searched and written. */
  lemma CanPlaceExact(host: Host, nodes: Nodes, w: Where)
    ensures CanPlace(host, nodes, w) <==>
      && w != [] && var d := w[..|w| - 1];
      && d in nodes && nodes[d].kind == Directory
      && var digit := if nodes[d].owner == host.uid then nodes[d].mode / 64 % 8 else nodes[d].mode % 8;
      host.uid == 0 || digit % 8 in {3, 7}
  {
    hide Permits;
    if w != [] && w[..|w| - 1] in nodes { PermissionDigits(host, nodes[w[..|w| - 1]]); }
  }

  /** A new node at the present time, which its directory then also carries. */
  function Place(nodes: Nodes, w: Where, node: Node, now: int): Nodes
    requires Up(w) in nodes
  {
    nodes[w := node.(mtime := now)][Up(w) := nodes[Up(w)].(mtime := now)]
  }

  /** A new node is there at the present time, its directory carries that time, and nothing
      else is any different. */
  lemma PlaceExact(nodes: Nodes, w: Where, node: Node, now: int)
    requires w != [] && w[..|w| - 1] in nodes && w !in nodes
    ensures var after, d := Place(nodes, w, node, now), w[..|w| - 1];
      && after.Keys == nodes.Keys + {w}
      && after[w] == Node(node.kind, node.mode, node.content, node.owner, now)
      && after[d] == Node(nodes[d].kind, nodes[d].mode, nodes[d].content, nodes[d].owner, now)
      && forall v :: v in nodes && v != d ==> after[v] == nodes[v]
  {
    assert |w[..|w| - 1]| < |w|;
  }

  function Cleared(mode: nat, weight: nat): nat
    requires weight > 0
  {
    if Bit(mode, weight) && mode >= weight then mode - weight else mode
  }

  /** What a change of owner leaves of a mode: anything but a directory loses set-user-id, and
      set-group-id where the group may execute. */
  function AfterChown(kind: Kind, mode: nat): nat {
    if kind.Directory? then mode
    else if Bit(mode, 0x08) then Cleared(Cleared(mode, 0x800), 0x400)
    else Cleared(mode, 0x800)
  }

  /** One change to the disk, with the tree as it was before. */
  datatype Event = Created(at: Where, before: Nodes) | Changed(at: Where, before: Nodes)

  /** The disk, and the staging root that paths are looked up from. */
  class Disk {
    const host: Host
    const base: Where
    var nodes: Nodes
    var ticks: nat
    ghost var history: seq<Event>

    /** Every place that was created or changed. */
    ghost var touched: set<Where>

    constructor (h: Host, b: Where, start: Nodes)
      ensures host == h && base == b && nodes == start && ticks == 0 && history == [] && touched == {}
    {
      host, base, nodes, ticks := h, b, start, 0;
      history, touched := [], {};
    }

    function Lookup(comps: seq<Bytes>, follow: bool): Result<Where>
      reads this
    {
      if Open(host, nodes, base) then Find(host, nodes, base, comps, follow, host.linkLimit) else Fail
    }

    /** A directory at a place given in full. */
    method MakeAt(w: Where, node: Node) returns (ok: bool)
      modifies this
      ensures ok <==> w !in old(nodes) && Open(host, old(nodes), w) && CanPlace(host, old(nodes), w)
      ensures ok ==> nodes == Place(old(nodes), w, node, host.clock(old(ticks)))
      ensures ok ==> history == old(history) + [Created(w, old(nodes))] && touched == old(touched) + {w}
      ensures !ok ==> nodes == old(nodes) && history == old(history) && touched == old(touched)
    {
      hide Place, CanPlace, Open;
      ok := w !in nodes && Open(host, nodes, w) && CanPlace(host, nodes, w);
      if ok {
        PlaceDefined(host, nodes, w);
        history, touched := history + [Created(w, nodes)], touched + {w};
        nodes := Place(nodes, w, node, host.clock(ticks));
        ticks := ticks + 1;
      }
    }

    /** A directory or a link, where nothing is yet; a link must point somewhere. */
    method Make(comps: seq<Bytes>, node: Node) returns (ok: bool)
      modifies this
      ensures var w := old(Lookup(comps, false));
        && (ok <==> w.Ok? && w.value !in old(nodes) && CanPlace(host, old(nodes), w.value) && !(node.kind.Symlink? && node.content == []))
        && (ok ==> nodes == Place(old(nodes), w.value, node, host.clock(old(ticks)))
                   && history == old(history) + [Created(w.value, old(nodes))] && touched == old(touched) + {w.value})
      ensures !ok ==> nodes == old(nodes) && history == old(history) && touched == old(touched)
    {
      hide Find, Place, CanPlace, Open;
      var w := Lookup(comps, false);
      ok := w.Ok? && w.value !in nodes && CanPlace(host, nodes, w.value) && !(node.kind.Symlink? && node.content == []);
      if ok {
        PlaceDefined(host, nodes, w.value);
        history, touched := history + [Created(w.value, nodes)], touched + {w.value};
        nodes := Place(nodes, w.value, node, host.clock(ticks));
        ticks := ticks + 1;
      }
    }

    /** A file's bytes: a new file, or the contents of one that is there and may be written. */
    method Write(comps: seq<Bytes>, data: Bytes) returns (ok: bool)
      modifies this
      ensures var w := old(Lookup(comps, true));
        && (ok <==> w.Ok? && if w.value in old(nodes) then old(nodes)[w.value].kind.File? && Writable(host, old(nodes)[w.value])
                             else CanPlace(host, old(nodes), w.value))
        && (ok && w.value in old(nodes) ==>
              && nodes == old(nodes)[w.value := old(nodes)[w.value].(content := data, mtime := host.clock(old(ticks)))]
              && history == old(history) + [Changed(w.value, old(nodes))] && touched == old(touched) + {w.value})
        && (ok && w.value !in old(nodes) ==>
              && nodes == Place(old(nodes), w.value, Node(File, Octal(6, 4, 4), data, host.uid, 0), host.clock(old(ticks)))
              && history == old(history) + [Created(w.value, old(nodes))] && touched == old(touched) + {w.value})
      ensures !ok ==> nodes == old(nodes) && history == old(history) && touched == old(touched)
    {
      hide Find, Place, CanPlace, Open;
      var w := Lookup(comps, true);
      ok := false;
      if w.Fail? { return; }
      if w.value in nodes {
        ok := nodes[w.value].kind.File? && Writable(host, nodes[w.value]);
        if !ok { return; }
        history, touched := history + [Changed(w.value, nodes)], touched + {w.value};
        nodes := nodes[w.value := nodes[w.value].(content := data, mtime := host.clock(ticks))];
      } else {
        ok := CanPlace(host, nodes, w.value);
        if !ok { return; }
        PlaceDefined(host, nodes, w.value);
        history, touched := history + [Created(w.value, nodes)], touched + {w.value};
        nodes := Place(nodes, w.value, Node(File, NEW_FILE_MODE, data, host.uid, 0), host.clock(ticks));
      }
      ticks := ticks + 1;
    }

    /** A change to a node that is there and belongs to this user. */
    method Amend(comps: seq<Bytes>, follow: bool, change: Node -> Node) returns (ok: bool)
      modifies this
      ensures var w := old(Lookup(comps, follow));
        && (ok <==> w.Ok? && w.value in old(nodes) && Owned(host, old(nodes)[w.value]))
        && (ok ==> nodes == old(nodes)[w.value := change(old(nodes)[w.value])] && history == old(history) + [Changed(w.value, old(nodes))]
                   && touched == old(touched) + {w.value})
      ensures !ok ==> nodes == old(nodes) && history == old(history) && touched == old(touched)
    {
      hide Find, Open;
      var w := Lookup(comps, follow);
      ok := w.Ok? && w.value in nodes && Owned(host, nodes[w.value]);
      if ok {
        history, touched := history + [Changed(w.value, nodes)], touched + {w.value};
        nodes := nodes[w.value := change(nodes[w.value])];
      }
    }
  }

  lemma PlaceDefined(host: Host, nodes: Nodes, w: Where)
    requires CanPlace(host, nodes, w)
    ensures Up(w) in nodes && w != []
  {
  }

  function SetMode(mode: nat): Node -> Node { (n: Node) => n.(mode := mode) }
  function SetOwner(): Node -> Node { (n: Node) => n.(owner := 0, mode := AfterChown(n.kind, n.mode)) }
  function SetTime(): Node -> Node { (n: Node) => n.(mtime := CANONICAL_TIME) }

  /* ----- the two passes as functions of the tree ----- */

  /** A directory made on the way to the staging root, or the root itself. */
  function NewDirectory(host: Host): Node { Node(Directory, Octal(7, 5, 5), [], host.uid, 0) }

  /** The tree with a directory at `w`, and the directories above it, as far as they are
      missing; those that are there must be open. */
  function WithDirectory(host: Host, nodes: Nodes, w: Where): Result<Nodes>
    decreases |w|
  {
    if w in nodes then (if nodes[w].kind.Directory? && Open(host, nodes, w) then Ok(nodes) else Fail)
    else if w == [] then Fail
    else
      match WithDirectory(host, nodes, Up(w))
      case Fail => Fail
      case Ok(n) => if CanPlace(host, n, w) then Ok(Place(n, w, NewDirectory(host), 0)) else Fail
  }

  /** What the first pass leaves, but for its time. */
  function BuiltNode(host: Host, e: Entry): Node {
    match e.kind
    case Directory => Node(Directory, Octal(7, 5, 5), [], host.uid, 0)
    case Symlink => Node(Symlink, Octal(7, 7, 7), e.data, host.uid, 0)
    case File => Node(File, Octal(6, 0, 0), e.data, host.uid, 0)
  }

  function Spot(host: Host, nodes: Nodes, base: Where, e: Entry, follow: bool): Result<Where> {
    Find(host, nodes, base, Split(e.name), follow, host.linkLimit)
  }

  /** The first pass on one entry: a place for it that is free, or a file to rewrite. */
  function Build(host: Host, nodes: Nodes, base: Where, e: Entry, now: int): Result<Nodes> {
    var w := Spot(host, nodes, base, e, e.kind.File?);
    if w.Fail? then Fail
    else if w.value !in nodes then
      if CanPlace(host, nodes, w.value) && !(e.kind.Symlink? && e.data == []) then Ok(Place(nodes, w.value, BuiltNode(host, e), now)) else Fail
    else if e.kind.File? && nodes[w.value].kind.File? && Writable(host, nodes[w.value]) && Owned(host, nodes[w.value]) then
      Ok(nodes[w.value := nodes[w.value].(content := e.data, mode := Octal(6, 0, 0), mtime := now)])
    else Fail
  }

  function Skeleton(host: Host, start: Nodes, base: Where, entries: seq<Entry>, k: nat): Result<Nodes>
    requires k <= |entries|
  {
    if k == 0 then Ok(start)
    else
      match Skeleton(host, start, base, entries, k - 1)
      case Fail => Fail
      case Ok(nodes) => Build(host, nodes, base, entries[k - 1], 0)
  }

  function Apply(host: Host, nodes: Nodes, w: Result<Where>, change: Node -> Node): Result<Nodes> {
    if w.Ok? && w.value in nodes && Owned(host, nodes[w.value]) then Ok(nodes[w.value := change(nodes[w.value])]) else Fail
  }

  function WithMode(host: Host, nodes: Nodes, base: Where, e: Entry): Result<Nodes> {
    if e.kind.Symlink? then Ok(nodes) else Apply(host, nodes, Spot(host, nodes, base, e, true), SetMode(e.mode % 0x1000))
  }

  function WithOwner(host: Host, nodes: Nodes, base: Where, e: Entry): Result<Nodes> {
    if host.uid != 0 then Ok(nodes) else Apply(host, nodes, Spot(host, nodes, base, e, false), SetOwner())
  }

  function WithTime(host: Host, nodes: Nodes, base: Where, e: Entry): Result<Nodes> {
    Apply(host, nodes, Spot(host, nodes, base, e, false), SetTime())
  }

  /** The second pass on one entry: mode, then owner, then time. */
  function Finish(host: Host, nodes: Nodes, base: Where, e: Entry): Result<Nodes> {
    match WithMode(host, nodes, base, e)
    case Fail => Fail
    case Ok(a) =>
      match WithOwner(host, a, base, e)
      case Fail => Fail
      case Ok(b) => WithTime(host, b, base, e)
  }

  /** The second pass from the last entry down to the `k`th. */
  function Finished(host: Host, nodes: Nodes, base: Where, entries: seq<Entry>, k: nat): Result<Nodes>
    requires k <= |entries|
    decreases |entries| - k
  {
    if k == |entries| then Ok(nodes)
    else
      match Finished(host, nodes, base, entries, k + 1)
      case Fail => Fail
      case Ok(n) => Finish(host, n, base, entries[k])
  }
}
