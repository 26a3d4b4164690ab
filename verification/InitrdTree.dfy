/** Reading an initrd back into a tree, and the agreement of the two ways of comparing
    initrds: tree against tree, and record against record. */
module InitrdTree {
  import opened ByteStrings
  import opened Paths
  import opened Sorting
  import opened Newc
  import opened Initrd
  import opened TreeDiff
  import opened RecordAccounting
  import opened RecordLaws

  function KindBits(mode: nat): Kind {
    if mode / 0x1000 % 16 == 4 then Directory
    else if mode / 0x1000 % 16 == 10 then Symlink
    else File
  }

  function TreeEntry(kind: Kind, mode: nat, uid: nat, gid: nat, data: Bytes, h: Bytes -> Bytes): Fields {
    var base: Fields := map["gid" := Number(gid), "kind" := KindOf(kind), "mode" := Number(mode % 0x1000), "uid" := Number(uid)];
    match kind
    case Directory => base
    case Symlink => base["target" := Text(data)]
    case File => base["sha256" := Text(h(data))]
  }

  /** The tree after the first rows; a repeated name keeps the later row. */
  function TreeOfRows(rows: seq<Row>, h: Bytes -> Bytes): Result<Tree> {
    if rows == [] then Ok(map[])
    else
      var row, rest := rows[|rows| - 1], TreeOfRows(rows[..|rows| - 1], h);
      if rest.Fail? || IsTrailer(row.name) then rest
      else if !Readable(KindBits(row.mode), row.data) then Fail
      else Ok(rest.value[Rooted(row.name) := TreeEntry(KindBits(row.mode), row.mode, row.uid, row.gid, row.data, h)])
  }

  /** Row `j` is the last one, the trailer aside, that this path stands for. */
  predicate LastRow(rows: seq<Row>, j: nat, path: Bytes) {
    && j < |rows| && path == [47] + rows[j].name && !IsTrailer(rows[j].name)
    && forall i :: j < i < |rows| ==> [47] + rows[i].name != path
  }

  /** The entry a row becomes, field by field. */
  predicate Describes(entry: Fields, row: Row, h: Bytes -> Bytes) {
    var form := row.mode % 65536 / 4096;
    && Get(entry, "uid") == Some(Number(row.uid)) && Get(entry, "gid") == Some(Number(row.gid))
    && Get(entry, "mode") == Some(Number(row.mode % 4096))
    && Get(entry, "kind") == Some(KindOf(if form == 4 then Directory else if form == 10 then Symlink else File))
    && Get(entry, "target") == (if form == 10 then Some(Text(row.data)) else None)
    && Get(entry, "sha256") == (if form == 4 || form == 10 then None else Some(Text(h(row.data))))
    && entry.Keys <= {"uid", "gid", "mode", "kind", "target", "sha256"}
  }

  /** Every link's target, the trailer's aside, is text. */
  predicate LinksAreText(rows: seq<Row>) {
    forall j :: 0 <= j < |rows| && !IsTrailer(rows[j].name) && rows[j].mode % 65536 / 4096 == 10 ==> Utf8(rows[j].data)
  }

  /** The tree has an entry for each path some row stands for, made from the last of them. */
  ghost predicate TreeHolds(tree: Tree, rows: seq<Row>, h: Bytes -> Bytes) {
    && (forall p :: p in tree ==> exists j: nat :: LastRow(rows, j, p))
    && (forall p, j: nat :: LastRow(rows, j, p) ==> p in tree && Describes(tree[p], rows[j], h))
  }

  lemma RowForm(row: Row, h: Bytes -> Bytes)
    ensures Describes(TreeEntry(KindBits(row.mode), row.mode, row.uid, row.gid, row.data, h), row, h)
    ensures Readable(KindBits(row.mode), row.data) <==> (row.mode % 65536 / 4096 == 10 ==> Utf8(row.data))
  {
    assert row.mode % 65536 / 4096 == row.mode / 4096 % 16;
  }

  /** The tree read from any rows. */
  lemma {:induction false} TreeExact(rows: seq<Row>, h: Bytes -> Bytes)
    ensures TreeOfRows(rows, h).Ok? <==> LinksAreText(rows)
    ensures TreeOfRows(rows, h).Ok? ==> TreeHolds(TreeOfRows(rows, h).value, rows, h)
    decreases |rows|
  {
    hide TreeEntry, KindBits, Readable, Describes, Utf8, IsTrailer, LastRow, TreeHolds;
    if rows == [] {
      EmptyHolds(h);
    } else {
      var init, row := rows[..|rows| - 1], rows[|rows| - 1];
      TreeExact(init, h);
      RowForm(row, h);
      LinksSnoc(init, row);
      assert rows == init + [row];
      if TreeOfRows(rows, h).Ok? {
        var entry := TreeEntry(KindBits(row.mode), row.mode, row.uid, row.gid, row.data, h);
        HoldsSnoc(TreeOfRows(init, h).value, init, row, entry, h);
      }
    }
  }

  lemma EmptyHolds(h: Bytes -> Bytes)
    ensures TreeHolds(map[], [], h)
  {
  }

  lemma LinksSnoc(init: seq<Row>, row: Row)
    ensures LinksAreText(init + [row]) <==>
      LinksAreText(init) && (IsTrailer(row.name) || (row.mode % 65536 / 4096 == 10 ==> Utf8(row.data)))
  {
    hide Utf8, IsTrailer;
    var rows := init + [row];
    if LinksAreText(rows) {
      forall j | 0 <= j < |init| && !IsTrailer(init[j].name) && init[j].mode % 65536 / 4096 == 10 ensures Utf8(init[j].data) {
        assert rows[j] == init[j];
      }
      assert rows[|init|] == row;
    }
  }

  lemma LastSnoc(init: seq<Row>, row: Row, j: nat, p: Bytes)
    ensures LastRow(init + [row], j, p) <==>
      if p == [47] + row.name && !IsTrailer(row.name) then j == |init| else LastRow(init, j, p)
    ensures (LastRow(init + [row], j, p) ==> j <= |init|) && (LastRow(init, j, p) ==> j < |init|)
  {
    var rows := init + [row];
    assert rows[|init|] == row;
    forall i | 0 <= i < |init| ensures rows[i] == init[i] {
    }
    if j < |init| { SamePath(init[j].name, row.name); }
  }

  lemma SamePath(a: Bytes, b: Bytes)
    ensures [47] + a == [47] + b <==> a == b
  {
    assert ([47] + a)[1..] == a && ([47] + b)[1..] == b;
  }

  lemma HoldsSnoc(tree: Tree, init: seq<Row>, row: Row, entry: Fields, h: Bytes -> Bytes)
    requires TreeHolds(tree, init, h) && Describes(entry, row, h)
    ensures TreeHolds(if IsTrailer(row.name) then tree else tree[[47] + row.name := entry], init + [row], h)
  {
    hide Describes, LastRow, IsTrailer;
    var rows := init + [row];
    var tree' := if IsTrailer(row.name) then tree else tree[[47] + row.name := entry];
    forall p, j: nat
      ensures LastRow(rows, j, p) <==> if p == [47] + row.name && !IsTrailer(row.name) then j == |init| else LastRow(init, j, p)
      ensures (LastRow(rows, j, p) ==> j <= |init|) && (LastRow(init, j, p) ==> j < |init|)
    {
      LastSnoc(init, row, j, p);
    }
    forall p | p in tree' ensures exists j: nat :: LastRow(rows, j, p) {
      if p == [47] + row.name && !IsTrailer(row.name) {
        assert LastRow(rows, |init|, p);
      } else {
        var j: nat :| LastRow(init, j, p);
        assert LastRow(rows, j, p);
      }
    }
    forall p, j: nat | j < |rows| && LastRow(rows, j, p) ensures p in tree' && Describes(tree'[p], rows[j], h) {
    }
  }

  method TreeFromInitrd(raw: Bytes, h: Bytes -> Bytes) returns (r: Result<Tree>)
    ensures Parsed(raw).Fail? ==> r.Fail?
    ensures Parsed(raw).Ok? ==> r == TreeOfRows(Parsed(raw).value, h)
    ensures r.Ok? <==> Parsed(raw).Ok? && LinksAreText(Parsed(raw).value)
    ensures r.Ok? ==> TreeHolds(r.value, Parsed(raw).value, h)
  {
    hide Parsed, IsTrailer, TreeEntry, KindBits, Readable, LinksAreText, TreeHolds;
    if Parsed(raw).Ok? { TreeExact(Parsed(raw).value, h); }
    var parsed := ParseNewc(raw);
    if parsed.Fail? { return Fail; }
    var rows := parsed.value;
    var tree: Tree := map[];
    for k := 0 to |rows|
      invariant TreeOfRows(rows[..k], h) == Ok(tree)
    {
      var row := rows[k];
      assert rows[..k + 1][..k] == rows[..k];
      if !IsTrailer(row.name) {
        var kind := KindBits(row.mode);
        if !Readable(kind, row.data) {
          StaysUnreadable(rows, h, k + 1);
          return Fail;
        }
        tree := tree[Rooted(row.name) := TreeEntry(kind, row.mode, row.uid, row.gid, row.data, h)];
      }
    }
    assert rows[..|rows|] == rows;
    return Ok(tree);
  }

  lemma {:induction false} StaysUnreadable(rows: seq<Row>, h: Bytes -> Bytes, k: nat)
    requires k <= |rows| && TreeOfRows(rows[..k], h).Fail?
    ensures TreeOfRows(rows, h).Fail?
    decreases |rows| - k
  {
    if k < |rows| {
      assert rows[..k + 1][..k] == rows[..k];
      StaysUnreadable(rows, h, k + 1);
    } else {
      assert rows[..k] == rows;
    }
  }

  /* ----- the tree of a written layer ----- */

  function EntryFields(e: Entry, h: Bytes -> Bytes): Fields {
    TreeEntry(e.kind, e.mode, 0, 0, e.data, h)
  }

  predicate TreeOfLayer(tree: Tree, entries: seq<Entry>, h: Bytes -> Bytes) {
    && tree.Keys == (set e | e in entries :: Rooted(e.name))
    && forall e :: e in entries ==> Rooted(e.name) in tree && tree[Rooted(e.name)] == EntryFields(e, h)
  }

  predicate ReadableLayer(entries: seq<Entry>) {
    forall e :: e in entries ==> Readable(e.kind, e.data)
  }

  lemma CoherentKind(e: Entry)
    requires Coherent(e)
    ensures KindBits(e.mode) == e.kind
  {
  }

  lemma {:induction false} RowsTree(rows: seq<Row>, entries: seq<Entry>, h: Bytes -> Bytes, k: nat)
    requires RowsMatch(rows, entries, 1) && GoodLayer(entries) && TRAILER !in Names(entries) && k <= |entries|
    ensures TreeOfRows(rows[..k], h).Ok? <==> ReadableLayer(entries[..k])
    ensures TreeOfRows(rows[..k], h).Ok? ==> TreeOfLayer(TreeOfRows(rows[..k], h).value, entries[..k], h)
    decreases k
  {
    hide TreeEntry, Readable, KindBits, GoodLayer, ReadableLayer, TreeOfLayer, EntryFields, IsTrailer;
    if k == 0 {
      assert rows[..k] == [] && entries[..k] == [];
      EmptyLayerTree(h);
    } else {
      RowsTree(rows, entries, h, k - 1);
      assert rows[..k][..k - 1] == rows[..k - 1] && rows[..k][k - 1] == rows[k - 1];
      RowOfEntry(rows, entries, h, k - 1);
      ReadableSnoc(entries, k);
      if TreeOfRows(rows[..k - 1], h).Ok? && Readable(entries[k - 1].kind, entries[k - 1].data) {
        LayerTreeSnoc(TreeOfRows(rows[..k - 1], h).value, entries, h, k);
      }
    }
  }

  lemma EmptyLayerTree(h: Bytes -> Bytes)
    ensures ReadableLayer([]) && TreeOfLayer(map[], [], h)
  {
  }

  lemma RowOfEntry(rows: seq<Row>, entries: seq<Entry>, h: Bytes -> Bytes, k: nat)
    requires RowsMatch(rows, entries, 1) && GoodLayer(entries) && TRAILER !in Names(entries) && k < |entries|
    ensures var e, row := entries[k], rows[k];
      && row.name == e.name && row.data == e.data && KindBits(row.mode) == e.kind && !IsTrailer(row.name)
      && TreeEntry(KindBits(row.mode), row.mode, row.uid, row.gid, row.data, h) == EntryFields(e, h)
  {
    hide TreeEntry, KindBits, Increasing, Normalized, Utf8;
    assert RowMatches(rows[k], entries[k], 1 + k) && Coherent(entries[k]);
    CoherentKind(entries[k]);
    assert Names(entries)[k] == entries[k].name;
  }

  lemma ReadableSnoc(entries: seq<Entry>, k: nat)
    requires 0 < k <= |entries|
    ensures ReadableLayer(entries[..k]) <==>
      ReadableLayer(entries[..k - 1]) && Readable(entries[k - 1].kind, entries[k - 1].data)
  {
    hide Readable;
    assert entries[..k] == entries[..k - 1] + [entries[k - 1]];
  }

  lemma LayerTreeSnoc(tree: Tree, entries: seq<Entry>, h: Bytes -> Bytes, k: nat)
    requires 0 < k <= |entries| && GoodLayer(entries) && TreeOfLayer(tree, entries[..k - 1], h)
    ensures TreeOfLayer(tree[Rooted(entries[k - 1].name) := EntryFields(entries[k - 1], h)], entries[..k], h)
  {
    hide EntryFields, GoodLayer;
    var e := entries[k - 1];
    var tree' := tree[Rooted(e.name) := EntryFields(e, h)];
    assert entries[..k] == entries[..k - 1] + [e];
    forall f | f in entries[..k] ensures Rooted(f.name) in tree' && tree'[Rooted(f.name)] == EntryFields(f, h) {
      if Rooted(f.name) == Rooted(e.name) {
        assert Rooted(f.name)[1..] == Rooted(e.name)[1..];
        var i :| 0 <= i < k && entries[..k][i] == f;
        SameName(entries, i, k - 1);
      } else {
        assert f in entries[..k - 1];
      }
    }
  }

  /** The tree read back from a written layer holds exactly the layer's entries; reading
      fails exactly when a link target is not text. */
  lemma WrittenTree(entries: seq<Entry>, h: Bytes -> Bytes)
    requires GoodLayer(entries) && TRAILER !in Names(entries) && Archive(entries).Ok?
    ensures Parsed(Archive(entries).value).Ok?
    ensures var tree := TreeOfRows(Parsed(Archive(entries).value).value, h);
      && (tree.Ok? <==> ReadableLayer(entries))
      && (tree.Ok? ==> TreeOfLayer(tree.value, entries, h))
  {
    hide Parsed, Archive, GoodLayer, ReadableLayer, TreeOfLayer;
    RoundTrip(entries);
    var rows := Parsed(Archive(entries).value).value;
    RowsTree(rows, entries, h, |entries|);
    assert rows[..|rows| - 1] == rows[..|entries|] && entries[..|entries|] == entries;
    assert IsTrailer(rows[|rows| - 1].name);
  }

  /* ----- the two comparisons agree ----- */

  lemma FieldsDetermine(a: Entry, b: Entry, h: Bytes -> Bytes)
    requires Coherent(a) && Coherent(b) && a.name == b.name
    requires h(a.data) == h(b.data) ==> a.data == b.data
    requires EntryFields(a, h) == EntryFields(b, h)
    ensures a == b
  {
    assert EntryFields(a, h)["kind"] == EntryFields(b, h)["kind"];
    assert EntryFields(a, h)["mode"] == EntryFields(b, h)["mode"];
    if a.kind.Symlink? {
      assert EntryFields(a, h)["target"] == EntryFields(b, h)["target"];
    } else if a.kind.File? {
      assert EntryFields(a, h)["sha256"] == EntryFields(b, h)["sha256"];
    }
    ModeDetermined(a, b);
  }

  lemma ModeDetermined(a: Entry, b: Entry)
    requires Coherent(a) && Coherent(b) && a.kind == b.kind && a.mode % 0x1000 == b.mode % 0x1000
    ensures a.mode == b.mode
  {
    assert a.mode == 0x1000 * (a.mode / 0x1000) + a.mode % 0x1000;
    assert b.mode == 0x1000 * (b.mode / 0x1000) + b.mode % 0x1000;
  }

  lemma RequiredEntryOf(e: Entry, mode: nat, h: Bytes -> Bytes)
    ensures RequiredEntry(EntryFields(e, h), mode) <==> e.kind.Directory? && e.mode % 0x1000 == mode
  {
    var fields := EntryFields(e, h);
    assert "xattrs" !in fields && fields["kind"] == KindOf(e.kind) && fields["mode"] == Number(e.mode % 0x1000);
    assert fields["uid"] == Number(0) && fields["gid"] == Number(0);
  }

  lemma SameTreeSameEntries(a: seq<Entry>, b: seq<Entry>, before: Tree, after: Tree, h: Bytes -> Bytes)
    requires GoodLayer(a) && GoodLayer(b) && CollisionFree(h, a, b)
    requires TreeOfLayer(before, a, h) && TreeOfLayer(after, b, h)
    ensures KeepsPaths(before, after) <==> (forall e :: e in a ==> e in b)
  {
    hide EntryFields, Increasing, Normalized, Utf8, Coherent;
    if KeepsPaths(before, after) {
      forall e | e in a ensures e in b {
        assert Rooted(e.name) in before;
        var f :| f in b && Rooted(f.name) == Rooted(e.name);
        assert Rooted(f.name)[1..] == Rooted(e.name)[1..];
        var i :| 0 <= i < |a| && a[i] == e;
        var j :| 0 <= j < |b| && b[j] == f;
        FieldsDetermine(e, f, h);
      }
    }
    if forall e :: e in a ==> e in b {
      forall p | p in before ensures p in after && after[p] == before[p] {
        var e :| e in a && p == Rooted(e.name);
      }
    }
  }

  function RootedSet(names: set<Bytes>): set<Bytes> { set n | n in names :: Rooted(n) }

  lemma RootedMember(names: set<Bytes>, n: Bytes)
    ensures Rooted(n) in RootedSet(names) <==> n in names
  {
    if Rooted(n) in RootedSet(names) {
      var m :| m in names && Rooted(m) == Rooted(n);
      assert Rooted(m)[1..] == Rooted(n)[1..];
    }
  }

  lemma RootedUnion(a: set<Bytes>, b: set<Bytes>, w: set<Bytes>)
    requires a <= b
    ensures RootedSet(b) == RootedSet(a) + RootedSet(w) && RootedSet(a) !! RootedSet(w) <==> b - a == w
  {
    hide Rooted;
    forall n ensures (Rooted(n) in RootedSet(a) <==> n in a) && (Rooted(n) in RootedSet(b) <==> n in b)
                     && (Rooted(n) in RootedSet(w) <==> n in w) {
      RootedMember(a, n);
      RootedMember(b, n);
      RootedMember(w, n);
    }
    if RootedSet(b) == RootedSet(a) + RootedSet(w) && RootedSet(a) !! RootedSet(w) {
      forall n ensures n in b - a <==> n in w {
        assert Rooted(n) in RootedSet(b) <==> Rooted(n) in RootedSet(a) + RootedSet(w);
      }
    }
  }

  lemma AddedPaths(a: seq<Entry>, b: seq<Entry>, before: Tree, after: Tree, wanted: map<Bytes, nat>, h: Bytes -> Bytes)
    requires TreeOfLayer(before, a, h) && TreeOfLayer(after, b, h)
    requires forall e :: e in a ==> e in b
    ensures after.Keys == before.Keys + RootedSet(wanted.Keys) && before.Keys !! RootedSet(wanted.Keys)
       <==> (set n | n in Names(b) && n !in Names(a)) == wanted.Keys
  {
    hide EntryFields, Rooted, RootedSet;
    LayerPaths(a, before, h);
    LayerPaths(b, after, h);
    forall n | n in Names(a) ensures n in Names(b) {
      var i :| 0 <= i < |a| && Names(a)[i] == n;
      assert a[i] in b;
      var j :| 0 <= j < |b| && b[j] == a[i];
      assert Names(b)[j] == n;
    }
    RootedUnion(Elements(Names(a)), Elements(Names(b)), wanted.Keys);
    assert Elements(Names(b)) - Elements(Names(a)) == set n | n in Names(b) && n !in Names(a);
  }

  lemma LayerPaths(entries: seq<Entry>, tree: Tree, h: Bytes -> Bytes)
    requires TreeOfLayer(tree, entries, h)
    ensures tree.Keys == RootedSet(Elements(Names(entries)))
  {
    hide EntryFields, Rooted;
    forall e | e in entries ensures e.name in Elements(Names(entries)) {
      var i :| 0 <= i < |entries| && entries[i] == e;
      assert Names(entries)[i] == e.name;
    }
    forall n | n in Elements(Names(entries)) ensures Rooted(n) in tree {
      var i :| 0 <= i < |entries| && Names(entries)[i] == n;
      assert entries[i] in entries && entries[i].name == n;
    }
  }

  lemma AddedEntries(b: seq<Entry>, after: Tree, wanted: map<Bytes, nat>, h: Bytes -> Bytes)
    requires TreeOfLayer(after, b, h) && forall w :: w in wanted ==> w in Names(b)
    ensures AddsRequired(after, wanted) <==> AddsRequiredEntries(b, wanted)
  {
    hide EntryFields, RequiredEntry;
    forall i | 0 <= i < |b| && b[i].name in wanted
      ensures Rooted(b[i].name) in after
      ensures RequiredEntry(after[Rooted(b[i].name)], wanted[b[i].name]) <==>
              b[i].kind.Directory? && b[i].mode % 0x1000 == wanted[b[i].name]
    {
      assert b[i] in b;
      RequiredEntryOf(b[i], wanted[b[i].name], h);
    }
    forall w | w in wanted ensures exists i :: 0 <= i < |b| && b[i].name == w {
      var i :| 0 <= i < |b| && Names(b)[i] == w;
      assert b[i].name == w;
    }
  }

  predicate KeepsPaths(before: Tree, after: Tree) {
    forall p :: p in before ==> p in after && after[p] == before[p]
  }

  predicate AddsRequired(after: Tree, wanted: map<Bytes, nat>) {
    forall w :: w in wanted ==> Rooted(w) in after && RequiredEntry(after[Rooted(w)], wanted[w])
  }

  predicate AddsRequiredEntries(b: seq<Entry>, wanted: map<Bytes, nat>) {
    forall i :: 0 <= i < |b| && b[i].name in wanted ==>
      b[i].kind.Directory? && b[i].mode % 0x1000 == wanted[b[i].name]
  }

  lemma AddsExactlyParts(before: Tree, after: Tree, wanted: map<Bytes, nat>)
    ensures AddsExactly(before, after, wanted) <==>
      && after.Keys == before.Keys + RootedSet(wanted.Keys) && before.Keys !! RootedSet(wanted.Keys)
      && AddsRequired(after, wanted) && KeepsPaths(before, after)
  {
    hide RequiredEntry, Rooted;
    assert RootedSet(wanted.Keys) == set w | w in wanted :: Rooted(w);
  }

  /** Over trees of good layers the verdict asks for exactly what the accounting asks for. */
  lemma VerdictMeansExtension(a: seq<Entry>, b: seq<Entry>, before: Tree, after: Tree,
                              wanted: map<Bytes, nat>, h: Bytes -> Bytes)
    requires GoodLayer(a) && GoodLayer(b) && CollisionFree(h, a, b)
    requires TreeOfLayer(before, a, h) && TreeOfLayer(after, b, h)
    ensures AddsExactly(before, after, wanted) <==> Extends(a, b, wanted)
  {
    hide GoodLayer, CollisionFree, TreeOfLayer, AddsExactly, RootedSet, AddsRequired, Kept, Elements;
    AddsExactlyParts(before, after, wanted);
    SameTreeSameEntries(a, b, before, after, h);
    KeptSubset(a, b);
    if forall e :: e in a ==> e in b {
      AddedPaths(a, b, before, after, wanted, h);
      if (set n | n in Names(b) && n !in Names(a)) == wanted.Keys { AddedEntries(b, after, wanted, h); }
    }
  }

  /** For any two initrds written from good layers, the tree comparison passes if and only
      if the record accounting does. */
  lemma ComparisonsAgree(a: seq<Entry>, b: seq<Entry>, was: Index, now: Index, before: Tree, after: Tree,
                         wanted: map<Bytes, nat>, h: Bytes -> Bytes)
    requires GoodLayer(a) && GoodLayer(b) && CollisionFree(h, a, b)
    requires TRAILER !in Names(a) && TRAILER !in Names(b) && Archive(a).Ok? && Archive(b).Ok?
    requires Parsed(Archive(a).value).Ok? && Indexes(was, Parsed(Archive(a).value).value, h)
    requires Parsed(Archive(b).value).Ok? && Indexes(now, Parsed(Archive(b).value).value, h)
    requires TreeOfRows(Parsed(Archive(a).value).value, h) == Ok(before)
    requires TreeOfRows(Parsed(Archive(b).value).value, h) == Ok(after)
    ensures Accounted(was, now, wanted) <==> Reasons(DiffTrees(before, after), wanted, true) == {}
  {
    hide Parsed, Archive, GoodLayer, CollisionFree, TreeOfRows, TreeOfLayer, Extends, Accounted, Reasons, AddsExactly,
         DiffTrees, Indexes;
    CleanReportMeansExtension(a, b, was, now, wanted, h);
    WrittenTree(a, h);
    WrittenTree(b, h);
    VerdictMeansExtension(a, b, before, after, wanted, h);
    VerdictExact(before, after, wanted, true);
  }
}
