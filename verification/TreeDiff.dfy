/** Comparing two trees path by path, and the verdict that the whole difference is a set
    of required directories. */
module TreeDiff {
  import opened ByteStrings
  import opened Paths
  import opened Sorting

  /** The values a tree reader records. */
  datatype Value = Number(n: int) | Text(t: Bytes) | KindOf(k: Kind) | Attributes(a: map<Bytes, Bytes>)

  type Fields = map<string, Value>
  type Tree = map<Bytes, Fields>

  function Get(fields: Fields, f: string): Option<Value> {
    if f in fields then Some(fields[f]) else None
  }

  datatype Change = Change(after: Option<Value>, before: Option<Value>)

  /** A field that only one entry has counts as changed. */
  function ChangedFields(was: Fields, now: Fields): map<string, Change> {
    map f | f in was.Keys + now.Keys && Get(was, f) != Get(now, f) :: Change(Get(now, f), Get(was, f))
  }

  datatype Diff = Diff(added: Tree, removed: Tree, changed: map<Bytes, map<string, Change>>)

  function DiffTrees(before: Tree, after: Tree): Diff {
    Diff(map p | p in after && p !in before :: after[p],
         map p | p in before && p !in after :: before[p],
         map p | p in before && p in after && ChangedFields(before[p], after[p]) != map[]
           :: ChangedFields(before[p], after[p]))
  }

  lemma UnchangedFields(was: Fields, now: Fields)
    ensures ChangedFields(was, now) == map[] <==> was == now
  {
    var c := ChangedFields(was, now);
    forall f ensures f in c <==> Get(was, f) != Get(now, f) {
    }
    if c == map[] {
      assert forall f :: Get(was, f) == Get(now, f);
      forall f | f in was ensures f in now && now[f] == was[f] { assert Get(was, f) == Get(now, f); }
      forall f | f in now ensures f in was { assert Get(was, f) == Get(now, f); }
    }
  }

  /* ----- a difference determines the later tree ----- */

  function PatchFields(was: Fields, changes: map<string, Change>): Fields {
    map f | f in was.Keys + changes.Keys && (f in changes ==> changes[f].after.Some?)
      :: if f in changes then changes[f].after.value else was[f]
  }

  function Patch(before: Tree, d: Diff): Tree {
    map p | p in before.Keys + d.added.Keys && p !in d.removed
      :: if p in d.added then d.added[p]
         else if p in d.changed then PatchFields(before[p], d.changed[p])
         else before[p]
  }

  lemma PatchedFields(was: Fields, now: Fields)
    ensures PatchFields(was, ChangedFields(was, now)) == now
  {
    var patched := PatchFields(was, ChangedFields(was, now));
    forall f ensures Get(patched, f) == Get(now, f) {
      assert f in ChangedFields(was, now) <==> Get(was, f) != Get(now, f);
    }
    forall f | f in patched ensures f in now && patched[f] == now[f] { assert Get(patched, f) == Get(now, f); }
    forall f | f in now ensures f in patched { assert Get(patched, f) == Get(now, f); }
  }

  /** Nothing is lost: the earlier tree and the difference give back the later tree. */
  lemma PatchRoundTrip(before: Tree, after: Tree)
    ensures Patch(before, DiffTrees(before, after)) == after
  {
    hide ChangedFields, PatchFields;
    var d := DiffTrees(before, after);
    var patched := Patch(before, d);
    forall p | p in after ensures p in patched && patched[p] == after[p] {
      if p in before {
        PatchedFields(before[p], after[p]);
        UnchangedFields(before[p], after[p]);
      }
    }
    forall p | p in patched ensures p in after {
    }
  }

  function Reversed(d: Diff): Diff {
    Diff(d.removed, d.added, map p | p in d.changed :: ReversedFields(d.changed[p]))
  }

  function ReversedFields(changes: map<string, Change>): map<string, Change> {
    map f | f in changes :: Change(changes[f].before, changes[f].after)
  }

  /** Exchanging the trees exchanges the two sides of the difference, so it undoes the
      later tree as well. */
  lemma DiffReversed(before: Tree, after: Tree)
    ensures DiffTrees(after, before) == Reversed(DiffTrees(before, after))
    ensures Patch(after, Reversed(DiffTrees(before, after))) == before
  {
    hide ChangedFields, ReversedFields, Patch;
    PatchRoundTrip(after, before);
    var there, back := DiffTrees(before, after), DiffTrees(after, before);
    forall p | p in before && p in after
      ensures ChangedFields(after[p], before[p]) == ReversedFields(ChangedFields(before[p], after[p]))
      ensures ChangedFields(after[p], before[p]) == map[] <==> ChangedFields(before[p], after[p]) == map[]
    {
      FieldsReversed(before[p], after[p]);
      UnchangedFields(before[p], after[p]);
      UnchangedFields(after[p], before[p]);
    }
    assert back.changed.Keys == Reversed(there).changed.Keys;
  }

  lemma FieldsReversed(was: Fields, now: Fields)
    ensures ChangedFields(now, was) == ReversedFields(ChangedFields(was, now))
  {
  }

  /* ----- the required directories ----- */

  /** One row of the record that names the directories the image must have. */
  datatype Required = Required(path: Bytes, isDirectory: bool, uid: int, gid: int, hasReason: bool, mode: Option<nat>)

  /** By octal digits: no set-id bit, and no write digit for others unless sticky. */
  predicate SafeMode(mode: nat) {
    var special, group, others := mode / 512 % 8, mode / 8 % 8, mode % 8;
    special < 2 && (group % 4 >= 2 || others % 4 >= 2 ==> special == 1)
  }

  lemma SafeByBits(mode: nat)
    ensures SafeMode(mode) <==>
      !Bit(mode, 0x800) && !Bit(mode, 0x400) && (Bit(mode, 0x10) || Bit(mode, 0x02) ==> Bit(mode, 0x200))
  {
    hide Bit;
    DigitAbove(mode);
    DigitBits(mode / 512);
    DigitBits(mode / 8);
    DigitBits(mode);
  }

  predicate RowAccepted(r: Required) {
    && r.path != [] && SLASH !in r.path && r.path[0] != 46
    && r.isDirectory && r.uid == 0 && r.gid == 0 && r.hasReason && r.mode.Some? && SafeMode(r.mode.value)
  }

  predicate RowsAccepted(rows: seq<Required>, roots: set<Bytes>) {
    && rows != []
    && (forall i :: 0 <= i < |rows| ==> RowAccepted(rows[i]))
    && (forall i, j :: 0 <= i < j < |rows| ==> rows[i].path != rows[j].path)
    && (set r | r in rows :: r.path) == roots
  }

  /** The checks on one row, in the order they are made. */
  method CheckRow(row: Required) returns (ok: bool)
    ensures ok <==> RowAccepted(row)
  {
    hide SafeMode;
    if row.path == [] || SLASH in row.path || row.path[0] == 46 { return false; }
    if !row.isDirectory { return false; }
    if row.uid != 0 || row.gid != 0 { return false; }
    if !row.hasReason || row.mode.None? { return false; }
    var mode := row.mode.value;
    SafeByBits(mode);
    if Bit(mode, 0x800) || Bit(mode, 0x400) { return false; }
    if (Bit(mode, 0x10) || Bit(mode, 0x02)) && !Bit(mode, 0x200) { return false; }
    return true;
  }

  /** The required directories as modes by path: names of the root, each listed once, and
      the same names as the sealed record. */
  method RequiredRootDirectories(rows: seq<Required>, roots: set<Bytes>) returns (r: Result<map<Bytes, nat>>)
    ensures r.Ok? <==> RowsAccepted(rows, roots)
    ensures r.Ok? ==> r.value.Keys == roots
                      && (forall row :: row in rows ==> row.path in r.value && Some(r.value[row.path]) == row.mode)
                      && (forall p :: p in r.value ==> p != [] && SLASH !in p)
  {
    hide RowAccepted, SafeMode, Bit;
    if rows == [] { return Fail; }
    var wanted: map<Bytes, nat> := map[];
    for k := 0 to |rows|
      invariant Collected(rows[..k], wanted)
    {
      CollectOneMore(rows, k, wanted);
      var accepted := CheckRow(rows[k]);
      if !accepted || rows[k].path in wanted { return Fail; }
      wanted := wanted[rows[k].path := rows[k].mode.value];
    }
    assert rows[..|rows|] == rows;
    CollectedAll(rows, wanted, roots);
    if wanted.Keys != roots { return Fail; }
    return Ok(wanted);
  }

  /** The modes by path of rows that are acceptable and not repeated. */
  predicate Collected(rows: seq<Required>, wanted: map<Bytes, nat>) {
    && (forall i :: 0 <= i < |rows| ==> RowAccepted(rows[i]))
    && (forall i, j :: 0 <= i < j < |rows| ==> rows[i].path != rows[j].path)
    && wanted.Keys == (set r | r in rows :: r.path)
    && (forall r :: r in rows ==> r.path in wanted && Some(wanted[r.path]) == r.mode)
  }

  lemma CollectOneMore(rows: seq<Required>, k: nat, wanted: map<Bytes, nat>)
    requires k < |rows| && Collected(rows[..k], wanted)
    ensures !RowAccepted(rows[k]) || rows[k].path in wanted ==> forall roots :: !RowsAccepted(rows, roots)
    ensures RowAccepted(rows[k]) && rows[k].path !in wanted ==>
      rows[k].mode.Some? && Collected(rows[..k + 1], wanted[rows[k].path := rows[k].mode.value])
  {
    var row, more := rows[k], rows[..k + 1];
    assert more == rows[..k] + [row];
    if !RowAccepted(row) {
    } else if row.path in wanted {
      var r :| r in rows[..k] && r.path == row.path;
      var i :| 0 <= i < k && rows[i] == r;
      assert rows[i].path == rows[k].path;
    } else {
      var wanted' := wanted[row.path := row.mode.value];
      forall i, j | 0 <= i < j < |more| ensures more[i].path != more[j].path {
        assert more[i] in rows[..k];
      }
      forall r | r in more ensures r.path in wanted' && Some(wanted'[r.path]) == r.mode {
        assert r in rows[..k] || r == row;
      }
      assert wanted'.Keys == set r | r in more :: r.path;
    }
  }

  lemma CollectedAll(rows: seq<Required>, wanted: map<Bytes, nat>, roots: set<Bytes>)
    requires rows != [] && Collected(rows, wanted)
    ensures RowsAccepted(rows, roots) <==> wanted.Keys == roots
    ensures forall p :: p in wanted ==> p != [] && SLASH !in p
  {
    forall p | p in wanted ensures p != [] && SLASH !in p {
      var r :| r in rows && r.path == p;
    }
  }

  /* ----- the verdict ----- */

  datatype Reason =
    | Absent(path: Bytes) | Differs(path: Bytes) | Unexpected(path: Bytes) | NotAdded(path: Bytes)
    | NotDirectory(path: Bytes) | WrongMode(path: Bytes) | NotRootOwned(path: Bytes) | HasAttributes(path: Bytes)
    | LinkGroupsDiffer

  function Rooted(name: Bytes): Bytes { [SLASH] + name }

  function AddedDirectoryReasons(path: Bytes, entry: Fields, mode: nat): set<Reason> {
    if Get(entry, "kind") != Some(KindOf(Directory)) then {NotDirectory(path)}
    else
      (if Get(entry, "mode") != Some(Number(mode)) then {WrongMode(path)} else {})
      + (if Get(entry, "uid") != Some(Number(0)) || Get(entry, "gid") != Some(Number(0)) then {NotRootOwned(path)} else {})
      + (if HasXattrs(entry) then {HasAttributes(path)} else {})
  }

  predicate HasXattrs(entry: Fields) {
    match Get(entry, "xattrs")
    case None => false
    case Some(Attributes(a)) => a != map[]
    case Some(Number(n)) => n != 0
    case Some(Text(t)) => t != []
    case Some(KindOf(_)) => true
  }

  /** Every objection to the difference; the trees pass when there is none. */
  function Reasons(diff: Diff, wanted: map<Bytes, nat>, linksAgree: bool): set<Reason> {
    (set p | p in diff.removed :: Absent(p))
    + (set p | p in diff.changed :: Differs(p))
    + (set p | p in diff.added && (p == [] || p[0] != SLASH || p[1..] !in wanted) :: Unexpected(p))
    + (set w | w in wanted && Rooted(w) !in diff.added :: NotAdded(Rooted(w)))
    + (set w, reason | w in wanted && Rooted(w) in diff.added
         && reason in AddedDirectoryReasons(Rooted(w), diff.added[Rooted(w)], wanted[w]) :: reason)
    + (if linksAgree then {} else {LinkGroupsDiffer})
  }

  /** Which of the four objections an added directory earns, as a list. */
  method DirectoryObjections(path: Bytes, entry: Fields, mode: nat) returns (found: seq<Reason>)
    ensures found == [] <==> RequiredEntry(entry, mode)
    ensures Elements(found) == AddedDirectoryReasons(path, entry, mode)
  {
    hide HasXattrs;
    AttributesEither(entry);
    found := [];
    if Get(entry, "kind") != Some(KindOf(Directory)) { return [NotDirectory(path)]; }
    if Get(entry, "mode") != Some(Number(mode)) { found := found + [WrongMode(path)]; }
    if Get(entry, "uid") != Some(Number(0)) || Get(entry, "gid") != Some(Number(0)) { found := found + [NotRootOwned(path)]; }
    if HasXattrs(entry) { found := found + [HasAttributes(path)]; }
  }

  /** The same objection to each of some paths. */
  method EachPath(paths: set<Bytes>, make: Bytes -> Reason) returns (found: seq<Reason>)
    ensures Elements(found) == set p | p in paths :: make(p)
  {
    found := [];
    var todo := paths;
    while todo != {}
      invariant todo <= paths && Elements(found) == set p | p in paths - todo :: make(p)
      decreases todo
    {
      var p :| p in todo;
      ElementsConcat(found, [make(p)]);
      assert paths - (todo - {p}) == (paths - todo) + {p};
      found := found + [make(p)];
      todo := todo - {p};
    }
    assert paths - {} == paths;
  }

  lemma ElementsConcat<T>(a: seq<T>, b: seq<T>)
    ensures Elements(a + b) == Elements(a) + Elements(b)
  {
  }

  function RequiredReasons(diff: Diff, wanted: map<Bytes, nat>, names: set<Bytes>): set<Reason> {
    set w, reason | w in names && w in wanted && Rooted(w) in diff.added
      && reason in AddedDirectoryReasons(Rooted(w), diff.added[Rooted(w)], wanted[w]) :: reason
  }

  method EachRequired(diff: Diff, wanted: map<Bytes, nat>) returns (found: seq<Reason>)
    ensures Elements(found) == RequiredReasons(diff, wanted, wanted.Keys)
  {
    hide AddedDirectoryReasons;
    found := [];
    var todo := wanted.Keys;
    while todo != {}
      invariant todo <= wanted.Keys && Elements(found) == RequiredReasons(diff, wanted, wanted.Keys - todo)
      decreases todo
    {
      var w :| w in todo;
      var more: seq<Reason> := [];
      if Rooted(w) in diff.added { more := DirectoryObjections(Rooted(w), diff.added[Rooted(w)], wanted[w]); }
      RequiredNext(diff, wanted, wanted.Keys - todo, w, Elements(more));
      ElementsConcat(found, more);
      assert wanted.Keys - (todo - {w}) == (wanted.Keys - todo) + {w};
      found := found + more;
      todo := todo - {w};
    }
    assert wanted.Keys - {} == wanted.Keys;
  }

  lemma RequiredNext(diff: Diff, wanted: map<Bytes, nat>, names: set<Bytes>, w: Bytes, more: set<Reason>)
    requires w in wanted && more == if Rooted(w) in diff.added then AddedDirectoryReasons(Rooted(w), diff.added[Rooted(w)], wanted[w]) else {}
    ensures RequiredReasons(diff, wanted, names + {w}) == RequiredReasons(diff, wanted, names) + more
  {
    hide AddedDirectoryReasons;
  }

  function ExtraPaths(diff: Diff, wanted: map<Bytes, nat>): set<Bytes> {
    set p | p in diff.added && (p == [] || p[0] != SLASH || p[1..] !in wanted)
  }

  function UnaddedNames(diff: Diff, wanted: map<Bytes, nat>): set<Bytes> {
    set w | w in wanted && Rooted(w) !in diff.added
  }

  /** The verdict: every objection listed, and a pass exactly when there is none. */
  method Verdict(diff: Diff, wanted: map<Bytes, nat>, linksAgree: bool) returns (ok: bool, reasons: seq<Reason>)
    ensures Elements(reasons) == Reasons(diff, wanted, linksAgree)
    ensures ok <==> Reasons(diff, wanted, linksAgree) == {}
  {
    hide AddedDirectoryReasons, Reasons, RequiredReasons, Elements, ExtraPaths, UnaddedNames;
    var absent := EachPath(diff.removed.Keys, p => Absent(p));
    var differs := EachPath(diff.changed.Keys, p => Differs(p));
    var unexpected := EachPath(ExtraPaths(diff, wanted), p => Unexpected(p));
    var missing := EachPath(UnaddedNames(diff, wanted), w => NotAdded(Rooted(w)));
    var wrong := EachRequired(diff, wanted);
    var links := if linksAgree then [] else [LinkGroupsDiffer];
    reasons := absent + differs + unexpected + missing + wrong + links;
    ReasonsListed(diff, wanted, linksAgree, absent, differs, unexpected, missing, wrong);
    ok := |reasons| == 0;
    NoElements(reasons);
  }

  lemma NoElements<T>(s: seq<T>)
    ensures Elements(s) == {} <==> |s| == 0
  {
    if |s| > 0 { assert s[0] in Elements(s); }
  }

  lemma ReasonsListed(diff: Diff, wanted: map<Bytes, nat>, linksAgree: bool, absent: seq<Reason>, differs: seq<Reason>,
                      unexpected: seq<Reason>, missing: seq<Reason>, wrong: seq<Reason>)
    requires Elements(absent) == set p | p in diff.removed.Keys :: Absent(p)
    requires Elements(differs) == set p | p in diff.changed.Keys :: Differs(p)
    requires Elements(unexpected) == set p | p in ExtraPaths(diff, wanted) :: Unexpected(p)
    requires Elements(missing) == set w | w in UnaddedNames(diff, wanted) :: NotAdded(Rooted(w))
    requires Elements(wrong) == RequiredReasons(diff, wanted, wanted.Keys)
    ensures var links := if linksAgree then [] else [LinkGroupsDiffer];
      Elements(absent + differs + unexpected + missing + wrong + links) == Reasons(diff, wanted, linksAgree)
  {
    hide AddedDirectoryReasons, Reasons, RequiredReasons, Elements, ExtraPaths, UnaddedNames;
    var links := if linksAgree then [] else [LinkGroupsDiffer];
    ElementsConcat(absent, differs);
    ElementsConcat(absent + differs, unexpected);
    ElementsConcat(absent + differs + unexpected, missing);
    ElementsConcat(absent + differs + unexpected + missing, wrong);
    ElementsConcat(absent + differs + unexpected + missing + wrong, links);
    LinkReason(linksAgree);
    ReasonsByPart(diff, wanted, linksAgree);
  }

  lemma LinkReason(linksAgree: bool)
    ensures Elements(if linksAgree then [] else [LinkGroupsDiffer]) == if linksAgree then {} else {LinkGroupsDiffer}
  {
  }

  lemma ReasonsByPart(diff: Diff, wanted: map<Bytes, nat>, linksAgree: bool)
    ensures Reasons(diff, wanted, linksAgree) ==
      (set p | p in diff.removed.Keys :: Absent(p)) + (set p | p in diff.changed.Keys :: Differs(p))
      + (set p | p in ExtraPaths(diff, wanted) :: Unexpected(p)) + (set w | w in UnaddedNames(diff, wanted) :: NotAdded(Rooted(w)))
      + RequiredReasons(diff, wanted, wanted.Keys) + (if linksAgree then {} else {LinkGroupsDiffer})
  {
    hide AddedDirectoryReasons;
  }

  /** The entry of a root-owned directory with this mode and no extended attributes. */
  predicate RequiredEntry(entry: Fields, mode: nat) {
    && "kind" in entry && entry["kind"] == KindOf(Directory)
    && "mode" in entry && entry["mode"] == Number(mode)
    && "uid" in entry && entry["uid"] == Number(0)
    && "gid" in entry && entry["gid"] == Number(0)
    && NoAttributes(entry)
  }

  /** There is no `xattrs` field, or it holds nothing. */
  predicate NoAttributes(entry: Fields) {
    "xattrs" !in entry || entry["xattrs"] == Attributes(map[]) || entry["xattrs"] == Number(0) || entry["xattrs"] == Text([])
  }

  lemma AttributesEither(entry: Fields)
    ensures HasXattrs(entry) <==> !NoAttributes(entry)
  {
  }

  /** The later tree is the earlier one plus exactly the required directories. */
  predicate AddsExactly(before: Tree, after: Tree, wanted: map<Bytes, nat>) {
    && after.Keys == before.Keys + (set w | w in wanted :: Rooted(w))
    && (forall w :: w in wanted ==> Rooted(w) !in before && Rooted(w) in after && RequiredEntry(after[Rooted(w)], wanted[w]))
    && (forall p :: p in before ==> p in after && after[p] == before[p])
  }

  lemma DirectoryReasons(path: Bytes, entry: Fields, mode: nat)
    ensures AddedDirectoryReasons(path, entry, mode) == {} <==> RequiredEntry(entry, mode)
  {
    hide HasXattrs, NoAttributes;
    AttributesEither(entry);
    var wrong := AddedDirectoryReasons(path, entry, mode);
    if !RequiredEntry(entry, mode) {
      assert NotDirectory(path) in wrong || WrongMode(path) in wrong
          || NotRootOwned(path) in wrong || HasAttributes(path) in wrong;
    }
  }

  predicate NoReasons(diff: Diff, wanted: map<Bytes, nat>, linksAgree: bool) {
    && diff.removed == map[] && diff.changed == map[]
    && diff.added.Keys == (set w | w in wanted :: Rooted(w))
    && (forall w :: w in wanted ==> Rooted(w) in diff.added && RequiredEntry(diff.added[Rooted(w)], wanted[w]))
    && linksAgree
  }

  /** Each way of differing contributes its own objection. */
  lemma ReasonsInclude(diff: Diff, wanted: map<Bytes, nat>, linksAgree: bool)
    ensures var reasons := Reasons(diff, wanted, linksAgree);
      && (forall p :: p in diff.removed ==> Absent(p) in reasons)
      && (forall p :: p in diff.changed ==> Differs(p) in reasons)
      && (forall p :: p in diff.added ==> Unexpected(p) in reasons || p in (set w | w in wanted :: Rooted(w)))
      && (forall w :: w in wanted ==> NotAdded(Rooted(w)) in reasons || Rooted(w) in diff.added)
      && (forall w :: w in wanted && Rooted(w) in diff.added ==>
            AddedDirectoryReasons(Rooted(w), diff.added[Rooted(w)], wanted[w]) <= reasons)
      && (linksAgree || LinkGroupsDiffer in reasons)
  {
    hide AddedDirectoryReasons;
    var reasons := Reasons(diff, wanted, linksAgree);
    forall p | p in diff.added ensures Unexpected(p) in reasons || p in (set w | w in wanted :: Rooted(w)) {
      if p != [] && p[0] == SLASH && p[1..] in wanted { assert p == Rooted(p[1..]); }
    }
    forall w | w in wanted ensures NotAdded(Rooted(w)) in reasons || Rooted(w) in diff.added {
    }
    forall w | w in wanted && Rooted(w) in diff.added
      ensures AddedDirectoryReasons(Rooted(w), diff.added[Rooted(w)], wanted[w]) <= reasons
    {
    }
  }

  lemma ReasonsEmpty(diff: Diff, wanted: map<Bytes, nat>, linksAgree: bool)
    requires Reasons(diff, wanted, linksAgree) == {}
    ensures NoReasons(diff, wanted, linksAgree)
  {
    hide AddedDirectoryReasons, RequiredEntry, Reasons;
    ReasonsInclude(diff, wanted, linksAgree);
    forall w | w in wanted
      ensures Rooted(w) in diff.added && RequiredEntry(diff.added[Rooted(w)], wanted[w])
    {
      DirectoryReasons(Rooted(w), diff.added[Rooted(w)], wanted[w]);
    }
  }

  lemma EmptyReasons(diff: Diff, wanted: map<Bytes, nat>, linksAgree: bool)
    requires NoReasons(diff, wanted, linksAgree)
    ensures Reasons(diff, wanted, linksAgree) == {}
  {
    hide AddedDirectoryReasons, RequiredEntry;
    forall w | w in wanted
      ensures AddedDirectoryReasons(Rooted(w), diff.added[Rooted(w)], wanted[w]) == {}
    {
      DirectoryReasons(Rooted(w), diff.added[Rooted(w)], wanted[w]);
    }
    forall p | p in diff.added ensures p != [] && p[0] == SLASH && p[1..] in wanted {
      var w :| w in wanted && p == Rooted(w);
      assert Rooted(w)[1..] == w;
    }
  }

  /** The verdict is exact: no objection if and only if the later tree is the earlier tree
      plus exactly the required directories, with the links grouped alike. */
  lemma VerdictExact(before: Tree, after: Tree, wanted: map<Bytes, nat>, linksAgree: bool)
    ensures Reasons(DiffTrees(before, after), wanted, linksAgree) == {} <==>
            linksAgree && AddsExactly(before, after, wanted)
  {
    hide Reasons, RequiredEntry, ChangedFields;
    var d := DiffTrees(before, after);
    if Reasons(d, wanted, linksAgree) == {} {
      ReasonsEmpty(d, wanted, linksAgree);
      NoReasonsMeansExact(before, after, wanted, linksAgree);
    }
    if linksAgree && AddsExactly(before, after, wanted) {
      ExactMeansNoReasons(before, after, wanted);
      EmptyReasons(d, wanted, linksAgree);
    }
  }

  lemma NoReasonsMeansExact(before: Tree, after: Tree, wanted: map<Bytes, nat>, linksAgree: bool)
    requires NoReasons(DiffTrees(before, after), wanted, linksAgree)
    ensures AddsExactly(before, after, wanted)
  {
    hide RequiredEntry, ChangedFields;
    var d := DiffTrees(before, after);
    assert d.removed.Keys == before.Keys - after.Keys;
    forall p | p in before ensures p in after && after[p] == before[p] {
      UnchangedFields(before[p], after[p]);
      assert p in d.changed <==> ChangedFields(before[p], after[p]) != map[];
    }
    forall p | p in after && p !in before ensures p in (set w | w in wanted :: Rooted(w)) {
      assert p in d.added;
    }
    forall w | w in wanted
      ensures Rooted(w) !in before && Rooted(w) in after && RequiredEntry(after[Rooted(w)], wanted[w])
    {
      assert Rooted(w) in d.added;
    }
  }

  lemma ExactMeansNoReasons(before: Tree, after: Tree, wanted: map<Bytes, nat>)
    requires AddsExactly(before, after, wanted)
    ensures NoReasons(DiffTrees(before, after), wanted, true)
  {
    hide RequiredEntry, ChangedFields;
    var d := DiffTrees(before, after);
    forall p | p in before && p in after ensures ChangedFields(before[p], after[p]) == map[] {
      UnchangedFields(before[p], after[p]);
    }
    assert d.added.Keys == set w | w in wanted :: Rooted(w);
  }

  /* ----- emptiness, which is never tested ----- */

  /** `path` names something directly inside `dir`; the root is the empty prefix. */
  predicate ChildOf(dir: Bytes, path: Bytes) {
    |path| > |dir| + 1 && path[..|dir|] == dir && path[|dir|] == SLASH && SLASH !in path[|dir| + 1..]
  }

  ghost predicate ParentClosed(tree: Tree) {
    forall p, q :: p in tree && ChildOf(q, p) && q != [] ==> q in tree
  }

  ghost predicate HoldsNothing(tree: Tree, dir: Bytes) {
    forall p :: p in tree ==> !ChildOf(dir, p)
  }

  lemma ChildHasTwoSlashes(w: Bytes, v: Bytes)
    requires SLASH !in v
    ensures !ChildOf(Rooted(w), Rooted(v))
  {
    assert |v| > |w| + 1 ==> Rooted(v)[|w| + 1] == v[|w|] && v[|w|] in v;
  }

  /** A required directory is empty in a tree that passes exactly when the earlier tree
      held nothing under that name. */
  lemma EmptinessExact(before: Tree, after: Tree, wanted: map<Bytes, nat>, w: Bytes)
    requires AddsExactly(before, after, wanted) && w in wanted
    requires forall v :: v in wanted ==> SLASH !in v
    ensures HoldsNothing(after, Rooted(w)) <==> HoldsNothing(before, Rooted(w))
  {
    hide RequiredEntry;
    if HoldsNothing(before, Rooted(w)) {
      forall p | p in after ensures !ChildOf(Rooted(w), p) {
        if p !in before {
          assert p in (set v | v in wanted :: Rooted(v));
          var v :| v in wanted && p == Rooted(v);
          ChildHasTwoSlashes(w, v);
        }
      }
    }
  }

  /** A passing verdict over a parent-closed earlier tree: the later tree is the earlier
      one plus exactly the required directories, and each of them is empty. */
  lemma VerdictSound(before: Tree, after: Tree, wanted: map<Bytes, nat>, linksAgree: bool)
    requires forall v :: v in wanted ==> SLASH !in v
    requires ParentClosed(before)
    requires Reasons(DiffTrees(before, after), wanted, linksAgree) == {}
    ensures linksAgree && AddsExactly(before, after, wanted)
    ensures forall w :: w in wanted ==> HoldsNothing(after, Rooted(w))
  {
    hide Reasons, DiffTrees, RequiredEntry;
    VerdictExact(before, after, wanted, linksAgree);
    forall w | w in wanted ensures HoldsNothing(after, Rooted(w)) {
      EmptinessExact(before, after, wanted, w);
      assert Rooted(w) !in before;
    }
  }

  /** Without a parent-closed earlier tree a directory that is not empty can pass. */
  lemma OrphanDefeatsEmptiness()
    ensures var dir: Fields := map["gid" := Number(0), "kind" := KindOf(Directory), "mode" := Number(493), "uid" := Number(0)];
      var before: Tree := map[[47, 97, 47, 98] := dir];
      var after: Tree := map[[47, 97, 47, 98] := dir, [47, 97] := dir];
      Reasons(DiffTrees(before, after), map[[97] := 493], true) == {} && !HoldsNothing(after, [47, 97])
  {
    var dir: Fields := map["gid" := Number(0), "kind" := KindOf(Directory), "mode" := Number(493), "uid" := Number(0)];
    var before: Tree := map[[47, 97, 47, 98] := dir];
    var after: Tree := map[[47, 97, 47, 98] := dir, [47, 97] := dir];
    var wanted: map<Bytes, nat> := map[[97] := 493];
    hide Reasons, DiffTrees;
    assert Rooted([97]) == [47, 97];
    assert AddsExactly(before, after, wanted);
    VerdictExact(before, after, wanted, true);
    assert ChildOf([47, 97], [47, 97, 47, 98]);
  }
}
