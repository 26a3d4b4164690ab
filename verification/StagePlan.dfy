/** The staging plan derived from a layer, and the check that a plan is the one its layer
    produces. */
module StagePlan {
  import opened ByteStrings
  import opened Paths
  import opened Initrd

  const CANONICAL_TIME: int := 0

  datatype Rest = Target(target: Bytes) | Size(bytes: nat)

  datatype PlanRow = PlanRow(path: Bytes, kind: Kind, mode: nat, mtime: int, uid: int, gid: int, rest: Rest)

  datatype Plan = Plan(executed: bool, rows: seq<PlanRow>)

  function RowOf(e: Entry): PlanRow {
    PlanRow(e.name, e.kind, e.mode % 0x1000, CANONICAL_TIME, 0, 0, if e.kind.Symlink? then Target(e.data) else Size(|e.data|))
  }

  function RowsOf(entries: seq<Entry>): (rows: seq<PlanRow>)
    ensures |rows| == |entries| && forall i :: 0 <= i < |entries| ==> rows[i] == RowOf(entries[i])
  {
    seq(|entries|, i requires 0 <= i < |entries| => RowOf(entries[i]))
  }

  method StagingEntries(entries: seq<Entry>) returns (r: Result<seq<PlanRow>>)
    ensures r == if forall i :: 0 <= i < |entries| ==> Readable(entries[i].kind, entries[i].data) then Ok(RowsOf(entries)) else Fail
  {
    hide Utf8;
    var rows: seq<PlanRow> := [];
    for k := 0 to |entries|
      invariant rows == RowsOf(entries[..k]) && forall i :: 0 <= i < k ==> Readable(entries[i].kind, entries[i].data)
    {
      var entry := entries[k];
      var rest: Rest;
      if entry.kind == Symlink {
        if !Utf8(entry.data) { return Fail; }
        rest := Target(entry.data);
      } else {
        rest := Size(|entry.data|);
      }
      rows := rows + [PlanRow(entry.name, entry.kind, entry.mode % 4096, 0, 0, 0, rest)];
    }
    assert entries[..|entries|] == entries;
    return Ok(rows);
  }

  /** Components of a path as a path library keeps them: empty parts and `.` dropped. */
  function PureParts(parts: seq<Bytes>): seq<Bytes> {
    if parts == [] then []
    else (if parts[0] == [] || parts[0] == DOT then [] else [parts[0]]) + PureParts(parts[1..])
  }

  lemma {:induction false} PlainIsPure(parts: seq<Bytes>)
    requires Plain(parts)
    ensures PureParts(parts) == parts
    decreases |parts|
  {
    if parts != [] {
      assert PlainName(parts[0]);
      PlainIsPure(parts[1..]);
      assert parts == [parts[0]] + parts[1..];
    }
  }

  /** The components of a relative path that never steps up; any other path is refused. */
  function SafeRelative(path: Bytes): Result<seq<Bytes>> {
    if path == [] || path[0] == SLASH then Fail
    else
      var parts := PureParts(Split(path));
      if DOTDOT in parts then Fail else Ok(parts)
  }

  lemma NormalizedIsSafe(path: Bytes)
    requires Normalized(path)
    ensures SafeRelative(path) == Ok(Split(path)) && Plain(Split(path)) && Split(path) != []
  {
    hide Split;
    NormalizedIsPlain(path);
    PlainIsPure(Split(path));
  }

  predicate RowAllowed(row: PlanRow) {
    row.uid == 0 && row.gid == 0 && row.mtime == CANONICAL_TIME && SafeRelative(row.path).Ok?
  }

  /** The plan is fresh, and is row for row what the layer produces. */
  predicate PlanFits(plan: Plan, members: seq<Member>) {
    !plan.executed && LayerAccepted(members) && plan.rows == RowsOf(EntriesOf(members))
  }

  /** An accepted layer's link targets are text. */
  lemma AcceptedReadable(members: seq<Member>)
    requires LayerAccepted(members)
    ensures forall i :: 0 <= i < |members| ==> Readable(EntriesOf(members)[i].kind, EntriesOf(members)[i].data)
  {
    hide Utf8, Increasing, Normalized;
    forall i | 0 <= i < |members| ensures Readable(EntriesOf(members)[i].kind, EntriesOf(members)[i].data) { assert MemberAccepted(members[i]); }
  }

  /** The row-by-row checks refuse nothing that the comparison with the layer would not
      refuse as well. */
  method AssertPlanMatchesLayer(plan: Plan, members: seq<Member>) returns (r: Result<seq<PlanRow>>)
    ensures r == if PlanFits(plan, members) then Ok(plan.rows) else Fail
  {
    hide Split, Utf8, Increasing, Coherent, EntryOf, SafeRelative, Normalized;
    if plan.executed { return Fail; }
    if plan.rows == [] { return Fail; }
    for k := 0 to |plan.rows| {
      if PlanFits(plan, members) { FittingRowAllowed(plan, members, k); }
      if !RowAllowed(plan.rows[k]) { return Fail; }
    }
    var layer := LayerEntries(members);
    if layer.Fail? { return Fail; }
    assert layer.value == EntriesOf(members);
    AcceptedReadable(members);
    var derived := StagingEntries(layer.value);
    if derived.Fail? || derived.value != plan.rows { return Fail; }
    return Ok(plan.rows);
  }

  lemma FittingRowAllowed(plan: Plan, members: seq<Member>, k: nat)
    requires PlanFits(plan, members) && k < |plan.rows|
    ensures RowAllowed(plan.rows[k])
  {
    hide Split, Utf8, Increasing, SafeRelative, Normalized;
    assert MemberAccepted(members[k]);
    NormalizedIsSafe(members[k].name);
  }
}
