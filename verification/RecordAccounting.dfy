/** Two `newc` archives compared record by record: which were added, how the numbering moved
    and where the added bytes went. */
module RecordAccounting {
  import opened ByteStrings
  import opened Sorting
  import opened Folds
  import opened Newc
  import opened Initrd

  datatype Rec = Rec(ino: nat, mode: nat, uid: nat, gid: nat, nlink: nat, mtime: nat,
                     filesize: nat, sha256: Bytes, span: int)

  /** The records by name, in the order they were met, and where the last one ends. */
  datatype Index = Index(names: seq<Bytes>, records: map<Bytes, Rec>, total: nat)

  predicate WellFormed(ix: Index) {
    Distinct(ix.names) && ix.records.Keys == Elements(ix.names)
  }

  function RecOf(rows: seq<Row>, k: nat, h: Bytes -> Bytes): Rec
    requires k < |rows|
  {
    var row := rows[k];
    Rec(row.ino, row.mode, row.uid, row.gid, row.nlink, row.mtime, row.filesize, h(row.data),
        row.dataEnd - StartOf(rows, k, 0))
  }

  function BodyNames(rows: seq<Row>): (names: seq<Bytes>)
    requires rows != []
    ensures |names| == |rows| - 1
    ensures forall k :: 0 <= k < |names| ==> names[k] == rows[k].name
  {
    seq(|rows| - 1, k requires 0 <= k < |rows| - 1 => rows[k].name)
  }

  /** `ix` is the index of these rows: every record before the trailer, once. */
  predicate Indexes(ix: Index, rows: seq<Row>, h: Bytes -> Bytes) {
    && rows != [] && WellFormed(ix) && ix.names == BodyNames(rows)
    && (forall k :: 0 <= k < |ix.names| ==> ix.names[k] in ix.records && ix.records[ix.names[k]] == RecOf(rows, k, h))
    && ix.total == rows[|rows| - 1].dataEnd
  }

  /** The first records of `rows`, as many as there are `names`. */
  predicate IndexedSoFar(rows: seq<Row>, h: Bytes -> Bytes, names: seq<Bytes>, records: map<Bytes, Rec>)
    requires rows != []
  {
    && names <= BodyNames(rows) && Distinct(names) && records.Keys == Elements(names)
    && forall i :: 0 <= i < |names| ==> names[i] in records && records[names[i]] == RecOf(rows, i, h)
  }

  lemma IndexNone(rows: seq<Row>, h: Bytes -> Bytes)
    requires rows != []
    ensures IndexedSoFar(rows, h, [], map[])
  {
  }

  lemma IndexRepeats(rows: seq<Row>, h: Bytes -> Bytes, names: seq<Bytes>, records: map<Bytes, Rec>)
    requires rows != [] && IndexedSoFar(rows, h, names, records) && |names| < |rows| - 1
    requires rows[|names|].name in records
    ensures !Distinct(BodyNames(rows))
  {
    hide RecOf;
    var k := |names|;
    assert rows[k].name in Elements(names);
    var i :| 0 <= i < k && names[i] == rows[k].name;
    assert BodyNames(rows)[i] == BodyNames(rows)[k];
  }

  lemma IndexOneMore(rows: seq<Row>, h: Bytes -> Bytes, names: seq<Bytes>, records: map<Bytes, Rec>)
    requires rows != [] && IndexedSoFar(rows, h, names, records) && |names| < |rows| - 1
    requires rows[|names|].name !in records
    ensures var k := |names|;
      IndexedSoFar(rows, h, names + [rows[k].name], records[rows[k].name := RecOf(rows, k, h)])
  {
    hide RecOf, Distinct;
    var k := |names|;
    var name, more := rows[k].name, names + [rows[k].name];
    assert BodyNames(rows)[..k + 1] == more by {
      assert BodyNames(rows)[..k] == names;
    }
    assert name in records <==> name in Elements(names);
    DistinctSnoc(names, name);
    forall i | 0 <= i < |more|
      ensures more[i] in records[name := RecOf(rows, k, h)]
      ensures records[name := RecOf(rows, k, h)][more[i]] == RecOf(rows, i, h)
    {
      if i < k { assert names[i] in Elements(names); }
    }
  }

  method IndexRows(rows: seq<Row>, h: Bytes -> Bytes) returns (r: Result<Index>)
    requires OnlyLastIsTrailer(rows)
    ensures r.Ok? <==> Distinct(BodyNames(rows))
    ensures r.Ok? ==> Indexes(r.value, rows, h)
  {
    hide IndexedSoFar, Distinct, Indexes, Elements, BodyNames, IsTrailer;
    var names: seq<Bytes> := [];
    var records: map<Bytes, Rec> := map[];
    IndexNone(rows, h);
    var start, total := 0, 0;
    for k := 0 to |rows|
      invariant start == StartOf(rows, k, 0) && total == start
      invariant |names| == if k < |rows| then k else |rows| - 1
      invariant IndexedSoFar(rows, h, names, records)
    {
      var row := rows[k];
      total := row.dataEnd;
      var span := row.dataEnd - start;
      start := row.dataEnd;
      if !IsTrailer(row.name) {
        if row.name in records {
          IndexRepeats(rows, h, names, records);
          return Fail;
        }
        IndexOneMore(rows, h, names, records);
        records := records[row.name := Rec(row.ino, row.mode, row.uid, row.gid, row.nlink, row.mtime,
                                           row.filesize, h(row.data), span)];
        names := names + [row.name];
      }
    }
    IndexComplete(rows, h, Index(names, records, total));
    return Ok(Index(names, records, total));
  }

  lemma IndexComplete(rows: seq<Row>, h: Bytes -> Bytes, ix: Index)
    requires rows != [] && IndexedSoFar(rows, h, ix.names, ix.records) && |ix.names| == |rows| - 1
    requires ix.total == rows[|rows| - 1].dataEnd
    ensures Indexes(ix, rows, h) && Distinct(BodyNames(rows))
  {
    hide RecOf, Distinct;
    assert ix.names == BodyNames(rows);
  }

  /** Read an archive into an index.  It is refused exactly when it does not parse or a
      name occurs twice before the trailer. */
  method ArchiveRecords(raw: Bytes, h: Bytes -> Bytes) returns (r: Result<Index>)
    ensures r.Ok? <==> Parsed(raw).Ok? && Parsed(raw).value != [] && Distinct(BodyNames(Parsed(raw).value))
    ensures r.Ok? ==> Indexes(r.value, Parsed(raw).value, h)
  {
    hide ParseFrom, Indexes, Tiles, ReadRecord;
    var parsed := ParseNewc(raw);
    if parsed.Fail? { return Fail; }
    ParseTiles(raw, 0);
    r := IndexRows(parsed.value, h);
  }

  /* ----- the accounting ----- */

  function AddedNames(was: Index, now: Index): seq<Bytes> { Sort(Without(now.names, was.records.Keys)) }
  function RemovedNames(was: Index, now: Index): seq<Bytes> { Sort(Without(was.names, now.records.Keys)) }
  function CommonNames(was: Index, now: Index): seq<Bytes> { Sort(Within(now.names, was.records.Keys)) }

  /** The compared fields; the number and the span are accounted for separately. */
  predicate SameFields(a: Rec, b: Rec) {
    && a.filesize == b.filesize && a.gid == b.gid && a.mode == b.mode && a.mtime == b.mtime
    && a.nlink == b.nlink && a.sha256 == b.sha256 && a.uid == b.uid
  }

  /** A record for an empty root-owned directory with the wanted permissions. */
  predicate RequiredDirectory(r: Rec, mode: nat) {
    r.mode / 0x1000 % 16 == 4 && r.mode % 0x1000 == mode && r.uid == 0 && r.gid == 0 && r.filesize == 0
  }

  function Below(ix: Index, ino: int): Bytes -> int {
    n => if n in ix.records && ix.records[n].ino < ino then 1 else 0
  }

  function SpanIn(ix: Index): Bytes -> int {
    n => if n in ix.records then ix.records[n].span else 0
  }

  /** The shift of a record's number equals the count of added records with a lower number. */
  predicate ShiftExplained(was: Index, now: Index, name: Bytes) {
    && name in was.records && name in now.records
    && now.records[name].ino - was.records[name].ino
       == Sum(AddedNames(was, now), Below(now, now.records[name].ino))
  }

  predicate Consistent(was: Index, now: Index) {
    forall n :: n in CommonNames(was, now) ==> ShiftExplained(was, now, n)
  }

  function AddedBytes(was: Index, now: Index): int { Sum(AddedNames(was, now), SpanIn(now)) }

  predicate Balanced(was: Index, now: Index) { now.total - was.total == AddedBytes(was, now) }

  predicate FieldsKept(was: Index, now: Index) {
    forall n :: n in was.records && n in now.records ==> SameFields(was.records[n], now.records[n])
  }

  predicate AddedAsRequired(was: Index, now: Index, wanted: map<Bytes, nat>) {
    && Elements(AddedNames(was, now)) == wanted.Keys
    && forall n :: n in wanted && n in now.records ==> RequiredDirectory(now.records[n], wanted[n])
  }

  predicate Accounted(was: Index, now: Index, wanted: map<Bytes, nat>) {
    && RemovedNames(was, now) == [] && FieldsKept(was, now) && AddedAsRequired(was, now, wanted)
    && Consistent(was, now) && Balanced(was, now)
  }

  datatype Report = Report(added: seq<Bytes>, removed: seq<Bytes>, inconsistent: seq<Bytes>,
                           shifts: map<Bytes, int>, addedBytes: int, balanced: bool, ok: bool)

  method Account(was: Index, now: Index, wanted: map<Bytes, nat>) returns (report: Report)
    requires WellFormed(was) && WellFormed(now)
    ensures report.added == AddedNames(was, now) && report.removed == RemovedNames(was, now)
    ensures forall n :: n in report.inconsistent <==> n in CommonNames(was, now) && !ShiftExplained(was, now, n)
    ensures report.shifts.Keys == Elements(CommonNames(was, now))
    ensures forall n :: n in report.shifts && n in was.records && n in now.records ==>
              report.shifts[n] == now.records[n].ino - was.records[n].ino
    ensures report.addedBytes == AddedBytes(was, now) && report.balanced == Balanced(was, now)
    ensures report.ok <==> Accounted(was, now, wanted)
  {
    hide AddedNames, CommonNames, RemovedNames, Sum, Consistent, FieldsKept, WellFormed, ShiftExplained;
    var added, removed, common := AddedNames(was, now), RemovedNames(was, now), CommonNames(was, now);
    AccountNames(was, now);
    var kept := CompareFields(was, now, common);
    var required := Elements(added) == wanted.Keys
      && forall n :: n in wanted ==> n in now.records && n in added ==> RequiredDirectory(now.records[n], wanted[n]);
    assert required <==> AddedAsRequired(was, now, wanted);
    var shifts, inconsistent := Renumber(was, now, common);
    var addedBytes := SumSpans(added, now);
    var balanced := now.total - was.total == addedBytes;
    report := Report(added, removed, inconsistent, shifts, addedBytes, balanced,
                     removed == [] && kept && required && inconsistent == [] && balanced);
  }

  method CompareFields(was: Index, now: Index, common: seq<Bytes>) returns (kept: bool)
    requires forall n :: n in common <==> n in was.records && n in now.records
    ensures kept <==> FieldsKept(was, now)
  {
    kept := true;
    for k := 0 to |common|
      invariant kept <==> forall i :: 0 <= i < k ==> SameFields(was.records[common[i]], now.records[common[i]])
    {
      if !SameFields(was.records[common[k]], now.records[common[k]]) { kept := false; }
    }
    assert forall i :: 0 <= i < |common| ==> common[i] in was.records && common[i] in now.records;
  }

  method Renumber(was: Index, now: Index, common: seq<Bytes>)
    returns (shifts: map<Bytes, int>, inconsistent: seq<Bytes>)
    requires WellFormed(was) && WellFormed(now) && common == CommonNames(was, now)
    ensures shifts.Keys == Elements(common)
    ensures forall n :: n in shifts && n in was.records && n in now.records ==>
              shifts[n] == now.records[n].ino - was.records[n].ino
    ensures forall n :: n in inconsistent <==> n in common && !ShiftExplained(was, now, n)
    ensures inconsistent == [] <==> Consistent(was, now)
  {
    hide Sum, AddedNames, CommonNames, RemovedNames, WellFormed, ShiftExplained;
    AccountNames(was, now);
    shifts, inconsistent := map[], [];
    for k := 0 to |common|
      invariant shifts.Keys == Elements(common[..k])
      invariant forall n :: n in shifts && n in was.records && n in now.records ==>
                  shifts[n] == now.records[n].ino - was.records[n].ino
      invariant forall n :: n in inconsistent <==> n in common[..k] && !ShiftExplained(was, now, n)
    {
      var name := common[k];
      ShiftIs(was, now, name);
      var shift := now.records[name].ino - was.records[name].ino;
      shifts := shifts[name := shift];
      var expected := CountInsertions(AddedNames(was, now), now, now.records[name].ino);
      if shift != expected { inconsistent := inconsistent + [name]; }
      assert common[..k + 1] == common[..k] + [name];
    }
    assert common[..|common|] == common;
    assert inconsistent != [] ==> inconsistent[0] in inconsistent;
  }

  lemma ShiftIs(was: Index, now: Index, name: Bytes)
    requires name in was.records && name in now.records
    ensures ShiftExplained(was, now, name) <==>
      now.records[name].ino - was.records[name].ino == Sum(AddedNames(was, now), Below(now, now.records[name].ino))
  {
  }

  method CountInsertions(added: seq<Bytes>, now: Index, ino: int) returns (count: int)
    requires forall i :: 0 <= i < |added| ==> added[i] in now.records
    ensures count == Sum(added, Below(now, ino))
  {
    count := 0;
    for k := 0 to |added|
      invariant count == Sum(added[..k], Below(now, ino))
    {
      SumSnoc(added[..k], added[k], Below(now, ino));
      assert added[..k + 1] == added[..k] + [added[k]];
      if now.records[added[k]].ino < ino { count := count + 1; }
    }
    assert added[..|added|] == added;
  }

  method SumSpans(added: seq<Bytes>, now: Index) returns (total: int)
    requires forall i :: 0 <= i < |added| ==> added[i] in now.records
    ensures total == Sum(added, SpanIn(now))
  {
    total := 0;
    for k := 0 to |added|
      invariant total == Sum(added[..k], SpanIn(now))
    {
      SumSnoc(added[..k], added[k], SpanIn(now));
      assert added[..k + 1] == added[..k] + [added[k]];
      total := total + now.records[added[k]].span;
    }
    assert added[..|added|] == added;
  }

  lemma SortedMembers(s: seq<Bytes>, x: Bytes)
    ensures x in Sort(s) <==> x in s
  {
    hide Sort;
    SortSorts(s);
    assert x in multiset(Sort(s)) <==> x in multiset(s);
  }

  lemma AccountNames(was: Index, now: Index)
    requires WellFormed(was) && WellFormed(now)
    ensures forall n :: n in AddedNames(was, now) <==> n in now.records && n !in was.records
    ensures forall n :: n in RemovedNames(was, now) <==> n in was.records && n !in now.records
    ensures forall n :: n in CommonNames(was, now) <==> n in was.records && n in now.records
  {
    hide Sort, Within, Without;
    forall n
      ensures n in AddedNames(was, now) <==> n in now.records && n !in was.records
      ensures n in RemovedNames(was, now) <==> n in was.records && n !in now.records
      ensures n in CommonNames(was, now) <==> n in was.records && n in now.records
    {
      SelectionMembers(now.names, was.records.Keys, n);
      SelectionMembers(was.names, now.records.Keys, n);
      SortedMembers(Without(now.names, was.records.Keys), n);
      SortedMembers(Without(was.names, now.records.Keys), n);
      SortedMembers(Within(now.names, was.records.Keys), n);
      assert n in now.records <==> n in Elements(now.names);
      assert n in was.records <==> n in Elements(was.names);
    }
  }
}
