/** The accounting of two archives spelled out on the rows they parse to. */
module RecordRows {
  import opened ByteStrings
  import opened Sorting
  import opened Folds
  import opened Newc
  import opened Initrd
  import opened RecordAccounting

  /** A record before the trailer has this name. */
  predicate Has(rows: seq<Row>, name: Bytes) {
    exists k :: 0 <= k < |rows| - 1 && rows[k].name == name
  }

  /** Row `j` of the later archive has a name that no earlier record has. */
  predicate New(earlier: seq<Row>, later: seq<Row>, j: nat)
    requires j < |later|
  {
    !Has(earlier, later[j].name)
  }

  /** A total over the new ones among the first `n` rows, given where each row starts. */
  function OverNew(earlier: seq<Row>, later: seq<Row>, n: nat, weight: (nat, Row) -> int): int
    requires n <= |later|
  {
    if n == 0 then 0
    else
      var start := if n == 1 then 0 else later[n - 2].dataEnd;
      OverNew(earlier, later, n - 1, weight) + if New(earlier, later, n - 1) then weight(start, later[n - 1]) else 0
  }

  function CountBelow(ino: int): (nat, Row) -> int { (start: nat, row: Row) => if row.ino < ino then 1 else 0 }
  function CountBytes(): (nat, Row) -> int { (start: nat, row: Row) => row.dataEnd - start }

  /** Equal in everything but the number and the bytes occupied. */
  predicate SameRecord(a: Row, b: Row, h: Bytes -> Bytes) {
    && a.mode == b.mode && a.uid == b.uid && a.gid == b.gid && a.nlink == b.nlink && a.mtime == b.mtime
    && a.filesize == b.filesize && h(a.data) == h(b.data)
  }

  /** Octal 04xxxx with these permissions, owned by root, without content. */
  predicate NewDirectory(row: Row, mode: nat) {
    row.mode % 65536 / 4096 == 4 && row.mode % 4096 == mode && row.uid == 0 && row.gid == 0 && row.filesize == 0
  }

  /** Every earlier record is still there. */
  predicate AllKept(earlier: seq<Row>, later: seq<Row>) {
    forall i :: 0 <= i < |earlier| - 1 ==> Has(later, earlier[i].name)
  }

  /** A record of both archives is the same, renumbered by the new records before it. */
  predicate Renumbered(earlier: seq<Row>, later: seq<Row>, i: nat, j: nat, h: Bytes -> Bytes)
    requires i < |earlier| && j < |later|
  {
    && SameRecord(earlier[i], later[j], h)
    && later[j].ino - earlier[i].ino == OverNew(earlier, later, |later| - 1, CountBelow(later[j].ino))
  }

  /** The new records are the wanted directories. */
  predicate NewAreWanted(earlier: seq<Row>, later: seq<Row>, wanted: map<Bytes, nat>) {
    && (forall w :: w in wanted ==> Has(later, w))
    && (forall j :: 0 <= j < |later| - 1 ==> (New(earlier, later, j) <==> later[j].name in wanted))
    && (forall j :: 0 <= j < |later| - 1 && later[j].name in wanted ==> NewDirectory(later[j], wanted[later[j].name]))
  }

  /** The whole difference between the archives is the wanted directories. */
  predicate Explained(earlier: seq<Row>, later: seq<Row>, wanted: map<Bytes, nat>, h: Bytes -> Bytes)
    requires earlier != [] && later != []
  {
    && AllKept(earlier, later)
    && (forall i: nat, j: nat :: i < |earlier| - 1 && j < |later| - 1 && earlier[i].name == later[j].name ==>
          Renumbered(earlier, later, i, j, h))
    && NewAreWanted(earlier, later, wanted)
    && later[|later| - 1].dataEnd - earlier[|earlier| - 1].dataEnd == OverNew(earlier, later, |later| - 1, CountBytes())
  }

  /* ----- an index and its rows ----- */

  lemma RowIndexed(ix: Index, rows: seq<Row>, h: Bytes -> Bytes, k: nat)
    requires Indexes(ix, rows, h) && k < |rows| - 1
    ensures k < |ix.names| && ix.names[k] == rows[k].name && rows[k].name in ix.records
    ensures ix.records[rows[k].name] == RecOf(rows, k, h)
  {
    hide RecOf;
    assert ix.names[k] in ix.records;
  }

  lemma IndexedRow(ix: Index, rows: seq<Row>, h: Bytes -> Bytes, n: Bytes) returns (k: nat)
    requires Indexes(ix, rows, h) && n in ix.records
    ensures k < |rows| - 1 && rows[k].name == n && ix.records[n] == RecOf(rows, k, h)
  {
    hide RecOf;
    assert n in Elements(ix.names);
    k :| 0 <= k < |ix.names| && ix.names[k] == n;
  }

  lemma NewIndexed(was: Index, earlier: seq<Row>, later: seq<Row>, h: Bytes -> Bytes, j: nat)
    requires Indexes(was, earlier, h) && j < |later|
    ensures New(earlier, later, j) <==> later[j].name !in was.records
  {
    hide Indexes, RecOf;
    if later[j].name in was.records {
      var k := IndexedRow(was, earlier, h, later[j].name);
    }
    forall i: nat | i < |earlier| - 1 ensures earlier[i].name in was.records { RowIndexed(was, earlier, h, i); }
  }

  /** A sum over the added names is a total over the new rows. */
  lemma {:induction false} NewPrefix(was: Index, now: Index, earlier: seq<Row>, later: seq<Row>, h: Bytes -> Bytes,
                                     n: nat, f: Bytes -> int, weight: (nat, Row) -> int)
    requires Indexes(was, earlier, h) && Indexes(now, later, h) && n < |later|
    requires forall k: nat :: k < |later| - 1 ==> f(later[k].name) == weight(StartOf(later, k, 0), later[k])
    ensures n <= |now.names| && Sum(Without(now.names[..n], was.records.Keys), f) == OverNew(earlier, later, n, weight)
    decreases n
  {
    hide Sum, Indexes, New, Without, OverNew, StartOf;
    IndexedLength(now, later, h);
    OverNewStep(earlier, later, n, weight);
    if n == 0 {
      NothingWithout(now.names[..0], was.records.Keys, f);
    } else {
      NewPrefix(was, now, earlier, later, h, n - 1, f, weight);
      RowIndexed(now, later, h, n - 1);
      NewIndexed(was, earlier, later, h, n - 1);
      assert f(later[n - 1].name) == weight(StartOf(later, n - 1, 0), later[n - 1]);
      SumWithoutNext(now.names, was.records.Keys, n - 1, f);
    }
  }

  lemma OverNewStep(earlier: seq<Row>, later: seq<Row>, n: nat, weight: (nat, Row) -> int)
    requires n <= |later|
    ensures n == 0 ==> OverNew(earlier, later, n, weight) == 0
    ensures n > 0 ==>
      OverNew(earlier, later, n, weight) == OverNew(earlier, later, n - 1, weight)
        + if New(earlier, later, n - 1) then weight(StartOf(later, n - 1, 0), later[n - 1]) else 0
  {
    hide New;
  }

  lemma SumWithoutNext(s: seq<Bytes>, drop: set<Bytes>, k: nat, f: Bytes -> int)
    requires k < |s|
    ensures Sum(Without(s[..k + 1], drop), f) == Sum(Without(s[..k], drop), f) + if s[k] in drop then 0 else f(s[k])
  {
    hide Sum, Without;
    assert s[..k + 1] == s[..k] + [s[k]];
    WithoutConcat(s[..k], [s[k]], drop);
    OneWithout(s[k], drop);
    var head := Without(s[..k], drop);
    SumSnoc(head, s[k], f);
    assert head + [] == head;
  }

  lemma IndexedLength(ix: Index, rows: seq<Row>, h: Bytes -> Bytes)
    requires Indexes(ix, rows, h)
    ensures rows != [] && |ix.names| == |rows| - 1 && WellFormed(ix) && ix.total == rows[|rows| - 1].dataEnd
  {
  }

  lemma NothingWithout(s: seq<Bytes>, drop: set<Bytes>, f: Bytes -> int)
    requires s == []
    ensures Sum(Without(s, drop), f) == 0
  {
  }

  lemma OneWithout(x: Bytes, drop: set<Bytes>)
    ensures Without([x], drop) == if x in drop then [] else [x]
  {
    assert [x][1..] == [];
  }

  lemma NewSum(was: Index, now: Index, earlier: seq<Row>, later: seq<Row>, h: Bytes -> Bytes,
               f: Bytes -> int, weight: (nat, Row) -> int)
    requires Indexes(was, earlier, h) && Indexes(now, later, h)
    requires forall k: nat :: k < |later| - 1 ==> f(later[k].name) == weight(StartOf(later, k, 0), later[k])
    ensures Sum(AddedNames(was, now), f) == OverNew(earlier, later, |later| - 1, weight)
  {
    hide Sum, Indexes, Without, Sort, OverNew;
    IndexedLength(now, later, h);
    assert now.names[..|later| - 1] == now.names;
    var novel := Without(now.names, was.records.Keys);
    SortSorts(novel);
    SumPermutation(AddedNames(was, now), novel, f);
    NewPrefix(was, now, earlier, later, h, |later| - 1, f, weight);
  }

  lemma CountedBelow(was: Index, now: Index, earlier: seq<Row>, later: seq<Row>, h: Bytes -> Bytes, ino: int)
    requires Indexes(was, earlier, h) && Indexes(now, later, h)
    ensures Sum(AddedNames(was, now), Below(now, ino)) == OverNew(earlier, later, |later| - 1, CountBelow(ino))
  {
    hide Sum, Indexes, AddedNames, OverNew;
    IndexedLength(now, later, h);
    forall k: nat | k < |later| - 1
      ensures Below(now, ino)(later[k].name) == CountBelow(ino)(StartOf(later, k, 0), later[k])
    {
      RowIndexed(now, later, h, k);
    }
    NewSum(was, now, earlier, later, h, Below(now, ino), CountBelow(ino));
  }

  lemma CountedBytes(was: Index, now: Index, earlier: seq<Row>, later: seq<Row>, h: Bytes -> Bytes)
    requires Indexes(was, earlier, h) && Indexes(now, later, h)
    ensures AddedBytes(was, now) == OverNew(earlier, later, |later| - 1, CountBytes())
  {
    hide Sum, Indexes, AddedNames, OverNew;
    IndexedLength(now, later, h);
    forall k: nat | k < |later| - 1
      ensures SpanIn(now)(later[k].name) == CountBytes()(StartOf(later, k, 0), later[k])
    {
      RowIndexed(now, later, h, k);
    }
    NewSum(was, now, earlier, later, h, SpanIn(now), CountBytes());
  }

  /* ----- the conditions, one by one ----- */

  lemma KeptRows(was: Index, now: Index, earlier: seq<Row>, later: seq<Row>, h: Bytes -> Bytes)
    requires Indexes(was, earlier, h) && Indexes(now, later, h)
    ensures RemovedNames(was, now) == [] <==> AllKept(earlier, later)
  {
    hide Indexes, RecOf, RemovedNames, AddedNames, CommonNames;
    IndexedLength(was, earlier, h);
    IndexedLength(now, later, h);
    AccountNames(was, now);
    if RemovedNames(was, now) == [] {
      forall i | 0 <= i < |earlier| - 1 ensures Has(later, earlier[i].name) {
        RowIndexed(was, earlier, h, i);
        assert earlier[i].name in now.records;
        var j := IndexedRow(now, later, h, earlier[i].name);
      }
    }
    if AllKept(earlier, later) {
      forall n | n in was.records ensures n in now.records {
        var i := IndexedRow(was, earlier, h, n);
        assert Has(later, earlier[i].name);
        var j :| 0 <= j < |later| - 1 && later[j].name == earlier[i].name;
        RowIndexed(now, later, h, j);
      }
      NoMembers(RemovedNames(was, now));
    }
  }

  lemma NoMembers(s: seq<Bytes>)
    ensures s == [] <==> forall n :: n !in s
  {
    if s != [] { assert s[0] in s; }
  }

  lemma SharedRow(was: Index, now: Index, earlier: seq<Row>, later: seq<Row>, h: Bytes -> Bytes, i: nat, j: nat)
    requires Indexes(was, earlier, h) && Indexes(now, later, h)
    requires i < |earlier| - 1 && j < |later| - 1 && earlier[i].name == later[j].name
    ensures var n := later[j].name;
      && n in was.records && n in now.records
      && (Renumbered(earlier, later, i, j, h) <==>
            SameFields(was.records[n], now.records[n]) && ShiftExplained(was, now, n))
  {
    hide Indexes, Sum, AddedNames, OverNew;
    RowIndexed(was, earlier, h, i);
    RowIndexed(now, later, h, j);
    CountedBelow(was, now, earlier, later, h, later[j].ino);
  }

  /** Every record of both archives is renumbered exactly when the indexes agree on it. */
  lemma SharedRows(was: Index, now: Index, earlier: seq<Row>, later: seq<Row>, h: Bytes -> Bytes)
    requires Indexes(was, earlier, h) && Indexes(now, later, h)
    ensures FieldsKept(was, now) && Consistent(was, now) <==>
      forall i: nat, j: nat :: i < |earlier| - 1 && j < |later| - 1 && earlier[i].name == later[j].name ==>
        Renumbered(earlier, later, i, j, h)
  {
    hide Indexes, RecOf, Renumbered, SameFields, ShiftExplained, AddedNames, CommonNames, RemovedNames;
    IndexedLength(was, earlier, h);
    IndexedLength(now, later, h);
    AccountNames(was, now);
    forall i: nat, j: nat | i < |earlier| - 1 && j < |later| - 1 && earlier[i].name == later[j].name
      ensures var n := later[j].name;
        && n in was.records && n in now.records
        && (Renumbered(earlier, later, i, j, h) <==>
              SameFields(was.records[n], now.records[n]) && ShiftExplained(was, now, n))
    {
      SharedRow(was, now, earlier, later, h, i, j);
    }
    forall n | n in was.records && n in now.records
      ensures exists i: nat, j: nat :: i < |earlier| - 1 && j < |later| - 1 && earlier[i].name == n && later[j].name == n
    {
      var i := IndexedRow(was, earlier, h, n);
      var j := IndexedRow(now, later, h, n);
    }
  }

  lemma NewRows(was: Index, now: Index, earlier: seq<Row>, later: seq<Row>, wanted: map<Bytes, nat>, h: Bytes -> Bytes)
    requires Indexes(was, earlier, h) && Indexes(now, later, h)
    ensures AddedAsRequired(was, now, wanted) <==> NewAreWanted(earlier, later, wanted)
  {
    hide Indexes, RecOf, AddedNames, CommonNames, RemovedNames, NewDirectory, RequiredDirectory, New;
    IndexedLength(was, earlier, h);
    IndexedLength(now, later, h);
    AccountNames(was, now);
    forall j: nat | j < |later| - 1
      ensures later[j].name in now.records && (New(earlier, later, j) <==> later[j].name !in was.records)
      ensures forall mode :: NewDirectory(later[j], mode) <==> RequiredDirectory(now.records[later[j].name], mode)
    {
      RowIndexed(now, later, h, j);
      NewIndexed(was, earlier, later, h, j);
      DirectoryRow(later, j, h);
    }
    forall n | n in now.records ensures Has(later, n) {
      var j := IndexedRow(now, later, h, n);
    }
    assert forall n :: n in Elements(AddedNames(was, now)) <==> n in AddedNames(was, now);
  }

  lemma DirectoryRow(rows: seq<Row>, j: nat, h: Bytes -> Bytes)
    requires j < |rows|
    ensures forall mode :: NewDirectory(rows[j], mode) <==> RequiredDirectory(RecOf(rows, j, h), mode)
  {
    var m := rows[j].mode;
    assert m % 65536 / 4096 == m / 4096 % 16;
  }

  /** For any two archives that index, the accounting has no objection if and only if the
      difference between their rows is explained by the wanted directories. */
  lemma AccountedExact(was: Index, now: Index, earlier: seq<Row>, later: seq<Row>, wanted: map<Bytes, nat>, h: Bytes -> Bytes)
    requires Indexes(was, earlier, h) && Indexes(now, later, h)
    ensures Accounted(was, now, wanted) <==> Explained(earlier, later, wanted, h)
  {
    hide Indexes, RemovedNames, AllKept, FieldsKept, Consistent, Renumbered, AddedAsRequired, NewAreWanted, AddedBytes, OverNew;
    IndexedLength(was, earlier, h);
    IndexedLength(now, later, h);
    KeptRows(was, now, earlier, later, h);
    SharedRows(was, now, earlier, later, h);
    NewRows(was, now, earlier, later, wanted, h);
    CountedBytes(was, now, earlier, later, h);
  }

  /** Compare two archives. */
  method RecordAccounts(before: Bytes, after: Bytes, wanted: map<Bytes, nat>, h: Bytes -> Bytes)
    returns (r: Result<Report>, ghost was: Index, ghost now: Index)
    ensures r.Ok? <==> && Parsed(before).Ok? && Parsed(before).value != [] && Distinct(BodyNames(Parsed(before).value))
                       && Parsed(after).Ok? && Parsed(after).value != [] && Distinct(BodyNames(Parsed(after).value))
    ensures r.Ok? ==> Indexes(was, Parsed(before).value, h) && Indexes(now, Parsed(after).value, h)
    ensures r.Ok? ==> (r.value.ok <==> Accounted(was, now, wanted))
    ensures r.Ok? ==> (r.value.ok <==> Explained(Parsed(before).value, Parsed(after).value, wanted, h))
  {
    hide ParseFrom, Accounted, Distinct, Explained, Indexes;
    was, now := Index([], map[], 0), Index([], map[], 0);
    var first := ArchiveRecords(before, h);
    if first.Fail? { return Fail, was, now; }
    var second := ArchiveRecords(after, h);
    if second.Fail? { return Fail, was, now; }
    was, now := first.value, second.value;
    IndexedLength(was, Parsed(before).value, h);
    IndexedLength(now, Parsed(after).value, h);
    var report := Account(first.value, second.value, wanted);
    AccountedExact(was, now, Parsed(before).value, Parsed(after).value, wanted, h);
    return Ok(report), was, now;
  }
}
