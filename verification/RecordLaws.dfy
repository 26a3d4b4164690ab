/** What the record accounting actually establishes: when the renumbering check is
    satisfied, when the byte count balances, and what a clean report means for two
    archives the writer produced. */
module RecordLaws {
  import opened ByteStrings
  import opened Paths
  import opened Sorting
  import opened Folds
  import opened Newc
  import opened Initrd
  import opened RecordAccounting

  /* ----- renumbering ----- */

  /** Numbered by position, from one. */
  predicate Positional(ix: Index) {
    forall k :: 0 <= k < |ix.names| ==> ix.names[k] in ix.records && ix.records[ix.names[k]].ino == k + 1
  }

  predicate NothingRemoved(was: Index, now: Index) { was.records.Keys <= now.records.Keys }

  /** With positional numbering the insertions before a record are the positions before
      it that hold a new name. */
  lemma InsertionsBefore(was: Index, now: Index, j: nat)
    requires WellFormed(was) && WellFormed(now) && Positional(now) && j < |now.names|
    ensures Sum(AddedNames(was, now), Below(now, j + 1)) == j - |Within(now.names[..j], was.records.Keys)|
  {
    hide Sum, Within, Without, Sort, WellFormed;
    var keep := was.records.Keys;
    var below := Below(now, j + 1);
    var novel := Without(now.names, keep);
    SortSorts(novel);
    SumPermutation(AddedNames(was, now), novel, below);
    assert now.names == now.names[..j] + now.names[j..];
    WithoutConcat(now.names[..j], now.names[j..], keep);
    SumConcat(Without(now.names[..j], keep), Without(now.names[j..], keep), below);
    forall i | 0 <= i < j ensures below(now.names[..j][i]) == 1 { assert now.names[..j][i] == now.names[i]; }
    forall i | 0 <= i < |now.names| - j ensures below(now.names[j..][i]) == 0 { assert now.names[j..][i] == now.names[j + i]; }
    SumConstant(now.names[..j], keep, below, 1);
    SumConstant(now.names[j..], keep, below, 0);
    SelectionSplits(now.names[..j], keep, below);
  }

  lemma {:induction false} SumConstant<T>(s: seq<T>, drop: set<T>, f: T -> int, c: int)
    requires c == 0 || c == 1
    requires forall i :: 0 <= i < |s| ==> f(s[i]) == c
    ensures Sum(Without(s, drop), f) == c * |Without(s, drop)|
    decreases |s|
  {
    if s != [] {
      SumConstant(s[1..], drop, f, c);
      var rest := Without(s[1..], drop);
      assert [] + rest == rest && ([s[0]] + rest)[1..] == rest;
      assert c * (1 + |rest|) == c + c * |rest|;
    }
  }

  /** Where a kept record sits in the earlier archive, against how many kept records
      precede it in the later one. */
  lemma ShiftByPosition(was: Index, now: Index, i: nat, j: nat)
    requires WellFormed(was) && WellFormed(now) && Positional(was) && Positional(now)
    requires i < |was.names| && j < |now.names| && was.names[i] == now.names[j]
    ensures ShiftExplained(was, now, now.names[j]) <==> i == |Within(now.names[..j], was.records.Keys)|
  {
    hide Sum, Within, AddedNames, WellFormed;
    InsertionsBefore(was, now, j);
  }

  /** The renumbering check is exact: every shared record moved by the insertions before
      it if and only if deleting the added records from the later archive leaves the
      earlier archive's names, in their order. */
  lemma RenumberingExact(was: Index, now: Index)
    requires WellFormed(was) && WellFormed(now) && Positional(was) && Positional(now)
    requires NothingRemoved(was, now)
    ensures Consistent(was, now) <==> Within(now.names, was.records.Keys) == was.names
  {
    if Consistent(was, now) { ConsistentKeepsOrder(was, now); }
    if Within(now.names, was.records.Keys) == was.names { KeptOrderIsConsistent(was, now); }
  }

  lemma NamePosition(ix: Index, name: Bytes) returns (k: nat)
    requires WellFormed(ix) && name in ix.records
    ensures k < |ix.names| && ix.names[k] == name
  {
    assert name in Elements(ix.names);
    k :| 0 <= k < |ix.names| && ix.names[k] == name;
  }

  lemma KeptOrderIsConsistent(was: Index, now: Index)
    requires WellFormed(was) && WellFormed(now) && Positional(was) && Positional(now)
    requires Within(now.names, was.records.Keys) == was.names
    ensures Consistent(was, now)
  {
    hide Within, AddedNames, CommonNames, RemovedNames, WellFormed, Positional, ShiftExplained;
    AccountNames(was, now);
    forall n | n in CommonNames(was, now) ensures ShiftExplained(was, now, n) {
      var j := NamePosition(now, n);
      SelectionPosition(now.names, was.records.Keys, j);
      ShiftByPosition(was, now, |Within(now.names[..j], was.records.Keys)|, j);
    }
  }

  lemma KeptPermutation(was: Index, now: Index)
    requires WellFormed(was) && WellFormed(now) && NothingRemoved(was, now)
    ensures multiset(Within(now.names, was.records.Keys)) == multiset(was.names)
    ensures |Within(now.names, was.records.Keys)| == |was.names|
  {
    hide Within, Distinct;
    var kept := Within(now.names, was.records.Keys);
    SelectionDistinct(now.names, was.records.Keys);
    forall x ensures x in kept <==> x in was.names {
      SelectionMembers(now.names, was.records.Keys, x);
      assert x in was.records <==> x in Elements(was.names);
      assert x in now.records <==> x in Elements(now.names);
    }
    SameElements(kept, was.names);
  }

  lemma ConsistentKeepsOrder(was: Index, now: Index)
    requires WellFormed(was) && WellFormed(now) && Positional(was) && Positional(now)
    requires NothingRemoved(was, now) && Consistent(was, now)
    ensures Within(now.names, was.records.Keys) == was.names
  {
    hide Within, AddedNames, CommonNames, RemovedNames, WellFormed, Positional, ShiftExplained;
    var kept := Within(now.names, was.records.Keys);
    KeptPermutation(was, now);
    AccountNames(was, now);
    forall q | 0 <= q < |kept| ensures kept[q] == was.names[q] {
      var j := SelectionSource(now.names, was.records.Keys, q);
      var i := NamePosition(was, kept[q]);
      ShiftByPosition(was, now, i, j);
      assert kept[q] in CommonNames(was, now);
    }
  }

  /** Archives sorted by name never fail the renumbering check when nothing is removed. */
  lemma SortedNeverInconsistent(was: Index, now: Index)
    requires WellFormed(was) && WellFormed(now) && Positional(was) && Positional(now)
    requires NothingRemoved(was, now) && Increasing(was.names) && Increasing(now.names)
    ensures Consistent(was, now)
  {
    hide Within, Increasing, Consistent, Positional;
    var kept := Within(now.names, was.records.Keys);
    SelectionIncreasing(now.names, was.records.Keys);
    forall x ensures x in kept <==> x in was.names {
      SelectionMembers(now.names, was.records.Keys, x);
      assert x in was.records <==> x in Elements(was.names);
      assert x in now.records <==> x in Elements(now.names);
    }
    IncreasingUnique(kept, was.names);
    RenumberingExact(was, now);
  }

  lemma IncreasingCons(x: Bytes, s: seq<Bytes>)
    requires Increasing(s) && forall k :: 0 <= k < |s| ==> Less(x, s[k])
    ensures Increasing([x] + s)
  {
    hide Less;
  }

  lemma {:induction false} SelectionIncreasing(s: seq<Bytes>, keep: set<Bytes>)
    requires Increasing(s)
    ensures Increasing(Within(s, keep))
    decreases |s|
  {
    hide Less;
    if s != [] {
      var rest := Within(s[1..], keep);
      SelectionIncreasing(s[1..], keep);
      assert [] + rest == rest;
      forall k | 0 <= k < |rest| ensures Less(s[0], rest[k]) {
        SelectionMembers(s[1..], keep, rest[k]);
        var i :| 0 <= i < |s[1..]| && s[1..][i] == rest[k];
        assert s[i + 1] == rest[k];
      }
      IncreasingCons(s[0], rest);
    }
  }

  /* ----- bytes ----- */

  function TrailerSpan(rows: seq<Row>): int
    requires rows != []
  {
    rows[|rows| - 1].dataEnd - StartOf(rows, |rows| - 1, 0)
  }

  lemma SpanAt(ix: Index, rows: seq<Row>, h: Bytes -> Bytes, k: nat)
    requires Indexes(ix, rows, h) && k < |rows| - 1
    ensures k < |ix.names| && SpanIn(ix)(ix.names[k]) == rows[k].dataEnd - StartOf(rows, k, 0)
  {
    hide WellFormed;
  }

  lemma {:induction false} SpansAddUp(ix: Index, rows: seq<Row>, h: Bytes -> Bytes, k: nat)
    requires Indexes(ix, rows, h) && k < |rows|
    ensures k <= |ix.names| && Sum(ix.names[..k], SpanIn(ix)) == StartOf(rows, k, 0)
    decreases k
  {
    hide WellFormed, RecOf, SpanIn;
    if k == 0 {
      assert ix.names[..k] == [];
    } else {
      SpansAddUp(ix, rows, h, k - 1);
      SpanAt(ix, rows, h, k - 1);
      SumSnoc(ix.names[..k - 1], ix.names[k - 1], SpanIn(ix));
      assert ix.names[..k] == ix.names[..k - 1] + [ix.names[k - 1]];
    }
  }

  lemma TotalIsSum(ix: Index, rows: seq<Row>, h: Bytes -> Bytes)
    requires Indexes(ix, rows, h)
    ensures ix.total == Sum(ix.names, SpanIn(ix)) + TrailerSpan(rows)
  {
    hide Sum, RecOf, SpanIn, WellFormed;
    SpansAddUp(ix, rows, h, |rows| - 1);
    assert ix.names[..|rows| - 1] == ix.names;
  }

  /** A record's span follows from its name and size. */
  lemma IndexedSpan(raw: Bytes, ix: Index, h: Bytes -> Bytes, n: Bytes)
    requires Parsed(raw).Ok? && Indexes(ix, Parsed(raw).value, h) && n in ix.records
    ensures ix.records[n].span == Span(|n|, ix.records[n].filesize)
  {
    hide ParseFrom, ReadRecord, Span;
    ParseNeverTruncates(raw);
    var k := NamePosition(ix, n);
  }

  /** For any two archives that parse, with nothing removed and no size changed, the
      growth equals the added records exactly when the two trailers span the same. */
  lemma ByteAccountingExact(before: Bytes, after: Bytes, was: Index, now: Index, h: Bytes -> Bytes)
    requires Parsed(before).Ok? && Indexes(was, Parsed(before).value, h)
    requires Parsed(after).Ok? && Indexes(now, Parsed(after).value, h)
    requires NothingRemoved(was, now)
    requires forall n :: n in was.records ==> was.records[n].filesize == now.records[n].filesize
    ensures Balanced(was, now) <==> TrailerSpan(Parsed(before).value) == TrailerSpan(Parsed(after).value)
  {
    hide Parsed, Sum, Within, Without, Sort, TrailerSpan, RecOf, Distinct, Span;
    var keep := was.records.Keys;
    TotalIsSum(was, Parsed(before).value, h);
    TotalIsSum(now, Parsed(after).value, h);
    SelectionSplits(now.names, keep, SpanIn(now));
    SortSorts(Without(now.names, keep));
    SumPermutation(AddedNames(was, now), Without(now.names, keep), SpanIn(now));
    KeptPermutation(was, now);
    SumPermutation(Within(now.names, keep), was.names, SpanIn(now));
    forall i | 0 <= i < |was.names| ensures SpanIn(now)(was.names[i]) == SpanIn(was)(was.names[i]) {
      var n := was.names[i];
      IndexedSpan(before, was, h, n);
      IndexedSpan(after, now, h, n);
    }
    SumEqual(was.names, SpanIn(now), SpanIn(was));
  }

  /* ----- archives the writer produced ----- */

  predicate RecordsEntry(r: Rec, e: Entry, ino: nat, h: Bytes -> Bytes) {
    r.ino == ino && r.mode == e.mode && r.uid == 0 && r.gid == 0 && r.mtime == 0
    && r.nlink == LinkCount(e.kind) && r.filesize == |e.data| && r.sha256 == h(e.data)
  }

  /** The index of a written layer: its names in order, one record per entry. */
  predicate IndexesLayer(ix: Index, entries: seq<Entry>, h: Bytes -> Bytes) {
    && WellFormed(ix) && ix.names == Names(entries)
    && forall k :: 0 <= k < |entries| ==>
         entries[k].name in ix.records && RecordsEntry(ix.records[entries[k].name], entries[k], k + 1, h)
  }

  lemma {:induction false} WrittenTrailerSpan(entries: seq<Entry>, ino: nat, start: nat)
    requires TRAILER !in Names(entries)
    ensures var rows := WrittenRows(entries, ino, start);
      rows[|rows| - 1].dataEnd - StartOf(rows, |rows| - 1, start) == Span(10, 0)
    decreases |entries|
  {
    if entries != [] {
      var tail := entries[1..];
      assert Names(entries) == [entries[0].name] + Names(tail);
      var rows := WrittenRows(entries, ino, start);
      var rest := WrittenRows(tail, ino + 1, rows[0].dataEnd);
      assert entries[0].name != TRAILER by { assert Names(entries)[0] == entries[0].name; }
      assert rows == [rows[0]] + rest;
      WrittenTrailerSpan(tail, ino + 1, rows[0].dataEnd);
    }
  }

  /** What reading back a written layer gives the accounting. */
  lemma WrittenIndex(entries: seq<Entry>, ix: Index, h: Bytes -> Bytes)
    requires Archive(entries).Ok? && TRAILER !in Names(entries)
    requires Parsed(Archive(entries).value).Ok? && Indexes(ix, Parsed(Archive(entries).value).value, h)
    ensures IndexesLayer(ix, entries, h)
    ensures TrailerSpan(Parsed(Archive(entries).value).value) == Span(10, 0)
  {
    hide ArchiveFrom, ParseFrom, Span, WellFormed, WrittenRows;
    var raw := Archive(entries).value;
    RoundTrip(entries);
    ParseOfArchive([], entries, 1);
    assert [] + raw == raw;
    WrittenTrailerSpan(entries, 1, 0);
    RowsIndexLayer(entries, ix, Parsed(raw).value, h);
  }

  lemma RowsIndexLayer(entries: seq<Entry>, ix: Index, rows: seq<Row>, h: Bytes -> Bytes)
    requires Indexes(ix, rows, h) && RowsMatch(rows, entries, 1)
    ensures IndexesLayer(ix, entries, h)
  {
    hide WellFormed;
    assert ix.names == Names(entries);
    forall k | 0 <= k < |entries|
      ensures entries[k].name in ix.records && RecordsEntry(ix.records[entries[k].name], entries[k], k + 1, h)
    {
      assert RowMatches(rows[k], entries[k], 1 + k);
      assert ix.names[k] == entries[k].name;
    }
  }

  function Kept(entries: seq<Entry>, keep: set<Bytes>): seq<Entry> {
    if entries == [] then []
    else (if entries[0].name in keep then [entries[0]] else []) + Kept(entries[1..], keep)
  }

  lemma NamesConcat(a: seq<Entry>, b: seq<Entry>)
    ensures Names(a + b) == Names(a) + Names(b)
  {
  }

  lemma {:induction false} KeptNames(entries: seq<Entry>, keep: set<Bytes>)
    ensures Names(Kept(entries, keep)) == Within(Names(entries), keep)
    decreases |entries|
  {
    hide Names;
    if entries != [] {
      var e, tail := entries[0], entries[1..];
      KeptNames(tail, keep);
      NamesConcat([e], tail);
      NamesConcat(if e.name in keep then [e] else [], Kept(tail, keep));
      assert entries == [e] + tail;
      assert Names([e]) == [e.name];
      assert Names(entries)[1..] == Names(tail);
    }
  }

  lemma {:induction false} KeptMembers(entries: seq<Entry>, keep: set<Bytes>, e: Entry)
    ensures e in Kept(entries, keep) <==> e in entries && e.name in keep
    decreases |entries|
  {
    if entries != [] {
      KeptMembers(entries[1..], keep, e);
      assert entries == [entries[0]] + entries[1..];
    }
  }

  /** The later layer is the earlier one plus exactly the required directories, each with
      the permissions required of it. */
  predicate Extends(a: seq<Entry>, b: seq<Entry>, wanted: map<Bytes, nat>) {
    && Kept(b, Elements(Names(a))) == a
    && (set n | n in Names(b) && n !in Names(a)) == wanted.Keys
    && forall i :: 0 <= i < |b| && b[i].name in wanted ==>
         b[i].kind.Directory? && b[i].mode % 0x1000 == wanted[b[i].name]
  }

  predicate CollisionFree(h: Bytes -> Bytes, a: seq<Entry>, b: seq<Entry>) {
    forall i, j :: 0 <= i < |a| && 0 <= j < |b| && h(a[i].data) == h(b[j].data) ==> a[i].data == b[j].data
  }

  lemma LayerNames(ix: Index, entries: seq<Entry>, h: Bytes -> Bytes)
    requires IndexesLayer(ix, entries, h) && GoodLayer(entries)
    ensures ix.records.Keys == Elements(Names(entries)) && Positional(ix) && Increasing(ix.names)
  {
    hide Increasing, Distinct;
    forall k | 0 <= k < |ix.names|
      ensures ix.names[k] in ix.records && ix.records[ix.names[k]].ino == k + 1
    {
      assert ix.names[k] == entries[k].name;
    }
  }

  lemma SameName(entries: seq<Entry>, i: nat, j: nat)
    requires GoodLayer(entries) && i < |entries| && j < |entries| && entries[i].name == entries[j].name
    ensures i == j
  {
    IncreasingDistinct(Names(entries));
    assert Names(entries)[i] == Names(entries)[j];
  }

  /** In sorted layers, containing every entry is the same as keeping them in order. */
  lemma KeptSubset(a: seq<Entry>, b: seq<Entry>)
    requires GoodLayer(a) && GoodLayer(b)
    ensures Kept(b, Elements(Names(a))) == a <==> forall e :: e in a ==> e in b
  {
    hide Kept, Increasing, Coherent, Normalized, Utf8, Within;
    var keep := Elements(Names(a));
    var kept := Kept(b, keep);
    if kept == a {
      forall e | e in a ensures e in b { KeptMembers(b, keep, e); }
    }
    if forall e :: e in a ==> e in b {
      KeptNames(b, keep);
      SubsetNames(a, b);
      assert |Names(kept)| == |kept| && |Names(a)| == |a|;
      forall k | 0 <= k < |a| ensures kept[k] == a[k] {
        assert Names(kept)[k] == Names(a)[k];
        KeptMembers(b, keep, kept[k]);
        assert a[k] in b;
        var i :| 0 <= i < |b| && b[i] == a[k];
        var j :| 0 <= j < |b| && b[j] == kept[k];
        SameName(b, i, j);
      }
    }
  }

  lemma SubsetNames(a: seq<Entry>, b: seq<Entry>)
    requires GoodLayer(a) && GoodLayer(b) && forall e :: e in a ==> e in b
    ensures Within(Names(b), Elements(Names(a))) == Names(a)
  {
    hide Increasing, Coherent, Normalized, Utf8, Within;
    var keep := Elements(Names(a));
    SelectionIncreasing(Names(b), keep);
    forall x ensures x in Within(Names(b), keep) <==> x in Names(a) {
      SelectionMembers(Names(b), keep, x);
      if x in Names(a) {
        var i :| 0 <= i < |a| && Names(a)[i] == x;
        assert a[i] in b;
        var j :| 0 <= j < |b| && b[j] == a[i];
        assert Names(b)[j] == x;
      }
    }
    IncreasingUnique(Within(Names(b), keep), Names(a));
  }

  /** An accounting with no findings keeps every earlier entry whole. */
  lemma AccountedKeeps(a: seq<Entry>, b: seq<Entry>, was: Index, now: Index, h: Bytes -> Bytes)
    requires GoodLayer(a) && GoodLayer(b) && CollisionFree(h, a, b)
    requires IndexesLayer(was, a, h) && IndexesLayer(now, b, h)
    requires NothingRemoved(was, now) && FieldsKept(was, now)
    ensures Kept(b, Elements(Names(a))) == a
  {
    hide Kept, GoodLayer, CollisionFree, WellFormed, FieldsKept;
    forall e | e in a ensures e in b {
      var i :| 0 <= i < |a| && a[i] == e;
      var j := NamePosition(now, e.name);
      assert now.names[j] == b[j].name;
      SameRecordSameEntry(a, b, was, now, h, i, j);
    }
    KeptSubset(a, b);
  }

  lemma SameRecordSameEntry(a: seq<Entry>, b: seq<Entry>, was: Index, now: Index, h: Bytes -> Bytes, i: nat, j: nat)
    requires GoodLayer(a) && GoodLayer(b) && CollisionFree(h, a, b)
    requires IndexesLayer(was, a, h) && IndexesLayer(now, b, h) && FieldsKept(was, now)
    requires i < |a| && j < |b| && a[i].name == b[j].name
    ensures a[i] == b[j]
  {
    hide Increasing, WellFormed, Normalized, Utf8, Coherent;
    assert RecordsEntry(was.records[a[i].name], a[i], i + 1, h);
    assert RecordsEntry(now.records[b[j].name], b[j], j + 1, h);
    assert SameFields(was.records[a[i].name], now.records[a[i].name]);
    CoherentDetermines(a[i], b[j]);
  }

  /** Keeping every earlier entry leaves every compared field alone. */
  lemma KeptFields(a: seq<Entry>, b: seq<Entry>, was: Index, now: Index, h: Bytes -> Bytes)
    requires GoodLayer(b) && IndexesLayer(was, a, h) && IndexesLayer(now, b, h)
    requires Kept(b, Elements(Names(a))) == a
    ensures NothingRemoved(was, now) && FieldsKept(was, now)
  {
    hide Kept, GoodLayer;
    forall n | n in was.records ensures n in now.records && SameFields(was.records[n], now.records[n]) {
      var i := NamePosition(was, n);
      assert was.names[i] == a[i].name;
      KeptMembers(b, Elements(Names(a)), a[i]);
      var j :| 0 <= j < |b| && b[j] == a[i];
    }
  }

  lemma AddedDirectories(b: seq<Entry>, now: Index, wanted: map<Bytes, nat>, h: Bytes -> Bytes)
    requires GoodLayer(b) && IndexesLayer(now, b, h)
    ensures (forall n :: n in wanted && n in now.records ==> RequiredDirectory(now.records[n], wanted[n])) <==>
            (forall i :: 0 <= i < |b| && b[i].name in wanted ==>
               b[i].kind.Directory? && b[i].mode % 0x1000 == wanted[b[i].name])
  {
    hide Increasing, Normalized, Utf8;
    forall i | 0 <= i < |b| && b[i].name in wanted
      ensures RequiredDirectory(now.records[b[i].name], wanted[b[i].name]) <==>
              b[i].kind.Directory? && b[i].mode % 0x1000 == wanted[b[i].name]
    {
      assert Coherent(b[i]) && RecordsEntry(now.records[b[i].name], b[i], i + 1, h);
    }
    forall n | n in wanted && n in now.records
      ensures exists i :: 0 <= i < |b| && b[i].name == n
    {
      var i := NamePosition(now, n);
      assert b[i].name == n;
    }
  }

  lemma AddedSet(a: seq<Entry>, b: seq<Entry>, was: Index, now: Index, h: Bytes -> Bytes)
    requires IndexesLayer(was, a, h) && IndexesLayer(now, b, h)
    ensures Elements(AddedNames(was, now)) == set n | n in Names(b) && n !in Names(a)
  {
    hide AddedNames, RemovedNames, CommonNames;
    AccountNames(was, now);
    forall n ensures n in was.records <==> n in Names(a) { assert n in was.records <==> n in Elements(was.names); }
    forall n ensures n in now.records <==> n in Names(b) { assert n in now.records <==> n in Elements(now.names); }
  }

  /** For two archives written from good layers, a report has no findings if and only if
      the later layer is the earlier one plus exactly the required directories: on such
      archives the renumbering and the byte count never add a finding of their own. */
  lemma CleanReportMeansExtension(a: seq<Entry>, b: seq<Entry>, was: Index, now: Index,
                                  wanted: map<Bytes, nat>, h: Bytes -> Bytes)
    requires GoodLayer(a) && GoodLayer(b) && CollisionFree(h, a, b)
    requires TRAILER !in Names(a) && TRAILER !in Names(b) && Archive(a).Ok? && Archive(b).Ok?
    requires Parsed(Archive(a).value).Ok? && Indexes(was, Parsed(Archive(a).value).value, h)
    requires Parsed(Archive(b).value).Ok? && Indexes(now, Parsed(Archive(b).value).value, h)
    ensures Accounted(was, now, wanted) <==> Extends(a, b, wanted)
  {
    hide Parsed, Archive, GoodLayer, CollisionFree, Kept, IndexesLayer, FieldsKept, Consistent, Balanced,
         RemovedNames, AddedNames, Elements, NothingRemoved, RecOf, AddedAsRequired, Extends;
    WrittenIndex(a, was, h);
    WrittenIndex(b, now, h);
    RemovedNone(was, now);
    AddedMeans(a, b, was, now, wanted, h);
    if NothingRemoved(was, now) && FieldsKept(was, now) {
      AccountedKeeps(a, b, was, now, h);
      NumbersAndBytes(a, b, was, now, h);
    }
    if Kept(b, Elements(Names(a))) == a { KeptFields(a, b, was, now, h); }
  }

  lemma AddedMeans(a: seq<Entry>, b: seq<Entry>, was: Index, now: Index, wanted: map<Bytes, nat>, h: Bytes -> Bytes)
    requires GoodLayer(b) && IndexesLayer(was, a, h) && IndexesLayer(now, b, h)
    ensures Extends(a, b, wanted) <==> Kept(b, Elements(Names(a))) == a && AddedAsRequired(was, now, wanted)
  {
    hide GoodLayer, Kept, IndexesLayer, AddedNames, Elements, RequiredDirectory;
    AddedSet(a, b, was, now, h);
    AddedDirectories(b, now, wanted, h);
  }

  lemma RemovedNone(was: Index, now: Index)
    requires WellFormed(was) && WellFormed(now)
    ensures RemovedNames(was, now) == [] <==> NothingRemoved(was, now)
  {
    hide RemovedNames, AddedNames, CommonNames, WellFormed;
    AccountNames(was, now);
    var removed := RemovedNames(was, now);
    if removed != [] { assert removed[0] in removed; }
  }

  lemma NumbersAndBytes(a: seq<Entry>, b: seq<Entry>, was: Index, now: Index, h: Bytes -> Bytes)
    requires GoodLayer(a) && GoodLayer(b) && Archive(a).Ok? && Archive(b).Ok?
    requires Parsed(Archive(a).value).Ok? && Indexes(was, Parsed(Archive(a).value).value, h)
    requires Parsed(Archive(b).value).Ok? && Indexes(now, Parsed(Archive(b).value).value, h)
    requires TRAILER !in Names(a) && TRAILER !in Names(b)
    requires NothingRemoved(was, now) && FieldsKept(was, now)
    ensures Consistent(was, now) && Balanced(was, now)
  {
    hide Parsed, Archive, GoodLayer, IndexesLayer, Consistent, Balanced, RecOf, TrailerSpan, Increasing, Positional;
    WrittenIndex(a, was, h);
    WrittenIndex(b, now, h);
    LayerNames(was, a, h);
    LayerNames(now, b, h);
    SortedNeverInconsistent(was, now);
    assert forall n :: n in was.records ==> SameFields(was.records[n], now.records[n]);
    ByteAccountingExact(Archive(a).value, Archive(b).value, was, now, h);
  }
}
