/** The initrd writer over a checked layer, the archive reader, and the laws that tie
    the two together. */
module Initrd {
  import opened ByteStrings
  import opened Paths
  import opened Sorting
  import opened Newc

  /** What a tar reader reports about one member. */
  datatype Form = DirForm | SymForm | RegForm | HardForm | OtherForm
  datatype Member = Member(name: Bytes, form: Form, mode: nat, mtime: int, uid: int, gid: int, payload: Bytes)

  datatype Entry = Entry(name: Bytes, kind: Kind, mode: nat, data: Bytes)

  function TypeBits(kind: Kind): nat {
    match kind
    case Directory => 0x4000
    case Symlink => 0xA000
    case File => 0x8000
  }

  function LinkCount(kind: Kind): nat { if kind.Directory? then 2 else 1 }

  /** A link's target must be text. */
  predicate Readable(kind: Kind, data: Bytes) { kind.Symlink? ==> Utf8(data) }

  /* ----- the layer, and the invariants re-checked on it ----- */

  function KindOfForm(form: Form): Kind {
    match form case DirForm => Directory case SymForm => Symlink case _ => File
  }

  predicate MemberAccepted(m: Member) {
    Normalized(m.name) && Utf8(m.name) && m.mtime == 0 && m.uid == 0 && m.gid == 0
    && (m.form.DirForm? || m.form.SymForm? || m.form.RegForm?) && Readable(KindOfForm(m.form), m.payload)
  }

  function EntryOf(m: Member): Entry {
    var kind := KindOfForm(m.form);
    Entry(m.name, kind, TypeBits(kind) + m.mode % 0x1000, if m.form.DirForm? then [] else m.payload)
  }

  function Names(entries: seq<Entry>): (names: seq<Bytes>)
    ensures |names| == |entries|
    ensures forall i :: 0 <= i < |entries| ==> names[i] == entries[i].name
  {
    seq(|entries|, i requires 0 <= i < |entries| => entries[i].name)
  }

  /** The mode carries the kind. */
  predicate Coherent(e: Entry) {
    e.mode / 0x1000 == TypeBits(e.kind) / 0x1000 && (e.kind.Directory? ==> e.data == [])
  }

  predicate GoodLayer(entries: seq<Entry>) {
    && entries != []
    && Increasing(Names(entries))
    && forall i :: 0 <= i < |entries| ==>
         Coherent(entries[i]) && Normalized(entries[i].name) && Utf8(entries[i].name)
  }

  lemma EntryCoherent(m: Member)
    ensures Coherent(EntryOf(m)) && EntryOf(m).name == m.name
  {
  }

  /** There is a member, every member is acceptable, and the names strictly increase. */
  predicate LayerAccepted(members: seq<Member>) {
    && members != []
    && (forall i :: 0 <= i < |members| ==> MemberAccepted(members[i]))
    && Increasing(seq(|members|, i requires 0 <= i < |members| => members[i].name))
  }

  function EntriesOf(members: seq<Member>): (entries: seq<Entry>)
    ensures |entries| == |members| && forall i :: 0 <= i < |members| ==> entries[i] == EntryOf(members[i])
  {
    seq(|members|, i requires 0 <= i < |members| => EntryOf(members[i]))
  }

  lemma AcceptedIsGood(members: seq<Member>)
    requires LayerAccepted(members)
    ensures GoodLayer(EntriesOf(members))
  {
    hide Normalized, Utf8, Increasing, Coherent;
    var entries := EntriesOf(members);
    forall i | 0 <= i < |entries| ensures Coherent(entries[i]) && Normalized(entries[i].name) && Utf8(entries[i].name) {
      assert MemberAccepted(members[i]);
      EntryCoherent(members[i]);
    }
    assert Names(entries) == seq(|members|, i requires 0 <= i < |members| => members[i].name);
  }

  /** The type bits, link count and bytes that a member must have in the archive. */
  predicate Carries(m: Member, mode: nat, nlink: nat, data: Bytes) {
    match m.form
    case DirForm => mode == 0x4000 + m.mode % 4096 && nlink == 2 && data == []
    case SymForm => mode == 0xA000 + m.mode % 4096 && nlink == 1 && data == m.payload
    case RegForm => mode == 0x8000 + m.mode % 4096 && nlink == 1 && data == m.payload
    case _ => false
  }

  /** One member of the layer: its path, times, owner, kind and bytes, in the order they are
      looked at. */
  method ReadMember(m: Member) returns (r: Result<Entry>)
    ensures r == if MemberAccepted(m) then Ok(EntryOf(m)) else Fail
    ensures r.Ok? ==> r.value.name == m.name && Carries(m, r.value.mode, LinkCount(r.value.kind), r.value.data)
  {
    hide Split, Utf8;
    if m.name == [] || m.name[0] == SLASH || !Utf8(m.name) { return Fail; }
    var parts := Split(m.name);
    if [] in parts || DOT in parts || DOTDOT in parts { return Fail; }
    if m.mtime != 0 { return Fail; }
    if m.uid != 0 || m.gid != 0 { return Fail; }
    var kind, bits, data;
    match m.form {
      case DirForm => kind, bits, data := Directory, 0x4000, [];
      case SymForm =>
        if !Utf8(m.payload) { return Fail; }
        kind, bits, data := Symlink, 0xA000, m.payload;
      case RegForm => kind, bits, data := File, 0x8000, m.payload;
      case _ => return Fail;
    }
    return Ok(Entry(m.name, kind, bits + m.mode % 0x1000, data));
  }

  /** Read a layer, checking path, time, owner, kind, order and uniqueness one member at a
      time, and order and uniqueness against a sorted copy and a set. */
  method LayerEntries(members: seq<Member>) returns (r: Result<seq<Entry>>)
    ensures r == if LayerAccepted(members) then Ok(EntriesOf(members)) else Fail
    ensures r.Ok? ==> GoodLayer(r.value)
    ensures r.Ok? ==> forall i :: 0 <= i < |members| ==>
      r.value[i].name == members[i].name && Carries(members[i], r.value[i].mode, LinkCount(r.value[i].kind), r.value[i].data)
  {
    hide Normalized, Utf8, Sort, Sorted, Distinct, Increasing, Coherent, EntryOf, MemberAccepted, Carries, LinkCount;
    var entries: seq<Entry> := [];
    ghost var names := seq(|members|, i requires 0 <= i < |members| => members[i].name);
    for k := 0 to |members|
      invariant |entries| == k
      invariant forall i :: 0 <= i < k ==> MemberAccepted(members[i]) && entries[i] == EntryOf(members[i])
      invariant forall i :: 0 <= i < k ==> Coherent(entries[i]) && entries[i].name == members[i].name
      invariant forall i :: 0 <= i < k ==> Carries(members[i], entries[i].mode, LinkCount(entries[i].kind), entries[i].data)
    {
      var entry := ReadMember(members[k]);
      if entry.Fail? { return Fail; }
      EntryCoherent(members[k]);
      entries := entries + [entry.value];
    }
    if entries == [] { return Fail; }
    var order := Names(entries);
    assert order == names;
    SortFixpoint(order);
    SortedDistinct(order);
    ElementCount(order);
    if order != Sort(order) { return Fail; }
    if |Elements(order)| != |order| { return Fail; }
    GoodNames(members, entries);
    assert entries == EntriesOf(members);
    return Ok(entries);
  }

  lemma GoodNames(members: seq<Member>, entries: seq<Entry>)
    requires |entries| == |members| && entries != [] && Increasing(Names(entries))
    requires forall i :: 0 <= i < |members| ==> MemberAccepted(members[i]) && entries[i].name == members[i].name && Coherent(entries[i])
    ensures GoodLayer(entries)
  {
    hide Normalized, Utf8, Increasing, Coherent;
    forall i | 0 <= i < |entries| ensures Normalized(entries[i].name) && Utf8(entries[i].name) { assert MemberAccepted(members[i]); }
  }

  /* ----- writing ----- */

  function EntryRecord(e: Entry, ino: nat): Result<Bytes> {
    Record(ino, e.mode, LinkCount(e.kind), e.name, e.data)
  }

  function TrailerRecord(): Result<Bytes> { Record(0, 0, 1, TRAILER, []) }

  function Append(a: Result<Bytes>, b: Result<Bytes>): Result<Bytes> {
    if a.Ok? && b.Ok? then Ok(a.value + b.value) else Fail
  }

  /** The archive from the entry numbered `ino` on, trailer included. */
  function ArchiveFrom(entries: seq<Entry>, ino: nat): Result<Bytes>
    decreases |entries|
  {
    if entries == [] then TrailerRecord()
    else Append(EntryRecord(entries[0], ino), ArchiveFrom(entries[1..], ino + 1))
  }

  /** Entries are numbered from one, in archive order. */
  function Archive(entries: seq<Entry>): Result<Bytes> { ArchiveFrom(entries, 1) }

  method WriteArchive(entries: seq<Entry>) returns (r: Result<Bytes>)
    ensures r == Archive(entries)
  {
    hide EntryRecord, TrailerRecord;
    assert entries[0..] == entries;
    assert Archive(entries).Ok? ==> [] + Archive(entries).value == Archive(entries).value;
    var out: Bytes := [];
    for i := 0 to |entries|
      invariant Append(Ok(out), ArchiveFrom(entries[i..], i + 1)) == Archive(entries)
    {
      assert entries[i..][1..] == entries[i + 1..];
      var record := EntryRecord(entries[i], i + 1);
      if record.Fail? { return Fail; }
      ghost var rest := ArchiveFrom(entries[i + 1..], i + 2);
      assert rest.Ok? ==> out + (record.value + rest.value) == out + record.value + rest.value;
      out := out + record.value;
    }
    var trailer := TrailerRecord();
    return Append(Ok(out), trailer);
  }

  predicate EntryFits(e: Entry) {
    e.mode <= FIELD_MAX && |e.data| <= FIELD_MAX && |e.name| + 1 <= FIELD_MAX && Utf8(e.name)
  }

  predicate AllEntriesFit(entries: seq<Entry>, ino: nat) {
    forall i :: 0 <= i < |entries| ==> EntryFits(entries[i]) && ino + i <= FIELD_MAX
  }

  lemma FitCons(entries: seq<Entry>, ino: nat)
    requires entries != []
    ensures AllEntriesFit(entries, ino) <==>
      EntryFits(entries[0]) && ino <= FIELD_MAX && AllEntriesFit(entries[1..], ino + 1)
  {
    var tail := entries[1..];
    if AllEntriesFit(tail, ino + 1) && EntryFits(entries[0]) && ino <= FIELD_MAX {
      forall i | 0 <= i < |entries| ensures EntryFits(entries[i]) && ino + i <= FIELD_MAX {
        if i > 0 { assert tail[i - 1] == entries[i]; }
      }
      assert AllEntriesFit(entries, ino);
    }
    if AllEntriesFit(entries, ino) {
      forall i | 0 <= i < |tail| ensures EntryFits(tail[i]) && ino + 1 + i <= FIELD_MAX {
        assert tail[i] == entries[i + 1];
      }
      assert AllEntriesFit(tail, ino + 1);
      assert EntryFits(entries[0]);
    }
  }

  /** Writing fails exactly when some value does not fit a 32-bit field or some name is
      not text. */
  lemma {:induction false} ArchiveDefined(entries: seq<Entry>, ino: nat)
    ensures ArchiveFrom(entries, ino).Ok? <==> AllEntriesFit(entries, ino)
    ensures ArchiveFrom(entries, ino).Ok? ==> |ArchiveFrom(entries, ino).value| % 4 == 0
    decreases |entries|
  {
    hide Record, Utf8, Span;
    if entries == [] {
      TrailerFits();
    } else {
      var e := entries[0];
      RecordSpan(ino, e.mode, LinkCount(e.kind), e.name, e.data);
      ArchiveDefined(entries[1..], ino + 1);
      FitCons(entries, ino);
    }
  }

  /** Every member, in order and numbered from one, with its own bytes and permissions, and
      then the trailer. */
  predicate HoldsMembers(rows: seq<Row>, members: seq<Member>) {
    && |rows| == |members| + 1
    && (forall i :: 0 <= i < |members| ==>
          && rows[i].ino == i + 1 && rows[i].name == members[i].name && rows[i].uid == 0 && rows[i].gid == 0 && rows[i].mtime == 0
          && Carries(members[i], rows[i].mode, rows[i].nlink, rows[i].data) && rows[i].filesize == |rows[i].data|)
    && var last := rows[|members|];
       && last.ino == 0 && last.name == TRAILER && last.mode == 0 && last.data == [] && last.filesize == 0
       && last.uid == 0 && last.gid == 0 && last.mtime == 0 && last.nlink == 1
  }

  /** Turn a layer into an initrd: exactly when the layer is accepted and every value fits
      its header field.  What is written parses, and holds the members exactly when none
      carries the trailer's name. */
  method InitrdBytes(members: seq<Member>) returns (r: Result<Bytes>)
    ensures r == if LayerAccepted(members) then Archive(EntriesOf(members)) else Fail
    ensures r.Ok? <==> LayerAccepted(members) && AllEntriesFit(EntriesOf(members), 1)
    ensures r.Ok? ==> GoodLayer(EntriesOf(members))
    ensures r.Ok? ==> Parsed(r.value).Ok? && (HoldsMembers(Parsed(r.value).value, members) <==> forall m :: m in members ==> m.name != TRAILER)
  {
    hide LayerAccepted, GoodLayer, EntryOf, ArchiveFrom, AllEntriesFit, HoldsMembers, Carries, ParseFrom;
    var checked := LayerEntries(members);
    if checked.Fail? { return Fail; }
    r := WriteArchive(checked.value);
    ArchiveDefined(checked.value, 1);
    if r.Ok? {
      RoundTrip(checked.value);
      MembersMatch(members, checked.value, Parsed(r.value).value);
    }
  }

  lemma MembersMatch(members: seq<Member>, entries: seq<Entry>, rows: seq<Row>)
    requires |entries| == |members|
    requires forall i :: 0 <= i < |members| ==>
      entries[i].name == members[i].name && Carries(members[i], entries[i].mode, LinkCount(entries[i].kind), entries[i].data)
    requires RowsMatch(rows, entries, 1) <==> TRAILER !in Names(entries)
    ensures HoldsMembers(rows, members) <==> forall m :: m in members ==> m.name != TRAILER
  {
    hide Carries;
    assert (forall m :: m in members ==> m.name != TRAILER) <==> TRAILER !in Names(entries) by { SameNames(members, entries); }
    if HoldsMembers(rows, members) {
      forall i | 0 <= i < |entries| ensures RowMatches(rows[i], entries[i], 1 + i) {
        CarriesOnce(members[i], rows[i].mode, rows[i].nlink, rows[i].data, entries[i].mode, LinkCount(entries[i].kind), entries[i].data);
      }
    }
  }

  lemma CarriesOnce(m: Member, mode: nat, nlink: nat, data: Bytes, mode': nat, nlink': nat, data': Bytes)
    requires Carries(m, mode, nlink, data) && Carries(m, mode', nlink', data')
    ensures mode == mode' && nlink == nlink' && data == data'
  {
  }

  lemma SameNames(members: seq<Member>, entries: seq<Entry>)
    requires |entries| == |members| && forall i :: 0 <= i < |members| ==> entries[i].name == members[i].name
    ensures (forall m :: m in members ==> m.name != TRAILER) <==> TRAILER !in Names(entries)
  {
    if TRAILER in Names(entries) {
      var i :| 0 <= i < |entries| && Names(entries)[i] == TRAILER;
      assert members[i] in members;
    }
    if m :| m in members && m.name == TRAILER {
      var i :| 0 <= i < |members| && members[i] == m;
      assert Names(entries)[i] == TRAILER;
    }
  }

  lemma TrailerFits()
    ensures TrailerRecord().Ok? && |TrailerRecord().value| == Span(10, 0)
  {
    hide Record, Span;
    assert forall i :: 0 <= i < 10 ==> Utf8At(TRAILER, i);
    RecordSpan(0, 0, 1, TRAILER, []);
  }

  /* ----- reading ----- */

  function Prepend(rows: seq<Row>, rest: Result<seq<Row>>): Result<seq<Row>> {
    if rest.Ok? then Ok(rows + rest.value) else Fail
  }

  /** Everything from `offset` up to and including the first trailer.  Reaching the end
      of the buffer first means there is no trailer. */
  function ParseFrom(raw: Bytes, offset: nat): Result<seq<Row>>
    decreases |raw| - offset
  {
    if offset >= |raw| then Fail
    else match ReadRecord(raw, offset)
      case Fail => Fail
      case Ok(row) =>
        if IsTrailer(row.name) then Ok([row]) else Prepend([row], ParseFrom(raw, row.dataEnd))
  }

  function Parsed(raw: Bytes): Result<seq<Row>> { ParseFrom(raw, 0) }

  method ParseNewc(raw: Bytes) returns (r: Result<seq<Row>>)
    ensures r == Parsed(raw)
  {
    hide ReadRecord, IsTrailer;
    assert Parsed(raw).Ok? ==> [] + Parsed(raw).value == Parsed(raw).value;
    var rows: seq<Row> := [];
    var offset := 0;
    while offset < |raw|
      invariant rows != [] ==> !IsTrailer(rows[|rows| - 1].name)
      invariant Prepend(rows, ParseFrom(raw, offset)) == Parsed(raw)
    {
      var read := ReadRecord(raw, offset);
      if read.Fail? { return Fail; }
      var row := read.value;
      ghost var rest := ParseFrom(raw, row.dataEnd);
      assert rest.Ok? ==> rows + ([row] + rest.value) == rows + [row] + rest.value;
      rows := rows + [row];
      if IsTrailer(row.name) { break; }
      offset := row.dataEnd;
    }
    if rows == [] || !IsTrailer(rows[|rows| - 1].name) { return Fail; }
    return Ok(rows);
  }

  /* ----- a successful parse is a tiling, and is never truncated before the trailer ----- */

  function StartOf(rows: seq<Row>, k: nat, offset: nat): nat
    requires k <= |rows|
  {
    if k == 0 then offset else rows[k - 1].dataEnd
  }

  /** Row `k` starts where row `k - 1` ended and spans what its lengths say. */
  predicate Tiles(rows: seq<Row>, offset: nat) {
    forall k :: 0 <= k < |rows| - 1 ==>
      && |rows[k].data| == rows[k].filesize
      && rows[k].dataEnd == StartOf(rows, k, offset) + Span(|rows[k].name|, rows[k].filesize)
  }

  predicate OnlyLastIsTrailer(rows: seq<Row>) {
    rows != [] && forall k :: 0 <= k < |rows| ==> (IsTrailer(rows[k].name) <==> k == |rows| - 1)
  }

  lemma {:induction false} ParseTiles(raw: Bytes, offset: nat)
    requires offset % 4 == 0 && ParseFrom(raw, offset).Ok?
    ensures var rows := ParseFrom(raw, offset).value;
      && OnlyLastIsTrailer(rows) && Tiles(rows, offset)
      && (forall k :: 0 <= k < |rows| ==>
            && StartOf(rows, k, offset) % 4 == 0
            && StartOf(rows, k, offset) + HEADER_BYTES <= |raw|
            && ReadRecord(raw, StartOf(rows, k, offset)) == Ok(rows[k]))
    decreases |raw| - offset
  {
    hide ReadRecord, Span, IsTrailer;
    var rows := ParseFrom(raw, offset).value;
    var row := ReadRecord(raw, offset).value;
    ReadAligned(raw, offset);
    if IsTrailer(row.name) {
      assert rows == [row];
    } else {
      var rest := ParseFrom(raw, row.dataEnd).value;
      ParseTiles(raw, row.dataEnd);
      ReadSpan(raw, offset);
      assert rows == [row] + rest;
      forall k | 0 <= k < |rows|
        ensures k > 0 ==> StartOf(rows, k, offset) == StartOf(rest, k - 1, row.dataEnd)
      {
      }
    }
  }

  lemma ReadAligned(raw: Bytes, offset: nat)
    requires ReadRecord(raw, offset).Ok?
    ensures ReadRecord(raw, offset).value.dataEnd % 4 == 0 && offset + HEADER_BYTES <= |raw|
  {
    hide HeaderAt, Utf8, Slice;
  }

  /** Whenever an archive parses, the rows tile the buffer contiguously from its first
      byte, each row before the trailer carries exactly the data it declares, and the
      trailer's own data is complete exactly when the buffer reaches its declared end. */
  lemma ParseNeverTruncates(raw: Bytes)
    requires Parsed(raw).Ok?
    ensures var rows := Parsed(raw).value; var last := rows[|rows| - 1];
      && OnlyLastIsTrailer(rows)
      && (forall k :: 0 <= k < |rows| - 1 ==>
            && |rows[k].data| == rows[k].filesize
            && rows[k].dataEnd == StartOf(rows, k, 0) + Span(|rows[k].name|, rows[k].filesize)
            && rows[k].dataEnd + HEADER_BYTES <= |raw|)
      && (|last.data| == last.filesize <==> last.filesize == 0 || last.headerEnd + last.filesize <= |raw|)
  {
    hide ReadRecord, Span, IsTrailer;
    ParseTiles(raw, 0);
    var rows := Parsed(raw).value;
    forall k | 0 <= k < |rows| - 1 ensures rows[k].dataEnd + HEADER_BYTES <= |raw| {
      assert StartOf(rows, k + 1, 0) == rows[k].dataEnd;
    }
    TrailerData(raw, StartOf(rows, |rows| - 1, 0));
  }

  lemma TrailerData(raw: Bytes, offset: nat)
    requires ReadRecord(raw, offset).Ok?
    ensures var row := ReadRecord(raw, offset).value;
      |row.data| == row.filesize <==> row.filesize == 0 || row.headerEnd + row.filesize <= |raw|
  {
    hide HeaderAt, Utf8, Align;
    var values := HeaderAt(raw, offset).value;
    var row := RowAt(raw, offset, values).value;
    assert row.data == Slice(raw, row.headerEnd, row.headerEnd + row.filesize);
  }

  /* ----- round trip ----- */

  /** The rows reading gives back: the entries up to the first one that carries the
      trailer's name, and the trailer if there is none. */
  function WrittenRows(entries: seq<Entry>, ino: nat, start: nat): seq<Row>
    decreases |entries|
  {
    if entries == [] then [WrittenRow(start, 0, 0, 1, TRAILER, [])]
    else
      var e := entries[0];
      var row := WrittenRow(start, ino, e.mode, LinkCount(e.kind), e.name, e.data);
      if e.name == TRAILER then [row] else [row] + WrittenRows(entries[1..], ino + 1, row.dataEnd)
  }

  lemma {:induction false} ParseOfArchive(before: Bytes, entries: seq<Entry>, ino: nat)
    requires |before| % 4 == 0 && ArchiveFrom(entries, ino).Ok?
    ensures ParseFrom(before + ArchiveFrom(entries, ino).value, |before|)
         == Ok(WrittenRows(entries, ino, |before|))
    decreases |entries|
  {
    hide ReadRecord, Record, Span, Utf8;
    var raw := before + ArchiveFrom(entries, ino).value;
    if entries == [] {
      TrailerFits();
      ReadWritten(before, 0, 0, 1, TRAILER, [], []);
      assert raw + [] == raw;
    } else {
      var e := entries[0];
      var record := EntryRecord(e, ino).value;
      var rest := ArchiveFrom(entries[1..], ino + 1).value;
      assert raw == before + record + rest;
      RecordSpan(ino, e.mode, LinkCount(e.kind), e.name, e.data);
      ReadWritten(before, ino, e.mode, LinkCount(e.kind), e.name, e.data, rest);
      if e.name != TRAILER {
        ParseOfArchive(before + record, entries[1..], ino + 1);
      }
    }
  }

  predicate RowMatches(row: Row, e: Entry, ino: nat) {
    && row.ino == ino && row.mode == e.mode && row.uid == 0 && row.gid == 0 && row.mtime == 0
    && row.nlink == LinkCount(e.kind) && row.name == e.name && row.data == e.data && row.filesize == |e.data|
  }

  /** Every entry, in order, numbered from `ino`, and then the trailer numbered 0. */
  predicate RowsMatch(rows: seq<Row>, entries: seq<Entry>, ino: nat) {
    && |rows| == |entries| + 1
    && (forall i :: 0 <= i < |entries| ==> RowMatches(rows[i], entries[i], ino + i))
    && RowMatches(rows[|entries|], Entry(TRAILER, File, 0, []), 0)
  }

  lemma {:induction false} WrittenRowsMatch(entries: seq<Entry>, ino: nat, start: nat)
    requires ino > 0
    ensures RowsMatch(WrittenRows(entries, ino, start), entries, ino) <==> TRAILER !in Names(entries)
    decreases |entries|
  {
    var rows := WrittenRows(entries, ino, start);
    if entries != [] {
      var e := entries[0];
      if e.name == TRAILER {
        assert Names(entries)[0] == TRAILER;
        assert rows[0].ino == ino;
      } else {
        var tail := entries[1..];
        var rest := WrittenRows(tail, ino + 1, rows[0].dataEnd);
        WrittenRowsMatch(tail, ino + 1, rows[0].dataEnd);
        assert rows == [rows[0]] + rest;
        assert Names(entries) == [e.name] + Names(tail);
        assert TRAILER in Names(entries) <==> TRAILER in Names(tail);
        MatchCons(rows[0], rest, entries, ino);
      }
    }
  }

  lemma MatchCons(row: Row, rest: seq<Row>, entries: seq<Entry>, ino: nat)
    requires entries != [] && RowMatches(row, entries[0], ino)
    ensures RowsMatch([row] + rest, entries, ino) <==> RowsMatch(rest, entries[1..], ino + 1)
  {
    var rows := [row] + rest;
    var tail := entries[1..];
    if RowsMatch(rest, tail, ino + 1) {
      forall i | 0 <= i < |entries| ensures RowMatches(rows[i], entries[i], ino + i) {
        if i > 0 { assert rows[i] == rest[i - 1] && entries[i] == tail[i - 1]; }
      }
    }
    if RowsMatch(rows, entries, ino) {
      forall i | 0 <= i < |tail| ensures RowMatches(rest[i], tail[i], ino + 1 + i) {
        assert rows[i + 1] == rest[i] && entries[i + 1] == tail[i];
      }
    }
  }

  /** Reading an archive that was written gives back exactly the entries, numbered from
      one, then the trailer -- if and only if no entry carries the trailer's name.  The
      path check does not refuse that name. */
  lemma RoundTrip(entries: seq<Entry>)
    requires Archive(entries).Ok?
    ensures var parsed := Parsed(Archive(entries).value);
      && parsed.Ok?
      && (RowsMatch(parsed.value, entries, 1) <==> TRAILER !in Names(entries))
  {
    hide RowsMatch, ArchiveFrom, ParseFrom;
    ParseOfArchive([], entries, 1);
    assert [] + Archive(entries).value == Archive(entries).value;
    WrittenRowsMatch(entries, 1, 0);
  }

  function TrailerNamedLayer(): seq<Entry> {
    [Entry(TRAILER, File, TypeBits(File), []), Entry([122], File, TypeBits(File), [])]
  }

  lemma SingleNameAccepted(name: Bytes)
    requires PlainName(name) && forall i :: 0 <= i < |name| ==> name[i] < 0x80
    ensures Normalized(name) && Utf8(name)
  {
    hide Split;
    SplitOne(name);
    assert name[0] in name;
    forall i | 0 <= i < |name| ensures Utf8At(name, i) {
      assert LeadWidth(name[i]) == 1;
    }
  }

  lemma TrailerNamedLayerIsGood()
    ensures GoodLayer(TrailerNamedLayer()) && AllEntriesFit(TrailerNamedLayer(), 1)
  {
    hide Normalized, Utf8;
    SingleNameAccepted(TRAILER);
    SingleNameAccepted([122]);
    assert Less(TRAILER, [122]);
    hide Less;
    var layer := TrailerNamedLayer();
    assert Names(layer)[0] == TRAILER && Names(layer)[1] == [122];
  }

  /** A two-entry layer that the checks accept and that comes back as one row. */
  lemma RoundTripLosesTrailerName()
    ensures GoodLayer(TrailerNamedLayer()) && Archive(TrailerNamedLayer()).Ok?
    ensures Parsed(Archive(TrailerNamedLayer()).value).Ok?
    ensures |Parsed(Archive(TrailerNamedLayer()).value).value| == 1
  {
    hide ArchiveFrom, ParseFrom, GoodLayer, AllEntriesFit;
    var entries := TrailerNamedLayer();
    TrailerNamedLayerIsGood();
    ArchiveDefined(entries, 1);
    ParseOfArchive([], entries, 1);
    assert [] + Archive(entries).value == Archive(entries).value;
    assert |WrittenRows(entries, 1, 0)| == 1;
  }

  /* ----- the writer is injective ----- */

  lemma CoherentDetermines(a: Entry, b: Entry)
    requires Coherent(a) && Coherent(b) && a.name == b.name && a.mode == b.mode && a.data == b.data
    ensures a == b
  {
  }

  /** Two lists of entries that give the same bytes are the same list, whatever their
      names: records delimit themselves, and only the final trailer is numbered 0. */
  lemma {:induction false} ArchiveInjective(a: seq<Entry>, b: seq<Entry>, ino: nat)
    requires ino > 0 && ArchiveFrom(a, ino).Ok? && ArchiveFrom(a, ino) == ArchiveFrom(b, ino)
    requires forall i :: 0 <= i < |a| ==> Coherent(a[i])
    requires forall i :: 0 <= i < |b| ==> Coherent(b[i])
    ensures a == b
    decreases |a|
  {
    hide ReadRecord, Record, Span, Coherent;
    var raw := ArchiveFrom(a, ino).value;
    FirstRecord(a, ino);
    FirstRecord(b, ino);
    if a != [] && b != [] {
      CoherentDetermines(a[0], b[0]);
      var record := EntryRecord(a[0], ino).value;
      assert raw[|record|..] == ArchiveFrom(a[1..], ino + 1).value;
      assert raw[|record|..] == ArchiveFrom(b[1..], ino + 1).value;
      ArchiveInjective(a[1..], b[1..], ino + 1);
      assert a == [a[0]] + a[1..] && b == [b[0]] + b[1..];
    }
  }

  lemma FirstRecord(entries: seq<Entry>, ino: nat)
    requires ArchiveFrom(entries, ino).Ok?
    ensures var first := ReadRecord(ArchiveFrom(entries, ino).value, 0);
      && first.Ok?
      && (entries == [] ==> first.value.ino == 0)
      && (entries != [] ==> first.value == WrittenRow(0, ino, entries[0].mode, LinkCount(entries[0].kind),
                                                       entries[0].name, entries[0].data))
  {
    hide ReadRecord, Record, Span;
    if entries == [] {
      TrailerFits();
      ReadWritten([], 0, 0, 1, TRAILER, [], []);
      assert [] + TrailerRecord().value + [] == TrailerRecord().value;
    } else {
      var e, rest := entries[0], ArchiveFrom(entries[1..], ino + 1).value;
      ReadWritten([], ino, e.mode, LinkCount(e.kind), e.name, e.data, rest);
      assert [] + EntryRecord(e, ino).value + rest == ArchiveFrom(entries, ino).value;
    }
  }
}
