/** Three readers of `ar` archives, which is how a Debian package is laid out: one returns
    the first member of a name, two return every member in a dictionary.  They check
    different things on the way. */
module Ar {
  import opened ByteStrings

  const GLOBAL_HEADER: Bytes := [33, 60, 97, 114, 99, 104, 62, 10]
  const HEADER: nat := 60
  const MARK: Bytes := [96, 10]

  /** Decoded text; a byte that is not ASCII becomes the replacement character. */
  type Text = seq<int>

  function DecodeByte(b: Byte): int { if b < 128 then b else 0xFFFD }

  function Decode(raw: Bytes): (t: Text)
    ensures |t| == |raw| && forall i :: 0 <= i < |t| ==> t[i] == DecodeByte(raw[i])
  {
    seq(|raw|, i requires 0 <= i < |raw| => DecodeByte(raw[i]))
  }

  predicate Blank(c: int) { c == 32 || 9 <= c <= 13 || 28 <= c <= 31 }

  function StripLeft(t: Text): Text { if t != [] && Blank(t[0]) then StripLeft(t[1..]) else t }
  function StripRight(t: Text): Text { if t != [] && Blank(t[|t| - 1]) then StripRight(t[..|t| - 1]) else t }
  function Strip(t: Text): Text { StripRight(StripLeft(t)) }
  function DropSlashes(t: Text): Text { if t != [] && t[|t| - 1] == 47 then DropSlashes(t[..|t| - 1]) else t }

  function ParseDigits(t: Text): Option<nat> {
    if t == [] then None
    else
      var d := t[|t| - 1];
      if !(48 <= d <= 57) then None
      else if |t| == 1 then Some(d - 48)
      else
        match ParseDigits(t[..|t| - 1])
        case None => None
        case Some(n) => Some(10 * n + (d - 48))
  }

  /* ----- one header ----- */

  predicate HasHeader(raw: Bytes, o: nat) { o + HEADER <= |raw| }

  function SizeAt(raw: Bytes, o: nat): Option<nat>
    requires HasHeader(raw, o)
  {
    ParseDigits(Strip(Decode(raw[o + 48..o + 58])))
  }

  function RawNameAt(raw: Bytes, o: nat): Text
    requires HasHeader(raw, o)
  {
    Strip(Decode(raw[o..o + 16]))
  }

  predicate MarkedAt(raw: Bytes, o: nat)
    requires HasHeader(raw, o)
  {
    raw[o + 58..o + 60] == MARK
  }

  function Next(o: nat, size: nat): nat { o + HEADER + size + size % 2 }

  predicate IsArchive(raw: Bytes) { |raw| >= 8 && raw[..8] == GLOBAL_HEADER }

  /* ----- the walk ----- */

  predicate Steps(raw: Bytes, o: nat) { HasHeader(raw, o) && SizeAt(raw, o).Some? }

  /** Where headers lie, following the sizes from `o` on. */
  function Offsets(raw: Bytes, o: nat): seq<nat>
    decreases |raw| - o
  {
    if Steps(raw, o) then [o] + Offsets(raw, Next(o, SizeAt(raw, o).value)) else []
  }

  /** Where that walk cannot go on: past the last header, or at an unreadable size. */
  function StopAt(raw: Bytes, o: nat): nat
    decreases |raw| - o
  {
    if Steps(raw, o) then StopAt(raw, Next(o, SizeAt(raw, o).value)) else o
  }

  function DataAt(raw: Bytes, o: nat): Bytes
    requires Steps(raw, o)
  {
    Slice(raw, o + HEADER, o + HEADER + SizeAt(raw, o).value)
  }

  /** Whether the member's data is all there. */
  predicate Whole(raw: Bytes, o: nat)
    requires Steps(raw, o)
  {
    o + HEADER + SizeAt(raw, o).value <= |raw|
  }

  predicate AllStep(raw: Bytes, offs: seq<nat>) { forall i :: 0 <= i < |offs| ==> Steps(raw, offs[i]) }

  predicate AllMarked(raw: Bytes, offs: seq<nat>)
    requires AllStep(raw, offs)
  {
    forall i :: 0 <= i < |offs| ==> MarkedAt(raw, offs[i])
  }

  lemma {:induction false} OffsetsStep(raw: Bytes, o: nat)
    ensures AllStep(raw, Offsets(raw, o))
    decreases |raw| - o
  {
    hide SizeAt;
    if Steps(raw, o) {
      var next := Next(o, SizeAt(raw, o).value);
      OffsetsStep(raw, next);
      var tail := Offsets(raw, next);
      forall i | 0 <= i < |tail| + 1 ensures Steps(raw, ([o] + tail)[i]) {
        assert i > 0 ==> ([o] + tail)[i] == tail[i - 1];
      }
    }
  }

  /** Headers lie at even offsets, so padding by the parity of the size and padding by the
      parity of the end are the same. */
  lemma EvenNext(o: nat, size: nat)
    requires o % 2 == 0
    ensures Next(o, size) % 2 == 0 && Next(o, size) == (o + HEADER + size) + (o + HEADER + size) % 2
  {
  }

  /** The dictionary two of the readers fill: a later member replaces an earlier one of the
      same name. */
  function Collect(raw: Bytes, offs: seq<nat>, trim: bool): map<Text, Bytes>
    requires AllStep(raw, offs)
  {
    if offs == [] then map[]
    else
      var o := offs[|offs| - 1];
      Collect(raw, offs[..|offs| - 1], trim)[NameAt(raw, o, trim) := DataAt(raw, o)]
  }

  function NameAt(raw: Bytes, o: nat, trim: bool): Text
    requires HasHeader(raw, o)
  {
    if trim then DropSlashes(RawNameAt(raw, o)) else RawNameAt(raw, o)
  }

  lemma CollectSnoc(raw: Bytes, offs: seq<nat>, o: nat, trim: bool)
    requires AllStep(raw, offs) && Steps(raw, o)
    ensures AllStep(raw, offs + [o])
    ensures Collect(raw, offs + [o], trim) == Collect(raw, offs, trim)[NameAt(raw, o, trim) := DataAt(raw, o)]
  {
    hide SizeAt, NameAt;
    assert (offs + [o])[..|offs|] == offs;
  }

  /* ----- the two dictionary readers ----- */

  /** Reading so far, and what is still ahead. */
  ghost predicate Reading(raw: Bytes, done: seq<nat>, o: nat, trim: bool, members: map<Text, Bytes>) {
    && AllStep(raw, done) && members == Collect(raw, done, trim)
    && Offsets(raw, 8) == done + Offsets(raw, o) && StopAt(raw, 8) == StopAt(raw, o)
  }

  lemma ReadingStart(raw: Bytes, trim: bool)
    ensures Reading(raw, [], 8, trim, map[])
  {
    hide Offsets, StopAt;
  }

  lemma ReadingNext(raw: Bytes, done: seq<nat>, o: nat, trim: bool, members: map<Text, Bytes>)
    requires Reading(raw, done, o, trim, members) && Steps(raw, o)
    ensures Reading(raw, done + [o], Next(o, SizeAt(raw, o).value), trim, members[NameAt(raw, o, trim) := DataAt(raw, o)])
    ensures o in Offsets(raw, 8)
  {
    hide SizeAt, NameAt, Collect, AllStep, DataAt;
    CollectSnoc(raw, done, o, trim);
    assert Offsets(raw, 8) == (done + [o]) + Offsets(raw, Next(o, SizeAt(raw, o).value));
    assert Offsets(raw, 8)[|done|] == o;
  }

  lemma ReadingEnd(raw: Bytes, done: seq<nat>, o: nat, trim: bool, members: map<Text, Bytes>)
    requires Reading(raw, done, o, trim, members) && !Steps(raw, o)
    ensures done == Offsets(raw, 8) && StopAt(raw, 8) == o && AllStep(raw, done) && members == Collect(raw, done, trim)
  {
    hide SizeAt, Collect, AllStep;
    assert done + [] == done;
  }

  /** The walk ended because no header fits any more. */
  predicate RunsOut(raw: Bytes) { !HasHeader(raw, StopAt(raw, 8)) }

  ghost predicate Trimmable(raw: Bytes) {
    OffsetsStep(raw, 8);
    IsArchive(raw) && RunsOut(raw) && AllMarked(raw, Offsets(raw, 8))
  }

  ghost function Directory(raw: Bytes, trim: bool): map<Text, Bytes> {
    OffsetsStep(raw, 8);
    Collect(raw, Offsets(raw, 8), trim)
  }

  /** Checks each header's mark, drops slashes after names, and cuts the data short if the
      archive is. */
  method ArMembers(raw: Bytes) returns (r: Result<map<Text, Bytes>>)
    ensures r == if Trimmable(raw) then Ok(Directory(raw, true)) else Fail
  {
    hide SizeAt, NameAt, Collect, AllStep, DataAt, MarkedAt, Reading, Offsets, StopAt, IsArchive;
    if !IsArchive(raw) { return Fail; }
    var members: map<Text, Bytes> := map[];
    var o := 8;
    ghost var done: seq<nat> := [];
    ReadingStart(raw, true);
    OffsetsStep(raw, 8);
    while HasHeader(raw, o)
      invariant Reading(raw, done, o, true, members)
      invariant forall i :: 0 <= i < |done| ==> HasHeader(raw, done[i]) && MarkedAt(raw, done[i])
      decreases |raw| - o
    {
      if !MarkedAt(raw, o) {
        BadMark(raw, done, o, true, members);
        return Fail;
      }
      var size := SizeAt(raw, o);
      if size.None? {
        ReadingEnd(raw, done, o, true, members);
        return Fail;
      }
      ReadingNext(raw, done, o, true, members);
      DataSlice(raw, o);
      members := members[NameAt(raw, o, true) := Slice(raw, o + HEADER, o + HEADER + size.value)];
      done := done + [o];
      o := o + HEADER + size.value + size.value % 2;
    }
    ReadingEnd(raw, done, o, true, members);
    return Ok(members);
  }

  lemma DataSlice(raw: Bytes, o: nat)
    requires Steps(raw, o)
    ensures DataAt(raw, o) == Slice(raw, o + HEADER, o + HEADER + SizeAt(raw, o).value)
  {
    hide SizeAt;
  }

  /** An unmarked header spoils the archive, readable size or not. */
  lemma BadMark(raw: Bytes, done: seq<nat>, o: nat, trim: bool, members: map<Text, Bytes>)
    requires Reading(raw, done, o, trim, members) && HasHeader(raw, o) && !MarkedAt(raw, o)
    ensures !Trimmable(raw)
  {
    hide SizeAt, Collect, MarkedAt, IsArchive;
    OffsetsStep(raw, 8);
    if Steps(raw, o) { ReadingNext(raw, done, o, trim, members); }
  }

  ghost predicate Tileable(raw: Bytes) { IsArchive(raw) && StopAt(raw, 8) >= |raw| }

  /** Checks no marks and keeps slashes, but refuses a header that is cut short. */
  method DebMembers(raw: Bytes) returns (r: Result<map<Text, Bytes>>)
    ensures r == if Tileable(raw) then Ok(Directory(raw, false)) else Fail
  {
    hide SizeAt, NameAt, Collect, AllStep, DataAt, Reading, Offsets, StopAt, IsArchive;
    if !IsArchive(raw) { return Fail; }
    var members: map<Text, Bytes> := map[];
    var o := 8;
    ghost var done: seq<nat> := [];
    ReadingStart(raw, false);
    OffsetsStep(raw, 8);
    while o < |raw|
      invariant Reading(raw, done, o, false, members)
      decreases |raw| - o
    {
      if o + HEADER > |raw| {
        ReadingEnd(raw, done, o, false, members);
        return Fail;
      }
      var size := SizeAt(raw, o);
      if size.None? {
        ReadingEnd(raw, done, o, false, members);
        return Fail;
      }
      ReadingNext(raw, done, o, false, members);
      DataSlice(raw, o);
      members := members[NameAt(raw, o, false) := Slice(raw, o + HEADER, o + HEADER + size.value)];
      done := done + [o];
      o := o + HEADER + size.value + size.value % 2;
    }
    ReadingEnd(raw, done, o, false, members);
    return Ok(members);
  }

  /* ----- the reader of one member ----- */

  /** The first member of that name: readable headers with good marks up to it, and its data
      all there. */
  predicate FirstAt(raw: Bytes, offs: seq<nat>, k: nat, name: Text) {
    && k < |offs| && AllStep(raw, offs)
    && (forall j :: 0 <= j <= k ==> MarkedAt(raw, offs[j]))
    && (forall j :: 0 <= j < k ==> NameAt(raw, offs[j], true) != name)
    && NameAt(raw, offs[k], true) == name && Whole(raw, offs[k])
  }

  /** Passed over: marked, and of another name. */
  ghost predicate Passed(raw: Bytes, done: seq<nat>, name: Text) {
    forall j :: 0 <= j < |done| ==> HasHeader(raw, done[j]) && MarkedAt(raw, done[j]) && NameAt(raw, done[j], true) != name
  }

  method ArMember(raw: Bytes, name: Text) returns (r: Result<Bytes>)
    ensures r.Ok? <==> IsArchive(raw) && exists k: nat :: FirstAt(raw, Offsets(raw, 8), k, name)
    ensures forall k: nat :: r.Ok? && FirstAt(raw, Offsets(raw, 8), k, name) ==> r.value == DataAt(raw, Offsets(raw, 8)[k])
  {
    hide SizeAt, NameAt, Collect, AllStep, DataAt, MarkedAt, Reading, Offsets, StopAt, IsArchive, FirstAt, Passed;
    if !IsArchive(raw) { return Fail; }
    var o := 8;
    ghost var done: seq<nat>, seen: map<Text, Bytes> := [], map[];
    ReadingStart(raw, true);
    NonePassed(raw, name);
    while HasHeader(raw, o)
      invariant Reading(raw, done, o, true, seen) && Passed(raw, done, name) && o % 2 == 0
      decreases |raw| - o
    {
      FirstIsHere(raw, done, o, seen, name);
      if !MarkedAt(raw, o) { return Fail; }
      var member := NameAt(raw, o, true);
      var size := SizeAt(raw, o);
      if size.None? { return Fail; }
      var start := o + HEADER;
      var end := start + size.value;
      if end > |raw| { return Fail; }
      DataSlice(raw, o);
      if member == name { return Ok(Slice(raw, start, end)); }
      ReadingNext(raw, done, o, true, seen);
      PassedNext(raw, done, o, name);
      EvenNext(o, size.value);
      seen := seen[NameAt(raw, o, true) := DataAt(raw, o)];
      done := done + [o];
      o := end + end % 2;
    }
    FirstIsHere(raw, done, o, seen, name);
    return Fail;
  }

  lemma NonePassed(raw: Bytes, name: Text)
    ensures Passed(raw, [], name)
  {
  }

  lemma PassedNext(raw: Bytes, done: seq<nat>, o: nat, name: Text)
    requires Passed(raw, done, name) && HasHeader(raw, o) && MarkedAt(raw, o) && NameAt(raw, o, true) != name
    ensures Passed(raw, done + [o], name)
  {
    hide MarkedAt, NameAt;
  }

  /** The member sought can be nowhere before `o`; it is at `o` exactly when `o` has that
      name, and beyond `o` only past a marked, whole member of another name. */
  lemma FirstIsHere(raw: Bytes, done: seq<nat>, o: nat, seen: map<Text, Bytes>, name: Text)
    requires Reading(raw, done, o, true, seen) && Passed(raw, done, name)
    ensures forall k: nat :: FirstAt(raw, Offsets(raw, 8), k, name) ==> Steps(raw, o) && MarkedAt(raw, o) && Whole(raw, o) && k >= |done|
    ensures forall k: nat :: FirstAt(raw, Offsets(raw, 8), k, name) && NameAt(raw, o, true) == name ==> Offsets(raw, 8)[k] == o
    ensures Steps(raw, o) && MarkedAt(raw, o) && Whole(raw, o) && NameAt(raw, o, true) == name ==> FirstAt(raw, Offsets(raw, 8), |done|, name)
  {
    hide SizeAt, NameAt, Collect, DataAt, MarkedAt, Offsets;
    var offs, rest := Offsets(raw, 8), Offsets(raw, o);
    OffsetsStep(raw, 8);
    RestHead(raw, o);
    assert forall j :: 0 <= j < |done| ==> offs[j] == done[j];
    forall k: nat | FirstAt(raw, offs, k, name)
      ensures Steps(raw, o) && MarkedAt(raw, o) && Whole(raw, o) && k >= |done| && (NameAt(raw, o, true) == name ==> offs[k] == o)
    {
      assert k >= |done| && offs[|done|] == rest[0] == o;
      assert k > |done| ==> offs[|done| + 1] == rest[1];
    }
    if Steps(raw, o) && MarkedAt(raw, o) && Whole(raw, o) && NameAt(raw, o, true) == name {
      assert offs[|done|] == rest[0] == o;
    }
  }

  lemma RestHead(raw: Bytes, o: nat)
    ensures Steps(raw, o) <==> Offsets(raw, o) != []
    ensures Steps(raw, o) ==> Offsets(raw, o)[0] == o
    ensures Steps(raw, o) && |Offsets(raw, o)| > 1 ==> Whole(raw, o)
  {
    hide SizeAt;
  }
}
