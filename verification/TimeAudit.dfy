/** The time audit of an ext4 image: where every inode lies, and which of its times are
    outside the closed set. */
module TimeAudit {
  import opened ByteStrings

  const SUPERBLOCK_OFFSET: nat := 1024
  const SUPERBLOCK_MAGIC: nat := 0xEF53
  const MINIMUM_DESCRIPTOR_SIZE: nat := 32
  const BASE_INODE_SIZE: nat := 128
  const EXTRA_ISIZE_OFFSET: nat := 0x80
  const CRTIME_OFFSET: nat := 0x90
  const CRTIME_END: nat := 0x94
  const WALL_CLOCK_LOWER_BOUND: nat := 1000000

  /* ----- reading ----- */

  function U16(raw: Bytes, at: nat): nat
    requires at + 2 <= |raw|
  {
    raw[at] as nat + 0x100 * raw[at + 1] as nat
  }

  function U32(raw: Bytes, at: nat): nat
    requires at + 4 <= |raw|
  {
    U16(raw, at) + 0x1_0000 * U16(raw, at + 2)
  }

  /** Exactly `length` bytes, or a refusal. */
  function Read(image: Bytes, at: nat, length: nat): (r: Result<Bytes>)
    ensures r.Ok? <==> (at + length <= |image| || length == 0)
    ensures r.Ok? ==> |r.value| == length
  {
    if at + length <= |image| then Ok(image[at..at + length]) else if length == 0 then Ok([]) else Fail
  }

  function CeilDiv(a: int, b: int): int
    requires b > 0
  {
    -(-a / b)
  }

  function Pow2(n: nat): nat { if n == 0 then 1 else 2 * Pow2(n - 1) }

  /* ----- the shape of the filesystem ----- */

  datatype SuperTimes = SuperTimes(lastcheck: nat, mkfs: nat, mtime: nat, wtime: nat)

  datatype Shape = Shape(blockSize: nat, descriptorSize: nat, firstDataBlock: nat, groupCount: int, inodeSize: nat,
                         inodesCount: nat, inodesPerGroup: nat, sixtyFourBit: bool, times: SuperTimes)

  predicate GoodShape(s: Shape) {
    && s.descriptorSize >= MINIMUM_DESCRIPTOR_SIZE && s.inodeSize >= BASE_INODE_SIZE && s.inodesPerGroup > 0
    && s.groupCount == CeilDiv(s.inodesCount, s.inodesPerGroup)
  }

  function ShapeOf(raw: Bytes): Shape
    requires |raw| == 1024 && U32(raw, 0x28) > 0
  {
    var sixtyFour := U32(raw, 0x60) / 0x80 % 2 == 1;
    var descriptor := U16(raw, 0xFE);
    Shape(1024 * Pow2(U32(raw, 0x18)),
          if !sixtyFour || descriptor < MINIMUM_DESCRIPTOR_SIZE then MINIMUM_DESCRIPTOR_SIZE else descriptor,
          U32(raw, 0x14), CeilDiv(U32(raw, 0x00), U32(raw, 0x28)), U16(raw, 0x58), U32(raw, 0x00), U32(raw, 0x28), sixtyFour,
          SuperTimes(U32(raw, 0x40), U32(raw, 0x108), U32(raw, 0x2C), U32(raw, 0x30)))
  }

  function Geometry(image: Bytes): (r: Result<Shape>)
    ensures r.Ok? ==> GoodShape(r.value)
  {
    var raw := Read(image, SUPERBLOCK_OFFSET, 1024);
    if raw.Fail? || U16(raw.value, 0x38) != SUPERBLOCK_MAGIC || U16(raw.value, 0x58) < BASE_INODE_SIZE || U32(raw.value, 0x28) == 0
    then Fail
    else Ok(ShapeOf(raw.value))
  }

  function Scaled(blocks: nat, blockSize: nat): nat { blocks * blockSize }

  function DescriptorAt(s: Shape, group: nat): nat {
    Scaled(s.firstDataBlock + 1, s.blockSize) + Scaled(group, s.descriptorSize)
  }

  function TableBlock(s: Shape, raw: Bytes): nat
    requires |raw| == s.descriptorSize >= MINIMUM_DESCRIPTOR_SIZE
  {
    if s.sixtyFourBit && s.descriptorSize >= 0x2C then U32(raw, 0x08) + 0x1_0000_0000 * U32(raw, 0x28) else U32(raw, 0x08)
  }

  function TableOffset(image: Bytes, s: Shape, group: nat): Result<nat>
    requires GoodShape(s)
  {
    var raw := Read(image, DescriptorAt(s, group), s.descriptorSize);
    if raw.Fail? then Fail else Ok(Scaled(TableBlock(s, raw.value), s.blockSize))
  }

  function GroupSize(s: Shape, group: nat): int {
    if s.inodesCount - group * s.inodesPerGroup < s.inodesPerGroup then s.inodesCount - group * s.inodesPerGroup else s.inodesPerGroup
  }

  /** One group's inode table. */
  function Table(image: Bytes, s: Shape, group: nat): Result<Bytes>
    requires GoodShape(s) && GroupSize(s, group) >= 0
  {
    var at := TableOffset(image, s, group);
    if at.Fail? then Fail else Read(image, at.value, s.inodeSize * GroupSize(s, group))
  }

  /* ----- groups and inode numbers ----- */

  lemma GroupBound(s: Shape, group: nat)
    requires GoodShape(s)
    ensures group < s.groupCount <==> group * s.inodesPerGroup < s.inodesCount
    ensures s.groupCount >= 0
  {
    var n: int, per: int := s.inodesCount, s.inodesPerGroup;
    var q := -n / per;
    assert -n == q * per + (-n) % per;
    assert s.groupCount == -q;
    if group < -q {
      MulLe(group, -q - 1, per);
    } else {
      MulLe(-q, group, per);
    }
  }

  lemma MulLe(a: int, b: int, c: nat)
    requires a <= b
    ensures a * c <= b * c && (a + 1) * c == a * c + c && (b + 1) * c == b * c + c
  {
    if a < b { assert (b - a) * c >= 0; }
  }

  /** Each inode number lies in one group, at one index. */
  lemma Located(per: nat, group: nat, index: nat)
    requires index < per
    ensures (group * per + index) / per == group && (group * per + index) % per == index
  {
    var n := group * per + index;
    var q := n / per;
    assert n == q * per + n % per;
    if q < group { MulLe(q + 1, group, per); }
    if q > group { MulLe(group + 1, q, per); }
  }

  /* ----- times ----- */

  datatype Field = Atime | Ctime | Mtime | Dtime | Crtime | SLastcheck | SMkfs | SMtime | SWtime
  datatype Place = Superblock | Inode(number: nat)
  datatype Violation = Violation(field: Field, value: nat, wallClock: bool, place: Place)

  /** The closed set of times. */
  predicate Allowed(value: nat) { value == 0 || value == 1 }

  function Offence(field: Field, value: nat, place: Place): seq<Violation> {
    if Allowed(value) then [] else [Violation(field, value, value >= WALL_CLOCK_LOWER_BOUND, place)]
  }

  /** The times among these that are outside the closed set. */
  function Offending(times: seq<(Field, nat)>, place: Place): seq<Violation> {
    if times == [] then []
    else
      var (field, value) := times[|times| - 1];
      Offending(times[..|times| - 1], place) + Offence(field, value, place)
  }

  lemma {:induction false} OffendingEmpty(times: seq<(Field, nat)>, place: Place)
    ensures Offending(times, place) == [] <==> forall i :: 0 <= i < |times| ==> Allowed(times[i].1)
    decreases |times|
  {
    hide Allowed;
    if times != [] { OffendingEmpty(times[..|times| - 1], place); }
  }

  lemma OffendingNext(times: seq<(Field, nat)>, k: nat, place: Place)
    requires k < |times|
    ensures Offending(times[..k + 1], place) == Offending(times[..k], place) + Offence(times[k].0, times[k].1, place)
  {
    assert times[..k + 1][..k] == times[..k];
  }

  /** The superblock's times, by name. */
  function SuperTimeList(t: SuperTimes): seq<(Field, nat)> {
    [(SLastcheck, t.lastcheck), (SMkfs, t.mkfs), (SMtime, t.mtime), (SWtime, t.wtime)]
  }

  function SuperOffences(t: SuperTimes): seq<Violation> { Offending(SuperTimeList(t), Superblock) }

  predicate HasCrtime(raw: Bytes)
    requires |raw| >= BASE_INODE_SIZE
  {
    |raw| >= CRTIME_END && BASE_INODE_SIZE + U16(raw, EXTRA_ISIZE_OFFSET) >= CRTIME_END
  }

  /** Every time an inode's own bytes hold. */
  function InodeTimes(raw: Bytes): seq<(Field, nat)>
    requires |raw| >= BASE_INODE_SIZE
  {
    [(Atime, U32(raw, 0x08)), (Ctime, U32(raw, 0x0C)), (Mtime, U32(raw, 0x10)), (Dtime, U32(raw, 0x14))]
    + if HasCrtime(raw) then [(Crtime, U32(raw, CRTIME_OFFSET))] else []
  }

  function InodeOffences(raw: Bytes, number: nat): seq<Violation>
    requires |raw| >= BASE_INODE_SIZE
  {
    Offending(InodeTimes(raw), Inode(number))
  }

  predicate InodeClean(raw: Bytes)
    requires |raw| >= BASE_INODE_SIZE
  {
    && Allowed(U32(raw, 0x08)) && Allowed(U32(raw, 0x0C)) && Allowed(U32(raw, 0x10)) && Allowed(U32(raw, 0x14))
    && (HasCrtime(raw) ==> Allowed(U32(raw, CRTIME_OFFSET)))
  }

  predicate SuperClean(t: SuperTimes) { Allowed(t.lastcheck) && Allowed(t.mkfs) && Allowed(t.mtime) && Allowed(t.wtime) }

  /* ----- the image, inode by inode ----- */

  predicate GroupReadable(image: Bytes, s: Shape, group: nat)
    requires GoodShape(s)
  {
    GroupSize(s, group) >= 0 && Table(image, s, group).Ok?
  }

  predicate Readable(image: Bytes, s: Shape)
    requires GoodShape(s)
  {
    forall g :: 0 <= g < s.groupCount ==> GroupReadable(image, s, g)
  }

  lemma InodeLies(s: Shape, number: nat)
    requires GoodShape(s) && 1 <= number <= s.inodesCount
    ensures var group, index := (number - 1) / s.inodesPerGroup, (number - 1) % s.inodesPerGroup;
      0 <= group < s.groupCount && 0 <= index < GroupSize(s, group)
      && 0 <= index * s.inodeSize && index * s.inodeSize + s.inodeSize <= s.inodeSize * GroupSize(s, group)
  {
    hide GoodShape;
    PositivePerGroup(s);
    var per: int := s.inodesPerGroup;
    var n := number - 1;
    var group, index := n / per, n % per;
    assert n == group * per + index;
    NonNegative(n, per);
    GroupBound(s, group);
    MulLe(index + 1, GroupSize(s, group), s.inodeSize);
    MulLe(index, index + 1, s.inodeSize);
    MulNonNegative(index, s.inodeSize);
  }

  lemma PositivePerGroup(s: Shape)
    requires GoodShape(s)
    ensures s.inodesPerGroup > 0
  {
  }

  lemma NonNegative(n: int, per: int)
    requires n >= 0 && per > 0
    ensures n / per >= 0
  {
  }

  lemma MulNonNegative(a: int, b: int)
    requires a >= 0 && b >= 0
    ensures a * b >= 0
  {
  }

  /** The bytes of inode `number`: found by dividing its number, with no loop.  An inode
      whose table cannot be read is taken as blank; the audit refuses such an image. */
  ghost function InodeBytes(image: Bytes, s: Shape, number: nat): (raw: Bytes)
    requires GoodShape(s) && 1 <= number <= s.inodesCount
    ensures |raw| == s.inodeSize >= BASE_INODE_SIZE
  {
    InodeLies(s, number);
    var group, index := (number - 1) / s.inodesPerGroup, (number - 1) % s.inodesPerGroup;
    if GroupReadable(image, s, group) then Table(image, s, group).value[index * s.inodeSize..index * s.inodeSize + s.inodeSize]
    else seq(s.inodeSize, _ => 0)
  }

  /** The offences of inodes 1 to `upTo`, in order. */
  ghost function Offences(image: Bytes, s: Shape, upTo: int): seq<Violation>
    requires GoodShape(s) && upTo <= s.inodesCount
    decreases upTo
  {
    if upTo <= 0 then [] else Offences(image, s, upTo - 1) + InodeOffences(InodeBytes(image, s, upTo), upTo)
  }

  lemma {:induction false} OffencesEmpty(image: Bytes, s: Shape, upTo: nat)
    requires GoodShape(s) && upTo <= s.inodesCount
    ensures Offences(image, s, upTo) == [] <==> forall n :: 1 <= n <= upTo ==> InodeClean(InodeBytes(image, s, n))
    decreases upTo
  {
    hide GoodShape, InodeBytes, InodeOffences, InodeClean;
    if upTo > 0 {
      OffencesEmpty(image, s, upTo - 1);
      OffenceFree(InodeBytes(image, s, upTo), upTo);
    }
  }

  lemma OffenceFree(raw: Bytes, number: nat)
    requires |raw| >= BASE_INODE_SIZE
    ensures InodeOffences(raw, number) == [] <==> InodeClean(raw)
  {
    hide U32, U16, Offending, Allowed;
    OffendingEmpty(InodeTimes(raw), Inode(number));
    var times := InodeTimes(raw);
    assert times[0].1 == U32(raw, 0x08) && times[1].1 == U32(raw, 0x0C) && times[2].1 == U32(raw, 0x10) && times[3].1 == U32(raw, 0x14);
    assert HasCrtime(raw) ==> times[4].1 == U32(raw, CRTIME_OFFSET);
  }

  lemma SuperFree(t: SuperTimes)
    ensures SuperOffences(t) == [] <==> SuperClean(t)
  {
    hide Offending, Allowed;
    OffendingEmpty(SuperTimeList(t), Superblock);
    var times := SuperTimeList(t);
    assert times[0].1 == t.lastcheck && times[1].1 == t.mkfs && times[2].1 == t.mtime && times[3].1 == t.wtime;
  }

  /* ----- the audit ----- */

  const INODE_TIME_FIELDS: seq<(Field, nat)> := [(Atime, 0x08), (Ctime, 0x0C), (Mtime, 0x10), (Dtime, 0x14)]

  lemma SliceReads(table: Bytes, base: nat, size: nat, at: nat)
    requires base + size <= |table|
    ensures at + 4 <= size ==> U32(table, base + at) == U32(table[base..base + size], at)
    ensures at + 2 <= size ==> U16(table, base + at) == U16(table[base..base + size], at)
  {
  }

  /** The fields of one inode, each read inside that inode's own bytes. */
  method AuditInode(table: Bytes, base: nat, size: nat, number: nat) returns (v: seq<Violation>)
    requires base + size <= |table| && size >= BASE_INODE_SIZE
    ensures v == InodeOffences(table[base..base + size], number)
  {
    hide U32, U16, Offence, Offending;
    ghost var times := InodeTimes(table[base..base + size]);
    v := [];
    NoneOffending(times, Inode(number));
    for k := 0 to 4
      invariant v == Offending(times[..k], Inode(number))
    {
      var (name, field) := INODE_TIME_FIELDS[k];
      SliceReads(table, base, size, field);
      OffendingNext(times, k, Inode(number));
      v := v + Offence(name, U32(table, base + field), Inode(number));
    }
    SliceReads(table, base, size, EXTRA_ISIZE_OFFSET);
    SliceReads(table, base, size, CRTIME_OFFSET);
    assert times[..|times|] == times;
    if size < CRTIME_END { return; }
    var extra := U16(table, base + EXTRA_ISIZE_OFFSET);
    if BASE_INODE_SIZE + extra < CRTIME_END { return; }
    OffendingNext(times, 4, Inode(number));
    v := v + Offence(Crtime, U32(table, base + CRTIME_OFFSET), Inode(number));
  }

  lemma NoneOffending(times: seq<(Field, nat)>, place: Place)
    ensures Offending(times[..0], place) == []
  {
  }

  method AuditSuperblock(t: SuperTimes) returns (v: seq<Violation>)
    ensures v == SuperOffences(t)
  {
    hide Offence, Offending;
    var times := SuperTimeList(t);
    v := [];
    NoneOffending(times, Superblock);
    for k := 0 to |times|
      invariant v == Offending(times[..k], Superblock)
    {
      OffendingNext(times, k, Superblock);
      v := v + Offence(times[k].0, times[k].1, Superblock);
    }
    assert times[..|times|] == times;
  }

  /** Inode numbers `from + 1` to `from + count`. */
  function Numbers(from: nat, count: nat): (ns: seq<nat>)
    ensures |ns| == count && forall i :: 0 <= i < count ==> ns[i] == from + i + 1
  {
    seq(count, i => from + i + 1)
  }

  lemma GroupFacts(s: Shape, group: nat)
    requires GoodShape(s) && group < s.groupCount
    ensures 0 < GroupSize(s, group) <= s.inodesPerGroup && group * s.inodesPerGroup + GroupSize(s, group) <= s.inodesCount
    ensures 0 <= group * s.inodesPerGroup
  {
    GroupBound(s, group);
    MulNonNegative(group, s.inodesPerGroup);
  }

  /** Inside a group's table, the next slot is the next inode. */
  lemma SlotIsInode(image: Bytes, s: Shape, group: nat, index: nat)
    requires GoodShape(s) && group < s.groupCount && index < GroupSize(s, group) && GroupReadable(image, s, group)
    ensures 0 <= index * s.inodeSize && index * s.inodeSize + s.inodeSize <= |Table(image, s, group).value|
    ensures 1 <= group * s.inodesPerGroup + index + 1 <= s.inodesCount
    ensures InodeBytes(image, s, group * s.inodesPerGroup + index + 1)
            == Table(image, s, group).value[index * s.inodeSize..index * s.inodeSize + s.inodeSize]
  {
    hide TableOffset, GroupReadable;
    GroupFacts(s, group);
    Located(s.inodesPerGroup, group, index);
    var number := group * s.inodesPerGroup + index + 1;
    assert (number - 1) / s.inodesPerGroup == group && (number - 1) % s.inodesPerGroup == index;
    InodeLies(s, number);
    TableLength(image, s, group);
  }

  lemma TableLength(image: Bytes, s: Shape, group: nat)
    requires GoodShape(s) && GroupReadable(image, s, group)
    ensures |Table(image, s, group).value| == s.inodeSize * GroupSize(s, group)
  {
    hide TableOffset, GoodShape;
    MulNonNegative(s.inodeSize, GroupSize(s, group));
  }

  lemma OffencesNext(image: Bytes, s: Shape, group: nat, index: nat, v: seq<Violation>, more: seq<Violation>)
    requires GoodShape(s) && group < s.groupCount && index < GroupSize(s, group) && GroupReadable(image, s, group)
    requires var start := group * s.inodesPerGroup;
      start + index + 1 <= s.inodesCount && Offences(image, s, start) + v == Offences(image, s, start + index)
    requires index * s.inodeSize >= 0 && index * s.inodeSize + s.inodeSize <= |Table(image, s, group).value|
    requires more == InodeOffences(Table(image, s, group).value[index * s.inodeSize..index * s.inodeSize + s.inodeSize], group * s.inodesPerGroup + index + 1)
    ensures Offences(image, s, group * s.inodesPerGroup) + (v + more) == Offences(image, s, group * s.inodesPerGroup + index + 1)
  {
    hide InodeOffences, InodeBytes, Table, GroupReadable, GoodShape;
    SlotIsInode(image, s, group, index);
    var start := group * s.inodesPerGroup;
    assert Offences(image, s, start) + (v + more) == Offences(image, s, start) + v + more;
  }

  /** One group: every inode its table holds, each once. */
  method AuditGroup(image: Bytes, s: Shape, group: nat, count: nat) returns (r: Result<seq<Violation>>, ghost numbers: seq<nat>)
    requires GoodShape(s) && group < s.groupCount && count == GroupSize(s, group)
    ensures r.Ok? <==> GroupReadable(image, s, group)
    ensures group * s.inodesPerGroup + count <= s.inodesCount
    ensures r.Ok? ==> Offences(image, s, group * s.inodesPerGroup) + r.value == Offences(image, s, group * s.inodesPerGroup + count)
    ensures r.Ok? ==> 0 <= group * s.inodesPerGroup && numbers == Numbers(group * s.inodesPerGroup, count)
  {
    hide InodeOffences, Offences, Table, Read, TableOffset, GoodShape, GroupSize;
    numbers := [];
    GroupFacts(s, group);
    var table := Table(image, s, group);
    if table.Fail? { return Fail, numbers; }
    var v: seq<Violation> := [];
    for index := 0 to count
      invariant Offences(image, s, group * s.inodesPerGroup) + v == Offences(image, s, group * s.inodesPerGroup + index)
      invariant numbers == Numbers(group * s.inodesPerGroup, index)
    {
      SlotIsInode(image, s, group, index);
      BigEnough(s);
      var base := index * s.inodeSize;
      var number := group * s.inodesPerGroup + index + 1;
      var more := AuditInode(table.value, base, s.inodeSize, number);
      OffencesNext(image, s, group, index, v, more);
      v := v + more;
      numbers := numbers + [number];
    }
    r := Ok(v);
  }

  lemma BigEnough(s: Shape)
    requires GoodShape(s)
    ensures s.inodeSize >= BASE_INODE_SIZE
  {
  }

  datatype Report = Report(shape: Shape, inodesRead: nat, passed: bool, violationCount: nat, violations: seq<Violation>)

  /** Inodes in the groups before `group`. */
  function Before(s: Shape, group: nat): int {
    if group * s.inodesPerGroup <= s.inodesCount then group * s.inodesPerGroup else s.inodesCount
  }

  lemma BeforeNext(s: Shape, group: nat)
    requires GoodShape(s) && group < s.groupCount
    ensures Before(s, group) == group * s.inodesPerGroup && 0 <= Before(s, group)
    ensures Before(s, group + 1) == Before(s, group) + GroupSize(s, group) <= s.inodesCount
    ensures GroupSize(s, group) == if s.inodesPerGroup <= s.inodesCount - Before(s, group) then s.inodesPerGroup else s.inodesCount - Before(s, group)
    ensures GroupSize(s, group) >= 0
  {
    GroupFacts(s, group);
    MulLe(group, group, s.inodesPerGroup);
  }

  lemma BeforeEnds(s: Shape)
    requires GoodShape(s)
    ensures Before(s, 0) == 0 && s.groupCount >= 0 && Before(s, s.groupCount) == s.inodesCount
  {
    GroupBound(s, 0);
    GroupBound(s, s.groupCount);
  }

  lemma NumbersConcat(from: nat, a: nat, b: nat)
    ensures Numbers(from, a) + Numbers(from + a, b) == Numbers(from, a + b)
  {
  }

  lemma NothingBefore(image: Bytes, s: Shape)
    requires GoodShape(s)
    ensures Offences(image, s, 0) == []
  {
  }

  lemma GroupRefused(image: Bytes, s: Shape, group: nat)
    requires GoodShape(s) && 0 <= group < s.groupCount && !GroupReadable(image, s, group)
    ensures !Readable(image, s)
  {
    hide GoodShape, GroupReadable;
  }

  /** All groups.  Fails exactly when some group's descriptor or table runs past the image. */
  method AuditGroups(image: Bytes, s: Shape) returns (r: Result<seq<Violation>>, inodesRead: nat, ghost numbers: seq<nat>)
    requires GoodShape(s)
    ensures r.Ok? <==> Readable(image, s)
    ensures r.Ok? ==> r.value == Offences(image, s, s.inodesCount) && inodesRead == s.inodesCount && numbers == Numbers(0, s.inodesCount)
  {
    hide GoodShape, GroupReadable, Offences, Before, GroupSize;
    var v: seq<Violation> := [];
    inodesRead, numbers := 0, [];
    var remaining: int := s.inodesCount;
    BeforeEnds(s);
    NothingBefore(image, s);
    for group := 0 to s.groupCount
      invariant 0 <= Before(s, group) <= s.inodesCount && remaining == s.inodesCount - Before(s, group)
      invariant v == Offences(image, s, Before(s, group)) && inodesRead == Before(s, group)
      invariant numbers == Numbers(0, Before(s, group))
      invariant forall g :: 0 <= g < group ==> GroupReadable(image, s, g)
    {
      BeforeNext(s, group);
      var count: int := if s.inodesPerGroup <= remaining then s.inodesPerGroup else remaining;
      remaining := remaining - count;
      var one, these := AuditGroup(image, s, group, count);
      if one.Fail? {
        GroupRefused(image, s, group);
        return Fail, inodesRead, numbers;
      }
      NumbersConcat(0, Before(s, group), count);
      v := v + one.value;
      inodesRead := inodesRead + count;
      numbers := numbers + these;
    }
    r := Ok(v);
  }

  /** The audit returns exactly on readable images.  Then each inode 1 to the inode count was
      read once, in order, and it passes exactly when every superblock time and every time
      of every inode, creation time included where there is one, is in the closed set. */
  method Audit(image: Bytes) returns (r: Result<Report>, ghost numbers: seq<nat>)
    ensures r.Ok? <==> Geometry(image).Ok? && Readable(image, Geometry(image).value)
    ensures r.Ok? ==> var s := r.value.shape;
      && Geometry(image) == Ok(s) && r.value.inodesRead == s.inodesCount && numbers == Numbers(0, s.inodesCount)
      && (r.value.passed <==> SuperClean(s.times) && forall n :: 1 <= n <= s.inodesCount ==> InodeClean(InodeBytes(image, s, n)))
      && var all := SuperOffences(s.times) + Offences(image, s, s.inodesCount);
         r.value.violationCount == |all| && r.value.violations == if |all| <= 64 then all else all[..64]
  {
    hide Geometry, GoodShape, Readable, Offences, InodeBytes, InodeClean, SuperOffences, SuperClean;
    numbers := [];
    var shape := Geometry(image);
    if shape.Fail? { return Fail, numbers; }
    var s := shape.value;
    var super := AuditSuperblock(s.times);
    var rest, inodesRead, all := AuditGroups(image, s);
    numbers := all;
    if rest.Fail? { return Fail, numbers; }
    SuperFree(s.times);
    OffencesEmpty(image, s, s.inodesCount);
    var v := super + rest.value;
    r := Ok(Report(s, inodesRead, |v| == 0, |v|, if |v| <= 64 then v else v[..64]));
  }
}
