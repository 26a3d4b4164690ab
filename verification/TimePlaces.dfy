/** Where in the image the audit looks: every value it reads as a little-endian number at its
    absolute bytes, and every violation it can report. */
module TimePlaces {
  import opened ByteStrings
  import opened TimeAudit

  /** A little-endian number. */
  function Number(bytes: Bytes): nat { if bytes == [] then 0 else bytes[0] as nat + 0x100 * Number(bytes[1..]) }

  lemma NumberTwo(raw: Bytes, at: nat)
    requires at + 2 <= |raw|
    ensures U16(raw, at) == Number(raw[at..at + 2])
  {
    var two := raw[at..at + 2];
    assert two[1..] == [two[1]] && [two[1]][1..] == [];
    assert Number([two[1]]) == two[1] as nat;
  }

  lemma NumberFour(raw: Bytes, at: nat)
    requires at + 4 <= |raw|
    ensures U32(raw, at) == Number(raw[at..at + 4])
  {
    hide U16;
    NumberTwo(raw, at);
    NumberTwo(raw, at + 2);
    var low, high := raw[at..at + 2], raw[at + 2..at + 4];
    assert raw[at..at + 4] == low + high;
    NumberAppend(low, high);
  }

  lemma NumberAppend(low: Bytes, high: Bytes)
    requires |low| == 2
    ensures Number(low + high) == Number(low) + 0x1_0000 * Number(high)
  {
    var all := low + high;
    assert all[1..] == [low[1]] + high && ([low[1]] + high)[1..] == high;
    assert low[1..] == [low[1]] && [low[1]][1..] == [];
    assert Number([low[1]]) == low[1] as nat;
    assert Number(all[1..]) == low[1] as nat + 0x100 * Number(high);
  }

  /** A block size doubles with every step of its exponent. */
  lemma {:induction false} PowerAdds(a: nat, b: nat)
    ensures Pow2(a + b) == Pow2(a) * Pow2(b) && Pow2(1) == 2
    decreases a
  {
    if a > 0 {
      PowerAdds(a - 1, b);
      assert 2 * (Pow2(a - 1) * Pow2(b)) == (2 * Pow2(a - 1)) * Pow2(b);
    }
  }

  /* ----- the superblock ----- */

  predicate HasSuperblock(image: Bytes) { |image| >= 2048 }

  /** Every field of the shape, at its place in the image. */
  predicate ShapeLies(image: Bytes, s: Shape)
    requires HasSuperblock(image)
  {
    && s.inodesCount == Number(image[1024..1028]) && s.firstDataBlock == Number(image[1044..1048])
    && s.blockSize == 1024 * Pow2(Number(image[1048..1052])) && s.inodesPerGroup == Number(image[1064..1068])
    && s.inodeSize == Number(image[1112..1114]) && (s.sixtyFourBit <==> Number(image[1120..1124]) / 128 % 2 == 1)
    && s.descriptorSize == (if s.sixtyFourBit && Number(image[1278..1280]) >= 32 then Number(image[1278..1280]) else 32)
    && s.times.mtime == Number(image[1068..1072]) && s.times.wtime == Number(image[1072..1076])
    && s.times.lastcheck == Number(image[1088..1092]) && s.times.mkfs == Number(image[1288..1292])
  }

  lemma SuperSlice(image: Bytes, at: nat, n: nat)
    requires HasSuperblock(image) && at + n <= 1024
    ensures image[1024..2048][at..at + n] == image[1024 + at..1024 + at + n]
  {
  }

  lemma SuperNumbers(image: Bytes)
    requires HasSuperblock(image)
    ensures var raw := image[1024..2048];
      && U32(raw, 0x00) == Number(image[1024..1028]) && U32(raw, 0x14) == Number(image[1044..1048]) && U32(raw, 0x18) == Number(image[1048..1052])
      && U32(raw, 0x28) == Number(image[1064..1068]) && U32(raw, 0x2C) == Number(image[1068..1072]) && U32(raw, 0x30) == Number(image[1072..1076])
      && U16(raw, 0x38) == Number(image[1080..1082]) && U32(raw, 0x40) == Number(image[1088..1092]) && U16(raw, 0x58) == Number(image[1112..1114])
      && U32(raw, 0x60) == Number(image[1120..1124]) && U16(raw, 0xFE) == Number(image[1278..1280]) && U32(raw, 0x108) == Number(image[1288..1292])
  {
    hide U16, U32, Number;
    var raw := image[1024..2048];
    forall at | at in [0x00, 0x14, 0x18, 0x28, 0x2C, 0x30, 0x40, 0x60, 0x108] ensures U32(raw, at) == Number(image[1024 + at..1028 + at]) {
      NumberFour(raw, at);
      SuperSlice(image, at, 4);
    }
    forall at | at in [0x38, 0x58, 0xFE] ensures U16(raw, at) == Number(image[1024 + at..1026 + at]) {
      NumberTwo(raw, at);
      SuperSlice(image, at, 2);
    }
    assert 0x00 in [0x00, 0x14, 0x18, 0x28, 0x2C, 0x30, 0x40, 0x60, 0x108];
  }

  /** A superblock is accepted exactly when it is all there, has the magic number, inodes of at
      least 128 bytes and a positive number of them per group; then the shape is what the
      image's bytes say. */
  lemma GeometryExact(image: Bytes)
    ensures Geometry(image).Ok? <==>
      HasSuperblock(image) && Number(image[1080..1082]) == 0xEF53 && Number(image[1112..1114]) >= 128 && Number(image[1064..1068]) > 0
    ensures Geometry(image).Ok? ==> ShapeLies(image, Geometry(image).value)
  {
    hide U16, U32, Number, Pow2;
    if HasSuperblock(image) {
      SuperNumbers(image);
      assert Read(image, 1024, 1024) == Ok(image[1024..2048]);
    }
  }

  /* ----- inodes ----- */

  /** Where a group's descriptor starts. */
  function DescriptorStart(s: Shape, group: nat): nat { (s.firstDataBlock + 1) * s.blockSize + group * s.descriptorSize }

  /** Where a group's inode table starts, from the descriptor's bytes. */
  function TableStart(image: Bytes, s: Shape, group: nat): nat
    requires s.descriptorSize >= 32 && DescriptorStart(s, group) + s.descriptorSize <= |image|
  {
    var d := DescriptorStart(s, group);
    var block := Number(image[d + 8..d + 12])
                 + if s.sixtyFourBit && s.descriptorSize >= 44 then 0x1_0000_0000 * Number(image[d + 40..d + 44]) else 0;
    block * s.blockSize
  }

  lemma TableExact(image: Bytes, s: Shape, group: nat)
    requires GoodShape(s)
    ensures TableOffset(image, s, group).Ok? <==> DescriptorStart(s, group) + s.descriptorSize <= |image|
    ensures TableOffset(image, s, group).Ok? ==> TableOffset(image, s, group).value == TableStart(image, s, group)
  {
    hide U32, Number, CeilDiv, DescriptorStart, DescriptorAt;
    DescriptorPlace(s, group);
    var d := DescriptorStart(s, group);
    if d + s.descriptorSize <= |image| { DescriptorNumbers(image, d, s.descriptorSize); }
  }

  lemma DescriptorPlace(s: Shape, group: nat)
    ensures DescriptorAt(s, group) == DescriptorStart(s, group)
  {
  }

  lemma DescriptorNumbers(image: Bytes, d: nat, size: nat)
    requires 32 <= size && d + size <= |image|
    ensures U32(image[d..d + size], 0x08) == Number(image[d + 8..d + 12])
    ensures size >= 44 ==> U32(image[d..d + size], 0x28) == Number(image[d + 40..d + 44])
  {
    hide U32, Number;
    var raw := image[d..d + size];
    NumberFour(raw, 0x08);
    Subslice(image, d, d + size, 0x08, 0x0C);
    if size >= 44 {
      NumberFour(raw, 0x28);
      Subslice(image, d, d + size, 0x28, 0x2C);
    }
  }

  /** A group can be read exactly when its descriptor and its inodes lie in the image. */
  lemma GroupReadableExact(image: Bytes, s: Shape, group: nat)
    requires GoodShape(s) && group < s.groupCount
    ensures GroupReadable(image, s, group) <==>
      && DescriptorStart(s, group) + s.descriptorSize <= |image|
      && TableStart(image, s, group) + s.inodeSize * GroupSize(s, group) <= |image|
    ensures s.inodeSize * GroupSize(s, group) > 0
    ensures GroupReadable(image, s, group) ==>
      Table(image, s, group).value == image[TableStart(image, s, group)..TableStart(image, s, group) + s.inodeSize * GroupSize(s, group)]
  {
    hide TableOffset, TableStart, DescriptorStart, CeilDiv, GroupSize;
    GroupFacts(s, group);
    TableExact(image, s, group);
    Positive(s.inodeSize, GroupSize(s, group));
  }

  lemma Positive(a: int, b: int)
    requires a > 0 && b > 0
    ensures a * b > 0
  {
  }

  /** Where inode `n` starts: its group by dividing its number, its slot by the remainder. */
  ghost function InodeStart(image: Bytes, s: Shape, n: nat): nat
    requires GoodShape(s) && 1 <= n <= s.inodesCount && Readable(image, s)
  {
    var group, index := (n - 1) / s.inodesPerGroup, (n - 1) % s.inodesPerGroup;
    InodeLies(s, n);
    GroupReadableExact(image, s, group);
    TableStart(image, s, group) + index * s.inodeSize
  }

  /** An inode's bytes are the image's bytes from there on. */
  lemma InodePlace(image: Bytes, s: Shape, n: nat)
    requires GoodShape(s) && 1 <= n <= s.inodesCount && Readable(image, s)
    ensures InodeStart(image, s, n) + s.inodeSize <= |image|
    ensures InodeBytes(image, s, n) == image[InodeStart(image, s, n)..InodeStart(image, s, n) + s.inodeSize]
  {
    hide TableStart, DescriptorStart, GroupReadable, Table, CeilDiv, GroupSize;
    var group, index := (n - 1) / s.inodesPerGroup, (n - 1) % s.inodesPerGroup;
    InodeLies(s, n);
    assert GroupReadable(image, s, group);
    GroupReadableExact(image, s, group);
    var at, lo, size := TableStart(image, s, group), index * s.inodeSize, s.inodeSize * GroupSize(s, group);
    Subslice(image, at, at + size, lo, lo + s.inodeSize);
  }

  lemma Subslice(image: Bytes, a: nat, b: nat, lo: nat, hi: nat)
    requires a <= b <= |image| && lo <= hi <= b - a
    ensures image[a..b][lo..hi] == image[a + lo..a + hi]
  {
    var x, y := image[a..b][lo..hi], image[a + lo..a + hi];
    forall i | 0 <= i < hi - lo ensures x[i] == y[i] { assert x[i] == image[a..b][lo + i] == image[a + lo + i]; }
  }

  /* ----- what is reported ----- */

  predicate Canonical(value: nat) { value == 0 || value == 1 }

  predicate SuperHolds(image: Bytes, field: Field, value: nat)
    requires HasSuperblock(image)
  {
    || (field == SMtime && value == Number(image[1068..1072])) || (field == SWtime && value == Number(image[1072..1076]))
    || (field == SLastcheck && value == Number(image[1088..1092])) || (field == SMkfs && value == Number(image[1288..1292]))
  }

  /** The times of an inode that starts at `at`; the creation time if the inode is long enough
      and says so. */
  predicate InodeHolds(image: Bytes, at: nat, size: nat, field: Field, value: nat)
    requires size >= 128 && at + size <= |image|
  {
    || (field == Atime && value == Number(image[at + 8..at + 12])) || (field == Ctime && value == Number(image[at + 12..at + 16]))
    || (field == Mtime && value == Number(image[at + 16..at + 20])) || (field == Dtime && value == Number(image[at + 20..at + 24]))
    || (field == Crtime && size >= 148 && 128 + Number(image[at + 128..at + 130]) >= 148 && value == Number(image[at + 144..at + 148]))
  }

  /** A time somewhere in the image that is outside the closed set. */
  ghost predicate Offends(image: Bytes, s: Shape, v: Violation)
    requires HasSuperblock(image) && GoodShape(s) && Readable(image, s)
  {
    && !Canonical(v.value) && (v.wallClock <==> v.value >= 1000000)
    && match v.place
       case Superblock => SuperHolds(image, v.field, v.value)
       case Inode(n) =>
         1 <= n <= s.inodesCount && (InodePlace(image, s, n); InodeHolds(image, InodeStart(image, s, n), s.inodeSize, v.field, v.value))
  }

  function FieldRank(field: Field): nat {
    match field
    case SLastcheck => 0 case SMkfs => 1 case SMtime => 2 case SWtime => 3
    case Atime => 0 case Ctime => 1 case Mtime => 2 case Dtime => 3 case Crtime => 4
  }

  function PlaceRank(place: Place): nat { match place case Superblock => 0 case Inode(n) => n }

  /** The superblock first, its times by name; then inode after inode, its times by place. */
  predicate Earlier(a: Violation, b: Violation) {
    PlaceRank(a.place) < PlaceRank(b.place) || (a.place == b.place && FieldRank(a.field) < FieldRank(b.field))
  }

  predicate InOrder(vs: seq<Violation>) { forall i, j :: 0 <= i < j < |vs| ==> Earlier(vs[i], vs[j]) }

  lemma OrderConcat(a: seq<Violation>, b: seq<Violation>)
    requires InOrder(a) && InOrder(b) && forall x, y :: x in a && y in b ==> Earlier(x, y)
    ensures InOrder(a + b)
  {
    hide Earlier;
    var c := a + b;
    forall i, j | 0 <= i < j < |c| ensures Earlier(c[i], c[j]) {
      if i < |a| && j >= |a| { assert c[i] in a && c[j] == b[j - |a|] && c[j] in b; }
    }
  }

  /** An offence drawn from these times. */
  predicate DrawnFrom(times: seq<(TimeAudit.Field, nat)>, place: Place, v: Violation) {
    (v.field, v.value) in times && v.place == place && !Canonical(v.value) && (v.wallClock <==> v.value >= 1000000)
  }

  predicate Ranked(times: seq<(TimeAudit.Field, nat)>) {
    forall i, j :: 0 <= i < j < |times| ==> FieldRank(times[i].0) < FieldRank(times[j].0)
  }

  lemma {:induction false} OffendingExact(times: seq<(TimeAudit.Field, nat)>, place: Place)
    requires Ranked(times)
    ensures forall v :: v in Offending(times, place) <==> DrawnFrom(times, place, v)
    ensures InOrder(Offending(times, place))
    decreases |times|
  {
    hide FieldRank, Offending, Earlier, DrawnFrom, InOrder, Offence;
    if times == [] {
      NothingInOrder();
      NothingDrawn(place);
    } else {
      var init, last := times[..|times| - 1], times[|times| - 1];
      OffendingExact(init, place);
      var head, tail := Offending(init, place), Offence(last.0, last.1, place);
      OffendingLast(times, place);
      forall v ensures v in tail <==> DrawnFrom([last], place, v) { OneDrawn(last, place, v); }
      forall v ensures DrawnFrom(times, place, v) <==> DrawnFrom(init, place, v) || DrawnFrom([last], place, v) { DrawnLast(times, place, v); }
      forall v ensures v in Offending(times, place) <==> DrawnFrom(times, place, v) { assert v in Offending(times, place) <==> v in head || v in tail; }
      forall x, y | x in head && y in tail ensures Earlier(x, y) { DrawnEarlier(times, place, x, y); }
      OneInOrder(last, place);
      OrderConcat(head, tail);
    }
  }

  lemma NothingDrawn(place: Place)
    ensures Offending([], place) == [] && forall v :: !DrawnFrom([], place, v)
  {
  }

  lemma OneDrawn(time: (TimeAudit.Field, nat), place: Place, v: Violation)
    ensures v in Offence(time.0, time.1, place) <==> DrawnFrom([time], place, v)
  {
  }

  lemma OneInOrder(time: (TimeAudit.Field, nat), place: Place)
    ensures InOrder(Offence(time.0, time.1, place))
  {
  }

  lemma DrawnLast(times: seq<(TimeAudit.Field, nat)>, place: Place, v: Violation)
    requires times != []
    ensures DrawnFrom(times, place, v) <==> DrawnFrom(times[..|times| - 1], place, v) || DrawnFrom([times[|times| - 1]], place, v)
  {
    assert times == times[..|times| - 1] + [times[|times| - 1]];
  }

  lemma DrawnEarlier(times: seq<(TimeAudit.Field, nat)>, place: Place, x: Violation, y: Violation)
    requires times != [] && Ranked(times) && DrawnFrom(times[..|times| - 1], place, x) && DrawnFrom([times[|times| - 1]], place, y)
    ensures Earlier(x, y)
  {
    hide FieldRank;
    var i :| 0 <= i < |times| - 1 && times[i] == (x.field, x.value);
  }

  lemma OffendingLast(times: seq<(TimeAudit.Field, nat)>, place: Place)
    requires times != []
    ensures Offending(times, place) == Offending(times[..|times| - 1], place) + Offence(times[|times| - 1].0, times[|times| - 1].1, place)
  {
  }

  lemma SuperExact(image: Bytes, s: Shape)
    requires HasSuperblock(image) && ShapeLies(image, s)
    ensures forall v :: v in SuperOffences(s.times) <==>
      v.place == Superblock && !Canonical(v.value) && (v.wallClock <==> v.value >= 1000000) && SuperHolds(image, v.field, v.value)
    ensures InOrder(SuperOffences(s.times))
  {
    hide Number, Offending, Canonical;
    var times := SuperTimeList(s.times);
    OffendingExact(times, Superblock);
    forall f, x: nat ensures (f, x) in times <==> SuperHolds(image, f, x) {
      assert times == [(SLastcheck, s.times.lastcheck), (SMkfs, s.times.mkfs), (SMtime, s.times.mtime), (SWtime, s.times.wtime)];
    }
  }

  lemma InodeNumbers(image: Bytes, at: nat, size: nat)
    requires size >= 128 && at + size <= |image|
    ensures var raw := image[at..at + size];
      && U32(raw, 0x08) == Number(image[at + 8..at + 12]) && U32(raw, 0x0C) == Number(image[at + 12..at + 16])
      && U32(raw, 0x10) == Number(image[at + 16..at + 20]) && U32(raw, 0x14) == Number(image[at + 20..at + 24])
      && (size >= 148 ==> U16(raw, 0x80) == Number(image[at + 128..at + 130]) && U32(raw, 0x90) == Number(image[at + 144..at + 148]))
  {
    hide U16, U32, Number;
    var raw := image[at..at + size];
    forall k: nat | k + 4 <= size ensures U32(raw, k) == Number(image[at + k..at + k + 4]) {
      NumberFour(raw, k);
      Subslice(image, at, at + size, k, k + 4);
    }
    if size >= 148 {
      NumberTwo(raw, 0x80);
      Subslice(image, at, at + size, 0x80, 0x82);
    }
  }

  lemma InodeExact(image: Bytes, at: nat, size: nat, n: nat)
    requires size >= 128 && at + size <= |image|
    ensures forall v :: v in InodeOffences(image[at..at + size], n) <==>
      v.place == Inode(n) && !Canonical(v.value) && (v.wallClock <==> v.value >= 1000000) && InodeHolds(image, at, size, v.field, v.value)
    ensures InOrder(InodeOffences(image[at..at + size], n))
  {
    hide Number, Offending, Canonical, U32, U16;
    var raw := image[at..at + size];
    var times := InodeTimes(raw);
    InodeNumbers(image, at, size);
    OffendingExact(times, Inode(n));
    TimesListed(image, at, size);
  }

  lemma TimesListed(image: Bytes, at: nat, size: nat)
    requires size >= 128 && at + size <= |image|
    ensures forall f, x: nat :: (f, x) in InodeTimes(image[at..at + size]) <==> InodeHolds(image, at, size, f, x)
  {
    hide Number, U32, U16;
    InodeNumbers(image, at, size);
    var raw := image[at..at + size];
    var base := [(Atime, U32(raw, 0x08)), (Ctime, U32(raw, 0x0C)), (Mtime, U32(raw, 0x10)), (Dtime, U32(raw, 0x14))];
    assert InodeTimes(raw) == base + if HasCrtime(raw) then [(Crtime, U32(raw, 0x90))] else [];
    forall f, x: nat ensures (f, x) in InodeTimes(raw) <==> InodeHolds(image, at, size, f, x) {
      assert (f, x) in InodeTimes(raw) <==> (f, x) in base || (HasCrtime(raw) && f == Crtime && x == U32(raw, 0x90));
    }
  }

  lemma OneInode(image: Bytes, s: Shape, n: nat)
    requires HasSuperblock(image) && GoodShape(s) && Readable(image, s) && 1 <= n <= s.inodesCount
    ensures forall v :: v in InodeOffences(InodeBytes(image, s, n), n) <==> v.place == Inode(n) && Offends(image, s, v)
    ensures InOrder(InodeOffences(InodeBytes(image, s, n), n))
  {
    hide GoodShape, Readable, InodeOffences, InodeHolds, Canonical, InodeBytes, InodeStart, InOrder;
    InodePlace(image, s, n);
    BigEnough(s);
    InodeExact(image, InodeStart(image, s, n), s.inodeSize, n);
  }

  lemma OffencesLast(image: Bytes, s: Shape, upTo: nat)
    requires GoodShape(s) && 0 < upTo <= s.inodesCount
    ensures Offences(image, s, upTo) == Offences(image, s, upTo - 1) + InodeOffences(InodeBytes(image, s, upTo), upTo)
  {
  }

  lemma LaterInode(head: seq<Violation>, tail: seq<Violation>, n: nat)
    requires InOrder(head) && InOrder(tail) && (forall v :: v in tail ==> v.place == Inode(n))
    requires forall v :: v in head ==> v.place.Inode? && v.place.number < n
    ensures InOrder(head + tail)
  {
    hide InOrder;
    forall x, y | x in head && y in tail ensures Earlier(x, y) {
    }
    OrderConcat(head, tail);
  }

  lemma {:induction false} OffencesExact(image: Bytes, s: Shape, upTo: nat)
    requires HasSuperblock(image) && GoodShape(s) && Readable(image, s) && upTo <= s.inodesCount
    ensures forall v :: v in Offences(image, s, upTo) <==> v.place.Inode? && v.place.number <= upTo && Offends(image, s, v)
    ensures InOrder(Offences(image, s, upTo))
    decreases upTo
  {
    hide GoodShape, Readable, InodeOffences, Offends, InodeBytes, InOrder, Offences, HasSuperblock;
    if upTo == 0 {
      NoInodeZero(image, s);
      NothingBefore(image, s);
      NothingInOrder();
    } else {
      OffencesExact(image, s, upTo - 1);
      OneInode(image, s, upTo);
      OffencesLast(image, s, upTo);
      var head, tail := Offences(image, s, upTo - 1), InodeOffences(InodeBytes(image, s, upTo), upTo);
      LaterInode(head, tail, upTo);
      forall v ensures v in Offences(image, s, upTo) <==> v.place.Inode? && v.place.number <= upTo && Offends(image, s, v) {
        assert v in Offences(image, s, upTo) <==> v in head || v in tail;
      }
    }
  }

  lemma NothingInOrder()
    ensures InOrder([])
  {
  }

  lemma NoInodeZero(image: Bytes, s: Shape)
    requires HasSuperblock(image) && GoodShape(s) && Readable(image, s)
    ensures forall v: Violation :: v.place == Inode(0) ==> !Offends(image, s, v)
  {
    hide GoodShape, Readable, InodeHolds, InodeStart;
  }

  /** The violations of an image, before the list is cut off, are exactly the times in it that
      are outside the closed set, the superblock's and every inode's, in order. */
  lemma ReportExact(image: Bytes, s: Shape)
    requires Geometry(image) == Ok(s) && Readable(image, s)
    ensures HasSuperblock(image) && ShapeLies(image, s)
    ensures var all := SuperOffences(s.times) + Offences(image, s, s.inodesCount);
      InOrder(all) && forall v :: v in all <==> Offends(image, s, v)
  {
    hide Geometry, ShapeLies, Readable, GoodShape, SuperHolds, InodeHolds, Canonical, Offences, SuperOffences, InOrder, InodeStart;
    GeometryExact(image);
    SuperExact(image, s);
    OffencesExact(image, s, s.inodesCount);
    OrderConcat(SuperOffences(s.times), Offences(image, s, s.inodesCount));
  }
}
