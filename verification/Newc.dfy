/** The `newc` archive format: one record, and reading one record back.
    Record-relative padding on the writing side, buffer-relative alignment on the
    reading side. */
module Newc {
  import opened ByteStrings

  const MAGIC: Bytes := [48, 55, 48, 55, 48, 49]            // "070701"
  const HEADER_FIELDS: nat := 13
  const HEADER_BYTES: nat := 110
  const TRAILER: Bytes := [84, 82, 65, 73, 76, 69, 82, 33, 33, 33]  // "TRAILER!!!"
  const FIELD_MAX: nat := 0xFFFF_FFFF

  predicate IsTrailer(name: Bytes) { name == TRAILER }

  /* ----- hexadecimal fields ----- */

  function HexDigit(d: nat): Byte
    requires d < 16
  {
    if d < 10 then 48 + d else 87 + d
  }

  function HexValue(b: Byte): Option<nat> {
    if 48 <= b < 58 then Some(b - 48)
    else if 97 <= b < 103 then Some(b - 87)
    else if 65 <= b < 71 then Some(b - 55)
    else None
  }

  /** `width` lower-case digits, most significant first. */
  function Hex(v: nat, width: nat): (s: Bytes)
    ensures |s| == width
  {
    if width == 0 then [] else Hex(v / 16, width - 1) + [HexDigit(v % 16)]
  }

  function ParseHex(s: Bytes): Option<nat> {
    if s == [] then Some(0)
    else match (ParseHex(s[..|s| - 1]), HexValue(s[|s| - 1]))
      case (Some(high), Some(low)) => Some(16 * high + low)
      case _ => None
  }

  function Power16(n: nat): nat { if n == 0 then 1 else 16 * Power16(n - 1) }

  lemma {:induction false} HexRoundTrip(v: nat, width: nat)
    requires v < Power16(width)
    ensures ParseHex(Hex(v, width)) == Some(v)
    decreases width
  {
    if width > 0 {
      HexRoundTrip(v / 16, width - 1);
      var s := Hex(v, width);
      assert s[..|s| - 1] == Hex(v / 16, width - 1);
      assert HexValue(HexDigit(v % 16)) == Some(v % 16);
    }
  }

  lemma Power16At8()
    ensures Power16(8) == FIELD_MAX + 1
  {
    assert Power16(4) == 65536;
    assert Power16(8) == 16 * (16 * (16 * (16 * Power16(4))));
  }

  predicate AllFit(values: seq<nat>) {
    forall i :: 0 <= i < |values| ==> values[i] <= FIELD_MAX
  }

  function Fields(values: seq<nat>): (s: Bytes)
    ensures |s| == 8 * |values|
  {
    if values == [] then [] else Hex(values[0], 8) + Fields(values[1..])
  }

  /** Exactly `n` eight-digit fields. */
  function ParseFields(s: Bytes, n: nat): Option<seq<nat>>
    requires |s| == 8 * n
    decreases n
  {
    if n == 0 then Some([])
    else match (ParseHex(s[..8]), ParseFields(s[8..], n - 1))
      case (Some(first), Some(rest)) => Some([first] + rest)
      case _ => None
  }

  lemma {:induction false} ParseFieldsCount(s: Bytes, n: nat)
    requires |s| == 8 * n && ParseFields(s, n).Some?
    ensures |ParseFields(s, n).value| == n
    decreases n
  {
    if n > 0 { ParseFieldsCount(s[8..], n - 1); }
  }

  lemma {:induction false} FieldsRoundTrip(values: seq<nat>)
    requires AllFit(values)
    ensures ParseFields(Fields(values), |values|) == Some(values)
    decreases |values|
  {
    if values != [] {
      var s := Fields(values);
      Power16At8();
      HexRoundTrip(values[0], 8);
      FieldsRoundTrip(values[1..]);
      assert s[..8] == Hex(values[0], 8) && s[8..] == Fields(values[1..]);
      assert values == [values[0]] + values[1..];
    }
  }

  /* ----- padding and alignment ----- */

  function Zeros(n: nat): (s: Bytes)
    ensures |s| == n
  {
    seq(n, _ => 0)
  }

  /** Pad to a multiple of four, counting from the start of `raw`. */
  function Pad(raw: Bytes): (padded: Bytes)
    ensures |padded| == Align(|raw|) && raw <= padded
  {
    if |raw| % 4 == 0 then raw else raw + Zeros(4 - |raw| % 4)
  }

  /** The next multiple of four, counting from the start of the buffer. */
  function Align(x: nat): (y: nat)
    ensures y % 4 == 0 && x <= y < x + 4
  {
    if x % 4 == 0 then x else x + 4 - x % 4
  }

  /** The two ways of padding agree because every record starts aligned. */
  lemma AlignShift(start: nat, x: nat)
    requires start % 4 == 0
    ensures Align(start + x) == start + Align(x)
  {
  }

  /* ----- one record ----- */

  datatype Row = Row(ino: nat, mode: nat, uid: nat, gid: nat, nlink: nat, mtime: nat,
                     filesize: nat, name: Bytes, data: Bytes, headerEnd: nat, dataEnd: nat)

  function HeaderValues(ino: nat, mode: nat, nlink: nat, name: Bytes, data: Bytes): (values: seq<nat>)
    ensures |values| == HEADER_FIELDS
  {
    [ino, mode, 0, 0, nlink, 0, |data|, 0, 0, 0, 0, |name| + 1, 0]
  }

  function Header(ino: nat, mode: nat, nlink: nat, name: Bytes, data: Bytes): (header: Bytes)
    ensures |header| == HEADER_BYTES
  {
    MAGIC + Fields(HeaderValues(ino, mode, nlink, name, data))
  }

  predicate RecordFits(ino: nat, mode: nat, nlink: nat, name: Bytes, data: Bytes) {
    && ino <= FIELD_MAX && mode <= FIELD_MAX && nlink <= FIELD_MAX
    && |data| <= FIELD_MAX && |name| + 1 <= FIELD_MAX && Utf8(name)
  }

  function Record(ino: nat, mode: nat, nlink: nat, name: Bytes, data: Bytes): Result<Bytes> {
    if AllFit(HeaderValues(ino, mode, nlink, name, data)) && Utf8(name)
    then Ok(Pad(Header(ino, mode, nlink, name, data) + name + [0]) + Pad(data))
    else Fail
  }

  /** The bytes a record occupies depend on its name length and its data length only. */
  function Span(nameLength: nat, filesize: nat): (n: nat)
    ensures n % 4 == 0
  {
    Align(HEADER_BYTES + nameLength + 1) + Align(filesize)
  }

  lemma RecordSpan(ino: nat, mode: nat, nlink: nat, name: Bytes, data: Bytes)
    ensures Record(ino, mode, nlink, name, data).Ok? <==> RecordFits(ino, mode, nlink, name, data)
    ensures Record(ino, mode, nlink, name, data).Ok? ==>
      |Record(ino, mode, nlink, name, data).value| == Span(|name|, |data|)
  {
    var values := HeaderValues(ino, mode, nlink, name, data);
    if RecordFits(ino, mode, nlink, name, data) {
      assert AllFit(values);
    } else if AllFit(values) {
      assert values[0] == ino && values[1] == mode && values[4] == nlink;
      assert values[6] == |data| && values[11] == |name| + 1;
    }
  }

  /** The thirteen header values at `offset`. */
  function HeaderAt(raw: Bytes, offset: nat): (r: Result<seq<nat>>)
    ensures r.Ok? ==> |r.value| == HEADER_FIELDS && offset + HEADER_BYTES <= |raw|
  {
    var header := Slice(raw, offset, offset + HEADER_BYTES);
    if |header| < HEADER_BYTES || header[..6] != MAGIC then Fail
    else match ParseFields(header[6..], HEADER_FIELDS)
      case None => Fail
      case Some(values) =>
        ParseFieldsCount(header[6..], HEADER_FIELDS);
        Ok(values)
  }

  /** The name and data the header values point at.  Both are slices, so neither is
      checked against the end of the buffer. */
  function RowAt(raw: Bytes, offset: nat, values: seq<nat>): (r: Result<Row>)
    requires |values| == HEADER_FIELDS
  {
    var nameStart := offset + HEADER_BYTES;
    var namesize, filesize := values[11], values[6];
    var name := Slice(raw, nameStart, nameStart + namesize - 1);
    var headerEnd := Align(nameStart + namesize);
    if !Utf8(name) then Fail
    else Ok(Row(values[0], values[1], values[2], values[3], values[4], values[5], filesize,
                name, Slice(raw, headerEnd, headerEnd + filesize), headerEnd, Align(headerEnd + filesize)))
  }

  function ReadRecord(raw: Bytes, offset: nat): (r: Result<Row>)
    ensures r.Ok? ==> r.value.dataEnd >= offset + HEADER_BYTES
  {
    match HeaderAt(raw, offset)
    case Fail => Fail
    case Ok(values) => RowAt(raw, offset, values)
  }

  /** What reading a written record at `start` must give back. */
  function WrittenRow(start: nat, ino: nat, mode: nat, nlink: nat, name: Bytes, data: Bytes): Row {
    Row(ino, mode, 0, 0, nlink, 0, |data|, name, data,
        start + Align(HEADER_BYTES + |name| + 1), start + Span(|name|, |data|))
  }

  /** Reading undoes writing at every aligned position of every buffer. */
  lemma ReadWritten(before: Bytes, ino: nat, mode: nat, nlink: nat, name: Bytes, data: Bytes, after: Bytes)
    requires |before| % 4 == 0
    requires Record(ino, mode, nlink, name, data).Ok?
    ensures ReadRecord(before + Record(ino, mode, nlink, name, data).value + after, |before|)
         == Ok(WrittenRow(|before|, ino, mode, nlink, name, data))
  {
    hide Utf8, ReadRecord, Fields;
    ReadBack(before, HeaderValues(ino, mode, nlink, name, data), name, data, after);
  }

  lemma ReadBack(before: Bytes, values: seq<nat>, name: Bytes, data: Bytes, after: Bytes)
    requires |before| % 4 == 0 && |values| == HEADER_FIELDS && AllFit(values) && Utf8(name)
    requires values[11] == |name| + 1 && values[6] == |data|
    ensures ReadRecord(before + (Pad(MAGIC + Fields(values) + name + [0]) + Pad(data)) + after, |before|)
         == Ok(RowOf(values, |before|, name, data))
  {
    hide Utf8, ReadRecord, Fields, Pad, LaidOut;
    var header := MAGIC + Fields(values);
    RecordLayout(before, header, name, data, after);
    ReadLaidOut(before + (Pad(header + name + [0]) + Pad(data)) + after, |before|, values, name, data);
  }

  function RowOf(values: seq<nat>, start: nat, name: Bytes, data: Bytes): Row
    requires |values| == HEADER_FIELDS
  {
    Row(values[0], values[1], values[2], values[3], values[4], values[5], |data|, name, data,
        start + Align(HEADER_BYTES + |name| + 1), start + Span(|name|, |data|))
  }

  /** `raw` holds a record with these parts at `offset`. */
  predicate LaidOut(raw: Bytes, offset: nat, header: Bytes, name: Bytes, data: Bytes) {
    var nameStart := offset + HEADER_BYTES;
    var headerEnd := offset + Align(HEADER_BYTES + |name| + 1);
    && |header| == HEADER_BYTES && headerEnd > nameStart + |name|
    && At(raw, offset, header) && At(raw, nameStart, name) && At(raw, headerEnd, data)
  }

  predicate At(raw: Bytes, at: nat, piece: Bytes) {
    at + |piece| <= |raw| && raw[at..at + |piece|] == piece
  }

  lemma ReadLaidOut(raw: Bytes, offset: nat, values: seq<nat>, name: Bytes, data: Bytes)
    requires offset % 4 == 0 && |values| == HEADER_FIELDS && AllFit(values) && Utf8(name)
    requires values[11] == |name| + 1 && values[6] == |data|
    requires LaidOut(raw, offset, MAGIC + Fields(values), name, data)
    ensures ReadRecord(raw, offset) == Ok(RowOf(values, offset, name, data))
  {
    hide Utf8, HeaderAt, RowAt, Fields;
    HeaderReadBack(raw, offset, values);
    RowReadBack(raw, offset, values, MAGIC + Fields(values), name, data);
  }

  lemma RowReadBack(raw: Bytes, offset: nat, values: seq<nat>, header: Bytes, name: Bytes, data: Bytes)
    requires offset % 4 == 0 && |values| == HEADER_FIELDS && Utf8(name)
    requires values[11] == |name| + 1 && values[6] == |data|
    requires LaidOut(raw, offset, header, name, data)
    ensures RowAt(raw, offset, values) == Ok(RowOf(values, offset, name, data))
  {
    hide Utf8, Align;
    var nameStart := offset + HEADER_BYTES;
    var headerEnd := offset + Align(HEADER_BYTES + |name| + 1);
    AlignShift(offset, HEADER_BYTES + |name| + 1);
    AlignShift(headerEnd, |data|);
    assert Slice(raw, nameStart, nameStart + |name|) == name;
    assert Slice(raw, headerEnd, headerEnd + |data|) == data;
  }

  lemma HeaderReadBack(raw: Bytes, offset: nat, values: seq<nat>)
    requires |values| == HEADER_FIELDS && AllFit(values)
    requires offset + HEADER_BYTES <= |raw|
    requires raw[offset..offset + HEADER_BYTES] == MAGIC + Fields(values)
    ensures HeaderAt(raw, offset) == Ok(values)
  {
    var header := MAGIC + Fields(values);
    assert header[..6] == MAGIC && header[6..] == Fields(values);
    FieldsRoundTrip(values);
  }

  lemma RecordLayout(before: Bytes, header: Bytes, name: Bytes, data: Bytes, after: Bytes)
    requires |header| == HEADER_BYTES
    ensures LaidOut(before + (Pad(header + name + [0]) + Pad(data)) + after, |before|, header, name, data)
  {
    hide Align, Pad, LaidOut, At;
    var top, tail := Pad(header + name + [0]), Pad(data);
    var raw := before + (top + tail) + after;
    Middle(before, top, tail + after);
    assert raw == before + top + (tail + after);
    Middle(before + top, tail, after);
    assert raw == (before + top) + tail + after;
    PaddedLayout(raw, |before|, header, name, data);
  }

  lemma PaddedLayout(raw: Bytes, at: nat, header: Bytes, name: Bytes, data: Bytes)
    requires |header| == HEADER_BYTES
    requires At(raw, at, Pad(header + name + [0])) && At(raw, at + Align(HEADER_BYTES + |name| + 1), Pad(data))
    ensures LaidOut(raw, at, header, name, data)
  {
    hide Align, Pad, At;
    var encoded := header + name + [0];
    PieceWithin(raw, at, Pad(encoded), 0, encoded);
    Middle([], header, name + [0]);
    assert [] + header + (name + [0]) == encoded;
    Middle(header, name, [0]);
    PieceWithin(raw, at, encoded, 0, header);
    PieceWithin(raw, at, encoded, HEADER_BYTES, name);
    PieceWithin(raw, at + Align(HEADER_BYTES + |name| + 1), Pad(data), 0, data);
  }

  lemma Middle(a: Bytes, b: Bytes, c: Bytes)
    ensures At(a + b + c, |a|, b)
  {
  }

  lemma PieceWithin(raw: Bytes, at: nat, piece: Bytes, offset: nat, part: Bytes)
    requires At(raw, at, piece)
    requires (offset == 0 && part <= piece) || At(piece, offset, part)
    ensures At(raw, at + offset, part)
  {
    forall k | 0 <= k < |part| ensures raw[at + offset + k] == part[k] {
      assert raw[at..at + |piece|][offset + k] == piece[offset + k] == piece[offset..offset + |part|][k];
    }
  }

  /** A record read without running off the buffer spans exactly what its name and data
      lengths say; an absent name terminator changes nothing, because the header itself
      already ends two bytes short of a boundary. */
  lemma ReadSpan(raw: Bytes, offset: nat)
    requires offset % 4 == 0
    requires ReadRecord(raw, offset).Ok?
    requires ReadRecord(raw, offset).value.dataEnd <= |raw|
    ensures var row := ReadRecord(raw, offset).value;
      && |row.data| == row.filesize
      && row.dataEnd == offset + Span(|row.name|, row.filesize)
  {
    hide HeaderAt, RowAt;
    RowSpan(raw, offset, HeaderAt(raw, offset).value);
  }

  lemma RowSpan(raw: Bytes, offset: nat, values: seq<nat>)
    requires offset % 4 == 0 && |values| == HEADER_FIELDS
    requires RowAt(raw, offset, values).Ok?
    requires RowAt(raw, offset, values).value.dataEnd <= |raw|
    ensures var row := RowAt(raw, offset, values).value;
      && |row.data| == row.filesize
      && row.dataEnd == offset + Span(|row.name|, row.filesize)
  {
    hide Utf8, Align;
    var nameStart := offset + HEADER_BYTES;
    var namesize := values[11];
    var name := Slice(raw, nameStart, nameStart + namesize - 1);
    assert |name| == if namesize > 0 then namesize - 1 else 0;
    HeaderPadding(namesize);
    AlignShift(offset, HEADER_BYTES + namesize);
    AlignShift(offset + Align(HEADER_BYTES + namesize), values[6]);
  }

  lemma HeaderPadding(namesize: nat)
    ensures Align(HEADER_BYTES + namesize) == Align(HEADER_BYTES + (if namesize > 0 then namesize - 1 else 0) + 1)
  {
  }
}
