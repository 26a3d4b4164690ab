/** The `newc` record byte by byte: where each field of a written record lies, and what a
    reader takes from any buffer. */
module NewcLayout {
  import opened ByteStrings
  import opened Newc

  const LOWER: Bytes := [48, 49, 50, 51, 52, 53, 54, 55, 56, 57, 97, 98, 99, 100, 101, 102]
  const UPPER: Bytes := [48, 49, 50, 51, 52, 53, 54, 55, 56, 57, 65, 66, 67, 68, 69, 70]

  /** The format's two fixed texts. */
  lemma FixedTexts(name: Bytes)
    ensures MAGIC == Ascii("070701")
    ensures IsTrailer(name) <==> name == Ascii("TRAILER!!!")
  {
    assert MAGIC[0] == 48 && MAGIC[5] == 49;
    assert Ascii("TRAILER!!!") == TRAILER;
  }

  /* ----- hexadecimal text ----- */

  /** The byte is the digit for `d`, in either case. */
  predicate DigitFor(b: Byte, d: nat) { d < 16 && (b == LOWER[d] || b == UPPER[d]) }

  lemma DigitExact(b: Byte, d: nat)
    ensures HexValue(b) == Some(d) <==> DigitFor(b, d)
    ensures d < 16 ==> HexDigit(d) == LOWER[d]
  {
  }

  /** Digits as a number, most significant first. */
  function Number(digits: seq<nat>): nat {
    if digits == [] then 0 else digits[0] * Power16(|digits| - 1) + Number(digits[1..])
  }

  lemma {:induction false} NumberSnoc(digits: seq<nat>, d: nat)
    ensures Number(digits + [d]) == 16 * Number(digits) + d
    decreases |digits|
  {
    if digits == [] {
      assert [d][1..] == [] && Power16(0) == 1;
    } else {
      NumberSnoc(digits[1..], d);
      assert (digits + [d])[1..] == digits[1..] + [d];
      var p := Power16(|digits| - 1);
      assert Power16(|digits|) == 16 * p;
      assert digits[0] * (16 * p) == 16 * (digits[0] * p);
    }
  }

  predicate Spells(s: Bytes, digits: seq<nat>) {
    |digits| == |s| && forall k :: 0 <= k < |s| ==> DigitFor(s[k], digits[k])
  }

  /** `s` is hexadecimal text for `v`. */
  ghost predicate Reads(s: Bytes, v: nat) {
    exists digits: seq<nat> :: Spells(s, digits) && Number(digits) == v
  }

  lemma {:induction false} ParseSpelled(s: Bytes, digits: seq<nat>)
    requires Spells(s, digits)
    ensures ParseHex(s) == Some(Number(digits))
    decreases |s|
  {
    hide DigitFor;
    if s != [] {
      var n := |s| - 1;
      ParseSpelled(s[..n], digits[..n]);
      DigitExact(s[n], digits[n]);
      NumberSnoc(digits[..n], digits[n]);
      assert digits == digits[..n] + [digits[n]];
    }
  }

  lemma {:induction false} SpelledParse(s: Bytes) returns (digits: seq<nat>)
    requires ParseHex(s).Some?
    ensures Spells(s, digits)
    decreases |s|
  {
    hide DigitFor;
    digits := [];
    if s != [] {
      var n := |s| - 1;
      var high := SpelledParse(s[..n]);
      DigitExact(s[n], HexValue(s[n]).value);
      digits := high + [HexValue(s[n]).value];
    }
  }

  lemma ParseHexExact(s: Bytes, v: nat)
    ensures ParseHex(s) == Some(v) <==> Reads(s, v)
  {
    hide Spells, ParseHex;
    if ParseHex(s) == Some(v) {
      var digits := SpelledParse(s);
      ParseSpelled(s, digits);
    }
    forall digits: seq<nat> | Spells(s, digits) && Number(digits) == v ensures ParseHex(s) == Some(v) {
      ParseSpelled(s, digits);
    }
  }

  lemma {:induction false} HexLower(v: nat, width: nat)
    ensures forall k :: 0 <= k < width ==> Hex(v, width)[k] in LOWER
    decreases width
  {
    if width > 0 {
      HexLower(v / 16, width - 1);
      DigitExact(0, v % 16);
      assert LOWER[v % 16] in LOWER;
    }
  }

  /* ----- writing ----- */

  /** Header field `f` of the record at `at`. */
  function FieldText(raw: Bytes, at: nat, f: nat): (s: Bytes)
    requires f < 13 && at + 110 <= |raw|
  {
    raw[at + 6 + 8 * f..at + 14 + 8 * f]
  }

  ghost predicate FieldHolds(raw: Bytes, at: nat, f: nat, v: nat)
    requires f < 13 && at + 110 <= |raw|
  {
    Reads(FieldText(raw, at, f), v)
  }

  predicate LowerCase(s: Bytes) { forall k :: 0 <= k < |s| ==> s[k] in LOWER }

  predicate ZerosBetween(raw: Bytes, lo: nat, hi: nat) { hi <= |raw| && forall k :: lo <= k < hi ==> raw[k] == 0 }

  lemma {:induction false} FieldsAt(values: seq<nat>, f: nat)
    requires AllFit(values) && f < |values|
    ensures |Fields(values)| == 8 * |values|
    ensures Fields(values)[8 * f..8 * f + 8] == Hex(values[f], 8)
    decreases f
  {
    var s := Fields(values);
    if f == 0 {
      assert s[..8] == Hex(values[0], 8);
    } else {
      FieldsAt(values[1..], f - 1);
      assert s[8..] == Fields(values[1..]);
      assert s[8..][8 * f - 8..8 * f] == s[8 * f..8 * f + 8];
    }
  }

  lemma HeaderFields(values: seq<nat>, rest: Bytes, f: nat)
    requires |values| == 13 && AllFit(values) && f < 13
    ensures var raw := MAGIC + Fields(values) + rest;
      FieldHolds(raw, 0, f, values[f]) && LowerCase(FieldText(raw, 0, f))
  {
    hide Fields, Hex, Reads;
    var raw := MAGIC + Fields(values) + rest;
    FieldsAt(values, f);
    assert FieldText(raw, 0, f) == Fields(values)[8 * f..8 * f + 8];
    Power16At8();
    HexRoundTrip(values[f], 8);
    ParseHexExact(Hex(values[f], 8), values[f]);
    HexLower(values[f], 8);
  }

  lemma PadExact(s: Bytes)
    ensures |Pad(s)| == (|s| + 3) / 4 * 4 && Pad(s)[..|s|] == s && ZerosBetween(Pad(s), |s|, |Pad(s)|)
  {
  }

  /** A written record, byte by byte. */
  ghost predicate Laid(r: Bytes, ino: nat, mode: nat, nlink: nat, name: Bytes, data: Bytes) {
    var top := (114 + |name|) / 4 * 4;
    && |r| == top + (|data| + 3) / 4 * 4 && top > 110 + |name|
    && r[..6] == [48, 55, 48, 55, 48, 49]
    && (forall f: nat :: f < 13 ==> LowerCase(FieldText(r, 0, f)))
    && FieldHolds(r, 0, 0, ino) && FieldHolds(r, 0, 1, mode) && FieldHolds(r, 0, 2, 0) && FieldHolds(r, 0, 3, 0)
    && FieldHolds(r, 0, 4, nlink) && FieldHolds(r, 0, 5, 0) && FieldHolds(r, 0, 6, |data|)
    && FieldHolds(r, 0, 7, 0) && FieldHolds(r, 0, 8, 0) && FieldHolds(r, 0, 9, 0) && FieldHolds(r, 0, 10, 0)
    && FieldHolds(r, 0, 11, |name| + 1) && FieldHolds(r, 0, 12, 0)
    && r[110..110 + |name|] == name && ZerosBetween(r, 110 + |name|, top)
    && r[top..top + |data|] == data && ZerosBetween(r, top + |data|, |r|)
  }

  /** The bytes of a record: magic, thirteen lower-case fields, the name and its zero, the
      data, and zeros up to each boundary. */
  lemma RecordExact(ino: nat, mode: nat, nlink: nat, name: Bytes, data: Bytes)
    requires Record(ino, mode, nlink, name, data).Ok?
    ensures Laid(Record(ino, mode, nlink, name, data).value, ino, mode, nlink, name, data)
  {
    hide Utf8, Pad, Fields, Reads, LowerCase, ZerosBetween;
    var values := HeaderValues(ino, mode, nlink, name, data);
    var front := MAGIC + Fields(values) + name + [0];
    var r := Pad(front) + Pad(data);
    assert r == Record(ino, mode, nlink, name, data).value;
    PadExact(front);
    PadExact(data);
    PaddedRecord(front, data, name, r);
    var rest := r[110..];
    assert r == MAGIC + Fields(values) + rest by { assert r[..110] == MAGIC + Fields(values); }
    forall f: nat | f < 13 ensures FieldHolds(r, 0, f, values[f]) && LowerCase(FieldText(r, 0, f)) { HeaderFields(values, rest, f); }
    assert values[0] == ino && values[1] == mode && values[2] == 0 && values[3] == 0 && values[4] == nlink && values[5] == 0;
    assert values[6] == |data| && values[7] == 0 && values[8] == 0 && values[9] == 0 && values[10] == 0;
    assert values[11] == |name| + 1 && values[12] == 0;
  }

  lemma PaddedRecord(front: Bytes, data: Bytes, name: Bytes, r: Bytes)
    requires |front| == 111 + |name| && front[110..110 + |name|] == name && front[110 + |name|] == 0
    requires r == Pad(front) + Pad(data)
    ensures var top := (114 + |name|) / 4 * 4;
      && |r| == top + (|data| + 3) / 4 * 4 && top > 110 + |name| && r[..110] == front[..110]
      && r[110..110 + |name|] == name && ZerosBetween(r, 110 + |name|, top)
      && r[top..top + |data|] == data && ZerosBetween(r, top + |data|, |r|)
  {
    hide Pad;
    PadExact(front);
    PadExact(data);
    var top := (114 + |name|) / 4 * 4;
    assert |Pad(front)| == top;
    forall k | 0 <= k < |front| ensures r[k] == front[k] { assert Pad(front)[..|front|][k] == front[k]; }
    forall k | 0 <= k < |data| ensures r[top + k] == data[k] { assert Pad(data)[..|data|][k] == data[k]; }
  }

  /* ----- reading ----- */

  /** At most `n` bytes from `lo`, fewer where the buffer ends. */
  function Clamped(raw: Bytes, lo: nat, n: nat): Bytes {
    if lo >= |raw| then [] else if lo + n <= |raw| then raw[lo..lo + n] else raw[lo..]
  }

  lemma SliceClamped(raw: Bytes, lo: nat, n: nat)
    ensures Slice(raw, lo, lo + n) == Clamped(raw, lo, n)
  {
  }

  /** The buffer holds these thirteen numbers after the magic. */
  ghost predicate HeaderHolds(raw: Bytes, at: nat, values: seq<nat>) {
    && at + 110 <= |raw| && raw[at..at + 6] == [48, 55, 48, 55, 48, 49] && |values| == 13
    && forall f: nat :: f < 13 ==> FieldHolds(raw, at, f, values[f])
  }

  /** What a reader takes from a buffer that holds these numbers. */
  predicate Taken(raw: Bytes, at: nat, values: seq<nat>, row: Row) {
    && |values| == 13
    && row.ino == values[0] && row.mode == values[1] && row.uid == values[2] && row.gid == values[3]
    && row.nlink == values[4] && row.mtime == values[5] && row.filesize == values[6]
    && row.name == Clamped(raw, at + 110, if values[11] == 0 then 0 else values[11] - 1) && Utf8(row.name)
    && row.headerEnd == (at + 110 + values[11] + 3) / 4 * 4
    && row.data == Clamped(raw, row.headerEnd, row.filesize)
    && row.dataEnd == (row.headerEnd + row.filesize + 3) / 4 * 4
  }

  lemma {:induction false} ParseFieldsExact(s: Bytes, n: nat, values: seq<nat>)
    requires |s| == 8 * n
    ensures ParseFields(s, n) == Some(values) <==>
      |values| == n && forall f :: 0 <= f < n ==> ParseHex(s[8 * f..8 * f + 8]) == Some(values[f])
    decreases n
  {
    hide ParseHex;
    if n > 0 {
      forall f | 0 <= f < n - 1 ensures s[8..][8 * f..8 * f + 8] == s[8 * (f + 1)..8 * (f + 1) + 8] {
      }
      assert s[8 * 0..8 * 0 + 8] == s[..8];
      if |values| == n {
        ParseFieldsExact(s[8..], n - 1, values[1..]);
        assert values == [values[0]] + values[1..];
        FieldsShift(s, n, values);
      } else if ParseFields(s, n) == Some(values) {
        ParseFieldsCount(s, n);
      }
    }
  }

  lemma FieldsShift(s: Bytes, n: nat, values: seq<nat>)
    requires |s| == 8 * n && |values| == n && n > 0
    ensures (forall f :: 0 <= f < n ==> ParseHex(s[8 * f..8 * f + 8]) == Some(values[f])) <==>
      && ParseHex(s[..8]) == Some(values[0])
      && forall f :: 0 <= f < n - 1 ==> ParseHex(s[8..][8 * f..8 * f + 8]) == Some(values[1..][f])
  {
    hide ParseHex;
    assert s[8 * 0..8 * 0 + 8] == s[..8];
    forall f | 0 <= f < n - 1 ensures s[8..][8 * f..8 * f + 8] == s[8 * (f + 1)..8 * (f + 1) + 8] {
    }
    if && ParseHex(s[..8]) == Some(values[0])
       && forall f :: 0 <= f < n - 1 ==> ParseHex(s[8..][8 * f..8 * f + 8]) == Some(values[1..][f])
    {
      forall f | 0 <= f < n ensures ParseHex(s[8 * f..8 * f + 8]) == Some(values[f]) {
        if f > 0 { assert s[8..][8 * (f - 1)..8 * (f - 1) + 8] == s[8 * f..8 * f + 8] && values[1..][f - 1] == values[f]; }
      }
    }
  }

  lemma FieldSlice(raw: Bytes, at: nat, f: nat)
    requires at + 110 <= |raw| && f < 13
    ensures raw[at..at + 110][6..][8 * f..8 * f + 8] == FieldText(raw, at, f)
  {
    var header, text := raw[at..at + 110], FieldText(raw, at, f);
    forall k | 0 <= k < 8 ensures header[6..][8 * f..8 * f + 8][k] == text[k] {
      assert header[6..][8 * f + k] == header[6 + 8 * f + k] == raw[at + 6 + 8 * f + k];
    }
  }

  lemma HeaderExact(raw: Bytes, at: nat, values: seq<nat>)
    ensures HeaderAt(raw, at) == Ok(values) <==> HeaderHolds(raw, at, values)
  {
    hide ParseHex, ParseFields, Reads;
    if at + 110 <= |raw| {
      var header := raw[at..at + 110];
      assert Slice(raw, at, at + HEADER_BYTES) == header && header[..6] == raw[at..at + 6];
      ParseFieldsExact(header[6..], 13, values);
      if |values| == 13 {
        forall f: nat | f < 13 ensures FieldHolds(raw, at, f, values[f]) <==> ParseHex(header[6..][8 * f..8 * f + 8]) == Some(values[f]) {
          FieldSlice(raw, at, f);
          ParseHexExact(FieldText(raw, at, f), values[f]);
        }
      }
    }
  }

  lemma RowExact(raw: Bytes, at: nat, values: seq<nat>, row: Row)
    requires |values| == 13
    ensures RowAt(raw, at, values) == Ok(row) <==> Taken(raw, at, values, row)
  {
    hide Utf8, Clamped, Slice;
    var n := if values[11] == 0 then 0 else values[11] - 1;
    SliceClamped(raw, at + 110, n);
    EmptySlice(raw, at + 110);
    SliceClamped(raw, Align(at + 110 + values[11]), values[6]);
  }

  lemma EmptySlice(raw: Bytes, lo: nat)
    requires lo > 0
    ensures Slice(raw, lo, lo - 1) == [] && Clamped(raw, lo, 0) == []
  {
  }

  /** Reading any buffer at any place: a record is returned exactly when the magic and
      thirteen hexadecimal fields are there and the name is text, and it is the record
      those fields describe. */
  lemma ReadExact(raw: Bytes, at: nat, row: Row)
    ensures ReadRecord(raw, at) == Ok(row) <==> exists values :: HeaderHolds(raw, at, values) && Taken(raw, at, values, row)
  {
    hide HeaderAt, RowAt, HeaderHolds, Taken;
    if ReadRecord(raw, at) == Ok(row) {
      var values := HeaderAt(raw, at).value;
      HeaderExact(raw, at, values);
      RowExact(raw, at, values, row);
      assert HeaderHolds(raw, at, values) && Taken(raw, at, values, row);
    }
    forall values | HeaderHolds(raw, at, values) && Taken(raw, at, values, row) ensures ReadRecord(raw, at) == Ok(row) {
      HeaderExact(raw, at, values);
      RowExact(raw, at, values, row);
    }
  }
}
