/** When the three archive readers agree: on any bytes, and on every archive laid out from
    members. */
module ArLaws {
  import opened ByteStrings
  import opened Ar

  /* ----- any bytes ----- */

  /** The last member of a name. */
  predicate LastAt(raw: Bytes, offs: seq<nat>, k: nat, name: Text, trim: bool) {
    && k < |offs| && AllStep(raw, offs) && NameAt(raw, offs[k], trim) == name
    && forall j :: k < j < |offs| ==> NameAt(raw, offs[j], trim) != name
  }

  lemma {:induction false} CollectLast(raw: Bytes, offs: seq<nat>, trim: bool, name: Text)
    requires AllStep(raw, offs)
    ensures name in Collect(raw, offs, trim) <==> exists k: nat :: LastAt(raw, offs, k, name, trim)
    ensures forall k: nat :: LastAt(raw, offs, k, name, trim) ==> Collect(raw, offs, trim)[name] == DataAt(raw, offs[k])
    decreases |offs|
  {
    hide NameAt, DataAt, SizeAt;
    if offs != [] {
      var init, o := offs[..|offs| - 1], offs[|offs| - 1];
      CollectLast(raw, init, trim, name);
      if NameAt(raw, o, trim) == name {
        assert LastAt(raw, offs, |offs| - 1, name, trim);
        forall k: nat | LastAt(raw, offs, k, name, trim) ensures k == |offs| - 1 { }
      } else {
        forall k: nat ensures LastAt(raw, offs, k, name, trim) <==> LastAt(raw, init, k, name, trim) {
          SameLast(raw, offs, k, name, trim);
        }
      }
    }
  }

  lemma SameLast(raw: Bytes, offs: seq<nat>, k: nat, name: Text, trim: bool)
    requires AllStep(raw, offs) && offs != [] && NameAt(raw, offs[|offs| - 1], trim) != name
    ensures LastAt(raw, offs, k, name, trim) <==> LastAt(raw, offs[..|offs| - 1], k, name, trim)
  {
    hide NameAt, SizeAt;
    var init := offs[..|offs| - 1];
    if LastAt(raw, init, k, name, trim) {
      forall j | k < j < |offs| ensures NameAt(raw, offs[j], trim) != name { assert j < |init| ==> init[j] == offs[j]; }
    }
  }

  /** The single-member reader returns the first member of a name, the dictionary the last.
      For a name that occurs once they agree; for one that repeats exactly when its first and
      last members hold the same bytes. */
  lemma FirstAgainstLast(raw: Bytes, first: nat, name: Text)
    requires Trimmable(raw) && FirstAt(raw, Offsets(raw, 8), first, name)
    ensures name in Directory(raw, true)
    ensures LastAt(raw, Offsets(raw, 8), first, name, true) ==> Directory(raw, true)[name] == DataAt(raw, Offsets(raw, 8)[first])
    ensures !LastAt(raw, Offsets(raw, 8), first, name, true) ==>
      exists last: nat :: last > first && LastAt(raw, Offsets(raw, 8), last, name, true)
        && (Directory(raw, true)[name] == DataAt(raw, Offsets(raw, 8)[first]) <==> DataAt(raw, Offsets(raw, 8)[first]) == DataAt(raw, Offsets(raw, 8)[last]))
  {
    hide NameAt, DataAt, SizeAt, Offsets, IsArchive, RunsOut, Whole;
    OffsetsStep(raw, 8);
    CollectLast(raw, Offsets(raw, 8), true, name);
    var last := FindLast(raw, Offsets(raw, 8), first, name);
  }

  lemma FindLast(raw: Bytes, offs: seq<nat>, first: nat, name: Text) returns (last: nat)
    requires AllStep(raw, offs) && first < |offs| && NameAt(raw, offs[first], true) == name
    ensures first <= last && LastAt(raw, offs, last, name, true)
  {
    hide NameAt, SizeAt;
    last := first;
    var k := first + 1;
    while k < |offs|
      invariant first <= last < k <= |offs| && NameAt(raw, offs[last], true) == name
      invariant forall j :: last < j < k ==> NameAt(raw, offs[j], true) != name
    {
      if NameAt(raw, offs[k], true) == name { last := k; }
      k := k + 1;
    }
  }

  /** No name, blanks aside, ends in a slash. */
  ghost predicate NoSlash(raw: Bytes) {
    OffsetsStep(raw, 8);
    forall i :: 0 <= i < |Offsets(raw, 8)| ==> DropSlashes(RawNameAt(raw, Offsets(raw, 8)[i])) == RawNameAt(raw, Offsets(raw, 8)[i])
  }

  /** The two dictionaries are the same exactly when no name ends in a slash. */
  lemma DictionariesAgree(raw: Bytes)
    ensures Directory(raw, true) == Directory(raw, false) <==> NoSlash(raw)
  {
    hide Offsets, RawNameAt, DataAt, SizeAt, DropSlashes, Collect;
    OffsetsStep(raw, 8);
    var offs := Offsets(raw, 8);
    if NoSlash(raw) {
      SameNames(raw, offs);
    } else {
      var i :| 0 <= i < |offs| && DropSlashes(RawNameAt(raw, offs[i])) != RawNameAt(raw, offs[i]);
      var name := RawNameAt(raw, offs[i]);
      Present(raw, offs, i, false);
      CollectLast(raw, offs, true, name);
      forall k: nat ensures !LastAt(raw, offs, k, name, true) {
        if k < |offs| { DropTwice(RawNameAt(raw, offs[k])); }
      }
    }
  }

  lemma {:induction false} DropTwice(t: Text)
    ensures DropSlashes(DropSlashes(t)) == DropSlashes(t)
    decreases |t|
  {
    if t != [] && t[|t| - 1] == 47 { DropTwice(t[..|t| - 1]); }
  }

  lemma {:induction false} SameNames(raw: Bytes, offs: seq<nat>)
    requires AllStep(raw, offs) && forall i :: 0 <= i < |offs| ==> DropSlashes(RawNameAt(raw, offs[i])) == RawNameAt(raw, offs[i])
    ensures Collect(raw, offs, true) == Collect(raw, offs, false)
    decreases |offs|
  {
    hide RawNameAt, DataAt, SizeAt, DropSlashes;
    if offs != [] { SameNames(raw, offs[..|offs| - 1]); }
  }

  lemma {:induction false} Present(raw: Bytes, offs: seq<nat>, i: nat, trim: bool)
    requires AllStep(raw, offs) && i < |offs|
    ensures NameAt(raw, offs[i], trim) in Collect(raw, offs, trim)
    decreases |offs|
  {
    hide NameAt, DataAt, SizeAt;
    if i < |offs| - 1 { Present(raw, offs[..|offs| - 1], i, trim); }
  }

  /** What each dictionary reader accepts beyond the other: one lets a cut-short header at the
      end pass, the other lets unmarked headers pass. */
  lemma AcceptanceCompared(raw: Bytes)
    ensures AllStep(raw, Offsets(raw, 8))
    ensures Tileable(raw) && AllMarked(raw, Offsets(raw, 8)) <==> Trimmable(raw) && StopAt(raw, 8) >= |raw|
  {
    hide Offsets, StopAt, IsArchive, SizeAt, MarkedAt;
    OffsetsStep(raw, 8);
  }

  /* ----- archives laid out from members ----- */

  datatype Piece = Piece(name: Bytes, middle: Bytes, data: Bytes)

  function Spaces(k: nat): (s: Bytes)
    ensures |s| == k && forall i :: 0 <= i < k ==> s[i] == 32
  {
    seq(k, _ => 32)
  }

  function Decimal(n: nat): (d: Bytes)
    ensures |d| >= 1 && forall i :: 0 <= i < |d| ==> 48 <= d[i] <= 57
  {
    if n < 10 then [48 + n] else Decimal(n / 10) + [48 + n % 10]
  }

  function Pow10(k: nat): nat { if k == 0 then 1 else 10 * Pow10(k - 1) }

  predicate GoodName(name: Bytes) {
    1 <= |name| <= 16 && name[|name| - 1] != 47 && forall i :: 0 <= i < |name| ==> 33 <= name[i] <= 126
  }

  predicate GoodPiece(p: Piece) { GoodName(p.name) && |p.middle| == 32 && |p.data| < Pow10(10) }

  predicate GoodPieces(ms: seq<Piece>) { forall i :: 0 <= i < |ms| ==> GoodPiece(ms[i]) }

  function NameField(name: Bytes): Bytes
    requires |name| <= 16
  {
    name + Spaces(16 - |name|)
  }

  function SizeField(n: nat): Bytes
    requires |Decimal(n)| <= 10
  {
    Decimal(n) + Spaces(10 - |Decimal(n)|)
  }

  lemma {:induction false} DecimalLength(n: nat, k: nat)
    requires k >= 1 && n < Pow10(k)
    ensures |Decimal(n)| <= k
    decreases k
  {
    if n >= 10 {
      assert Pow10(k) == 10 * Pow10(k - 1);
      assert k >= 2;
      DecimalLength(n / 10, k - 1);
    }
  }

  function HeaderOf(p: Piece): (h: Bytes)
    requires GoodPiece(p)
    ensures |h| == HEADER
  {
    DecimalLength(|p.data|, 10);
    NameField(p.name) + p.middle + SizeField(|p.data|) + MARK
  }

  function PieceBytes(p: Piece): (b: Bytes)
    requires GoodPiece(p)
    ensures |b| == HEADER + |p.data| + |p.data| % 2
  {
    HeaderOf(p) + p.data + (if |p.data| % 2 == 1 then [10] else [])
  }

  function Body(ms: seq<Piece>): Bytes
    requires GoodPieces(ms)
  {
    if ms == [] then [] else PieceBytes(ms[0]) + Body(ms[1..])
  }

  function Layout(ms: seq<Piece>): Bytes
    requires GoodPieces(ms)
  {
    GLOBAL_HEADER + Body(ms)
  }

  /** What the archive holds; a later member replaces an earlier one of the same name. */
  function Contents(ms: seq<Piece>): map<Text, Bytes> {
    if ms == [] then map[] else Contents(ms[..|ms| - 1])[ms[|ms| - 1].name := ms[|ms| - 1].data]
  }

  lemma {:induction false} StripRightSpaces(t: Text, k: nat)
    requires t != [] && !Blank(t[|t| - 1])
    ensures StripRight(t + Spaces(k)) == t
    decreases k
  {
    var s := t + Spaces(k);
    if k == 0 {
      assert s == t;
    } else {
      assert s[..|s| - 1] == t + Spaces(k - 1);
      StripRightSpaces(t, k - 1);
    }
  }

  lemma StripPadded(t: Bytes, k: nat)
    requires t != [] && forall i :: 0 <= i < |t| ==> 33 <= t[i] <= 126
    ensures Strip(Decode(t + Spaces(k))) == t
  {
    hide StripRight;
    assert Decode(t + Spaces(k)) == t + Spaces(k);
    assert !Blank((t + Spaces(k))[0]);
    StripRightSpaces(t, k);
  }

  lemma {:induction false} DigitsRoundTrip(n: nat)
    ensures ParseDigits(Decimal(n)) == Some(n)
    decreases n
  {
    if n >= 10 {
      DigitsRoundTrip(n / 10);
      var d := Decimal(n);
      assert d[..|d| - 1] == Decimal(n / 10);
    }
  }

  lemma SizeFieldReads(n: nat)
    requires |Decimal(n)| <= 10
    ensures ParseDigits(Strip(Decode(SizeField(n)))) == Some(n)
  {
    hide Decimal, Strip, ParseDigits;
    StripPadded(Decimal(n), 10 - |Decimal(n)|);
    DigitsRoundTrip(n);
  }

  lemma NameFieldReads(name: Bytes)
    requires GoodName(name)
    ensures Strip(Decode(NameField(name))) == name && DropSlashes(name) == name
  {
    hide Strip;
    StripPadded(name, 16 - |name|);
  }

  lemma HeaderFields(p: Piece)
    requires GoodPiece(p)
    ensures var h := HeaderOf(p);
      |Decimal(|p.data|)| <= 10 && h[..16] == NameField(p.name) && h[48..58] == SizeField(|p.data|) && h[58..60] == MARK
  {
    hide Decimal, Pow10;
    DecimalLength(|p.data|, 10);
  }

  /** Reading back one member laid out after anything. */
  lemma PieceReads(before: Bytes, p: Piece, after: Bytes)
    requires GoodPiece(p)
    ensures var raw, o := before + PieceBytes(p) + after, |before|;
      && Steps(raw, o) && SizeAt(raw, o) == Some(|p.data|) && MarkedAt(raw, o) && Whole(raw, o)
      && RawNameAt(raw, o) == p.name && DropSlashes(p.name) == p.name && DataAt(raw, o) == p.data
      && Next(o, |p.data|) == |before + PieceBytes(p)|
  {
    hide GoodName, NameField, SizeField, ParseDigits, Strip, HeaderOf, Pow10, Decimal, DropSlashes;
    var raw, o, h := before + PieceBytes(p) + after, |before|, HeaderOf(p);
    HeaderFields(p);
    NameFieldReads(p.name);
    SizeFieldReads(|p.data|);
    assert raw[o..o + HEADER] == h;
    assert raw[o..o + 16] == h[..16];
    assert raw[o + 48..o + 58] == h[48..58];
    assert raw[o + 58..o + 60] == h[58..60];
    assert raw[o + HEADER..o + HEADER + |p.data|] == p.data;
  }

  /** Where the members lie when the first is at `o`. */
  function Places(o: nat, ms: seq<Piece>): (offs: seq<nat>)
    requires GoodPieces(ms)
    ensures |offs| == |ms|
    decreases |ms|
  {
    if ms == [] then [] else [o] + Places(o + |PieceBytes(ms[0])|, ms[1..])
  }

  /** One place holds one member, marked, whole and under its own name. */
  predicate Holds(raw: Bytes, o: nat, p: Piece) {
    && Steps(raw, o) && MarkedAt(raw, o) && Whole(raw, o)
    && RawNameAt(raw, o) == p.name && DropSlashes(p.name) == p.name && DataAt(raw, o) == p.data
  }

  predicate AllHold(raw: Bytes, offs: seq<nat>, ms: seq<Piece>) {
    |offs| == |ms| && forall i :: 0 <= i < |ms| ==> Holds(raw, offs[i], ms[i])
  }

  lemma HoldCons(raw: Bytes, o: nat, offs: seq<nat>, p: Piece, ms: seq<Piece>)
    requires Holds(raw, o, p) && AllHold(raw, offs, ms)
    ensures AllHold(raw, [o] + offs, [p] + ms)
  {
    hide Holds;
  }

  lemma {:induction false} LayoutWalk(before: Bytes, ms: seq<Piece>)
    requires GoodPieces(ms)
    ensures var raw := before + Body(ms);
      Offsets(raw, |before|) == Places(|before|, ms) && StopAt(raw, |before|) == |raw| && AllHold(raw, Places(|before|, ms), ms)
    decreases |ms|
  {
    hide GoodPiece, PieceBytes, SizeAt, Holds;
    var raw := before + Body(ms);
    if ms != [] {
      var p, rest := ms[0], ms[1..];
      var here := before + PieceBytes(p);
      PieceReads(before, p, Body(rest));
      LayoutWalk(here, rest);
      assert raw == here + Body(rest);
      HoldsHere(raw, |before|, p);
      HoldCons(raw, |before|, Places(|here|, rest), p, rest);
      assert ms == [p] + rest;
    }
  }

  lemma HoldsHere(raw: Bytes, o: nat, p: Piece)
    requires Steps(raw, o) && MarkedAt(raw, o) && Whole(raw, o)
    requires RawNameAt(raw, o) == p.name && DropSlashes(p.name) == p.name && DataAt(raw, o) == p.data
    ensures Holds(raw, o, p)
  {
    hide SizeAt;
  }

  lemma {:induction false} CollectLayout(raw: Bytes, offs: seq<nat>, ms: seq<Piece>, trim: bool)
    requires AllHold(raw, offs, ms)
    ensures AllStep(raw, offs) && AllMarked(raw, offs) && Collect(raw, offs, trim) == Contents(ms)
    decreases |ms|
  {
    hide SizeAt, RawNameAt, DropSlashes, DataAt, MarkedAt, Whole;
    if ms != [] {
      var k := |ms| - 1;
      CollectLayout(raw, offs[..k], ms[..k], trim);
      assert Holds(raw, offs[k], ms[k]);
    }
  }

  lemma ArchiveStarts(ms: seq<Piece>)
    requires GoodPieces(ms)
    ensures IsArchive(Layout(ms))
  {
    hide Body;
    assert Layout(ms)[..8] == GLOBAL_HEADER;
  }

  /** Both dictionary readers recover every member of any laid-out archive, and the reader of
      one member recovers the first of its name. */
  lemma LayoutRead(ms: seq<Piece>)
    requires GoodPieces(ms)
    ensures var raw := Layout(ms);
      && Trimmable(raw) && Directory(raw, true) == Contents(ms)
      && Tileable(raw) && Directory(raw, false) == Contents(ms)
      && AllHold(raw, Offsets(raw, 8), ms)
  {
    hide Body, IsArchive, Offsets, StopAt, Places, AllHold, Collect, AllStep, AllMarked, GoodPieces;
    var raw := Layout(ms);
    ArchiveStarts(ms);
    LayoutWalk(GLOBAL_HEADER, ms);
    CollectLayout(raw, Offsets(raw, 8), ms, true);
    CollectLayout(raw, Offsets(raw, 8), ms, false);
  }

  lemma LayoutFirst(ms: seq<Piece>, k: nat)
    requires GoodPieces(ms) && k < |ms| && forall j :: 0 <= j < k ==> ms[j].name != ms[k].name
    ensures var raw := Layout(ms);
      FirstAt(raw, Offsets(raw, 8), k, ms[k].name) && DataAt(raw, Offsets(raw, 8)[k]) == ms[k].data
  {
    hide Layout, Offsets, StopAt, IsArchive, GoodPieces, SizeAt, RawNameAt, DropSlashes, Directory;
    var raw := Layout(ms);
    LayoutRead(ms);
    var offs := Offsets(raw, 8);
    forall j | 0 <= j <= k ensures Steps(raw, offs[j]) && MarkedAt(raw, offs[j]) && NameAt(raw, offs[j], true) == ms[j].name {
      assert Holds(raw, offs[j], ms[j]);
    }
    OffsetsStep(raw, 8);
    assert Holds(raw, offs[k], ms[k]);
  }

  predicate NamesDistinct(ms: seq<Piece>) { forall i, j :: 0 <= i < j < |ms| ==> ms[i].name != ms[j].name }

  lemma {:induction false} ContentsDistinct(ms: seq<Piece>, k: nat)
    requires NamesDistinct(ms) && k < |ms|
    ensures ms[k].name in Contents(ms) && Contents(ms)[ms[k].name] == ms[k].data
    decreases |ms|
  {
    if k < |ms| - 1 { ContentsDistinct(ms[..|ms| - 1], k); }
  }

  /** The three readers run on one laid-out archive with distinct names: whichever member is
      asked for, all three hold the same bytes for it, its own. */
  method ThreeReadersAgree(ms: seq<Piece>, k: nat) returns (one: Result<Bytes>, trimmed: Result<map<Text, Bytes>>, kept: Result<map<Text, Bytes>>)
    requires GoodPieces(ms) && NamesDistinct(ms) && k < |ms|
    ensures one == Ok(ms[k].data) && trimmed == kept == Ok(Contents(ms))
    ensures ms[k].name in trimmed.value && trimmed.value[ms[k].name] == ms[k].data
  {
    hide Layout, GoodPieces, Contents, FirstAt, Trimmable, Tileable, Directory, AllHold, Offsets, DataAt;
    LayoutRead(ms);
    LayoutFirst(ms, k);
    ContentsDistinct(ms, k);
    var raw := Layout(ms);
    ArchiveStarts(ms);
    one := ArMember(raw, ms[k].name);
    trimmed := ArMembers(raw);
    kept := DebMembers(raw);
  }

  /** Two members of one name: the first for one reader, the second for the others. */
  lemma RepeatedNameDisagrees(p: Piece, q: Piece)
    requires GoodPiece(p) && GoodPiece(q) && p.name == q.name
    ensures var ms := [p, q]; var raw := Layout(ms);
      && FirstAt(raw, Offsets(raw, 8), 0, p.name) && DataAt(raw, Offsets(raw, 8)[0]) == p.data
      && Directory(raw, true) == map[p.name := q.data] && Directory(raw, false) == map[p.name := q.data]
  {
    hide Layout, FirstAt, Trimmable, Tileable, Directory, AllHold, Offsets, DataAt, GoodPiece;
    var ms := [p, q];
    LayoutRead(ms);
    LayoutFirst(ms, 0);
    assert ms[..1] == [p] && ms[..1][..0] == [];
    assert Contents(ms[..1]) == map[p.name := p.data];
    assert Contents(ms) == map[p.name := q.data];
  }

  /** An archive of one empty member called `a/`. */
  function SlashedArchive(middle: Bytes): Bytes
    requires |middle| == 32
  {
    DecimalLength(0, 10);
    GLOBAL_HEADER + (NameField([97, 47]) + middle + SizeField(0) + MARK)
  }

  lemma SlashedHeader(middle: Bytes)
    requires |middle| == 32
    ensures var raw := SlashedArchive(middle);
      && |raw| == 68 && IsArchive(raw) && MarkedAt(raw, 8) && Steps(raw, 8) && SizeAt(raw, 8) == Some(0) && RawNameAt(raw, 8) == [97, 47] && DataAt(raw, 8) == []
  {
    hide Strip, ParseDigits;
    DecimalLength(0, 10);
    var raw := SlashedArchive(middle);
    StripPadded([97, 47], 14);
    SizeFieldReads(0);
    assert raw[8..24] == NameField([97, 47]);
    assert raw[56..66] == SizeField(0);
  }

  lemma OneHeader(raw: Bytes)
    requires |raw| == 68 && IsArchive(raw) && MarkedAt(raw, 8) && Steps(raw, 8) && SizeAt(raw, 8) == Some(0)
    ensures Offsets(raw, 8) == [8] && Trimmable(raw) && Tileable(raw)
  {
    hide IsArchive, MarkedAt, SizeAt;
    assert Next(8, 0) == 68 && !Steps(raw, 68);
    assert Offsets(raw, 68) == [] && Offsets(raw, 8) == [8] + Offsets(raw, 68);
    assert StopAt(raw, 68) == 68 && StopAt(raw, 8) == StopAt(raw, 68);
    OffsetsStep(raw, 8);
  }

  /** Both readers accept it; one dictionary knows it as `a`, the other as `a/`. */
  lemma SlashedNameDisagrees(middle: Bytes)
    requires |middle| == 32
    ensures var raw := SlashedArchive(middle);
      && Trimmable(raw) && Tileable(raw)
      && Directory(raw, true) == map[[97] := []] && Directory(raw, false) == map[[97, 47] := []]
  {
    hide SlashedArchive, SizeAt, RawNameAt, DataAt, Offsets, IsArchive, MarkedAt, Trimmable, Tileable;
    var raw := SlashedArchive(middle);
    SlashedHeader(middle);
    OneHeader(raw);
    assert [97, 47][..1] == [97];
    assert DropSlashes([97, 47]) == DropSlashes([97]) == [97];
    var none: seq<nat> := [];
    assert none + [8] == [8];
    OffsetsStep(raw, 8);
    CollectSnoc(raw, none, 8, true);
    CollectSnoc(raw, none, 8, false);
  }
}
