/** The `ar` format byte by byte: what a header's text fields read as, and where the headers
    of any archive lie. */
module ArBytes {
  import opened ByteStrings
  import opened Ar

  /** The format's two fixed texts. */
  lemma FixedTexts()
    ensures GLOBAL_HEADER == Ascii("!<arch>\n")
    ensures MARK == Ascii("`\n")
  {
    assert |GLOBAL_HEADER| == 8 && |MARK| == 2;
  }

  /* ----- text fields ----- */

  /** ASCII bytes stand for themselves. */
  predicate Decoded(raw: Bytes, t: Text) {
    |t| == |raw| && forall i :: 0 <= i < |raw| ==> t[i] == (if raw[i] <= 127 then raw[i] else 65533)
  }

  predicate Space(c: int) { c in {9, 10, 11, 12, 13, 28, 29, 30, 31, 32} }

  /** `t` is `s[i..j]`, with only blanks around it and none at its own ends. */
  predicate Cut(s: Text, t: Text, i: nat, j: nat) {
    && i <= j <= |s| && t == s[i..j]
    && (forall k :: 0 <= k < i ==> Space(s[k])) && (forall k :: j <= k < |s| ==> Space(s[k]))
    && (t != [] ==> !Space(t[0]) && !Space(t[|t| - 1]))
  }

  ghost predicate Stripped(s: Text, t: Text) { exists i: nat, j: nat :: Cut(s, t, i, j) }

  lemma {:induction false} LeftCut(s: Text) returns (i: nat)
    ensures i <= |s| && StripLeft(s) == s[i..] && (forall k :: 0 <= k < i ==> Space(s[k])) && (i < |s| ==> !Space(s[i]))
    decreases |s|
  {
    i := 0;
    if s != [] && Blank(s[0]) {
      var n := LeftCut(s[1..]);
      i := n + 1;
      assert s[1..][n..] == s[i..];
      forall k | 0 <= k < i ensures Space(s[k]) { if k > 0 { assert s[k] == s[1..][k - 1]; } }
    }
  }

  lemma {:induction false} RightCut(s: Text) returns (j: nat)
    ensures j <= |s| && StripRight(s) == s[..j] && (forall k :: j <= k < |s| ==> Space(s[k])) && (j > 0 ==> !Space(s[j - 1]))
    decreases |s|
  {
    j := |s|;
    if s != [] && Blank(s[|s| - 1]) {
      var init := s[..|s| - 1];
      j := RightCut(init);
      assert init[..j] == s[..j];
      forall k | j <= k < |s| ensures Space(s[k]) { if k < |s| - 1 { assert s[k] == init[k]; } }
    }
  }

  lemma StripCut(s: Text) returns (i: nat, j: nat)
    ensures Cut(s, Strip(s), i, j)
  {
    hide Space;
    i := LeftCut(s);
    var rest := s[i..];
    var n := RightCut(rest);
    j := i + n;
    assert rest[..n] == s[i..j];
    forall k | j <= k < |s| ensures Space(s[k]) { assert s[k] == rest[k - i]; }
    assert n > 0 ==> rest[n - 1] == s[j - 1] && (i < |s| ==> rest[0] == s[i]);
  }

  lemma CutUnique(s: Text, t: Text, i: nat, j: nat, u: Text, k: nat, l: nat)
    requires Cut(s, t, i, j) && Cut(s, u, k, l)
    ensures t == u
  {
    hide Cut;
    CutEnds(s, t, i, j);
    CutEnds(s, u, k, l);
    if i < j {
      CutHolds(s, u, k, l, i);
      CutHolds(s, u, k, l, j - 1);
    }
    if k < l {
      CutHolds(s, t, i, j, k);
      CutHolds(s, t, i, j, l - 1);
    }
  }

  lemma CutEnds(s: Text, t: Text, i: nat, j: nat)
    requires Cut(s, t, i, j)
    ensures i <= j <= |s| && t == s[i..j] && (i < j ==> !Space(s[i]) && !Space(s[j - 1]))
  {
    hide Space;
    if i < j { assert t[0] == s[i] && t[|t| - 1] == s[j - 1]; }
  }

  lemma CutHolds(s: Text, t: Text, i: nat, j: nat, p: nat)
    requires Cut(s, t, i, j) && p < |s| && !Space(s[p])
    ensures i <= p < j
  {
    hide Space;
  }

  lemma StripExact(s: Text, t: Text)
    ensures Strip(s) == t <==> Stripped(s, t)
  {
    hide Strip, Cut;
    var i, j := StripCut(s);
    forall k: nat, l: nat | Cut(s, t, k, l) ensures Strip(s) == t { CutUnique(s, Strip(s), i, j, t, k, l); }
  }

  /** Slashes at the end do not count. */
  predicate Unslashed(s: Text, t: Text) {
    t <= s && (forall k :: |t| <= k < |s| ==> s[k] == 47) && (t != [] ==> t[|t| - 1] != 47)
  }

  lemma {:induction false} DropExact(s: Text, t: Text)
    ensures DropSlashes(s) == t <==> Unslashed(s, t)
    decreases |s|
  {
    if s != [] && s[|s| - 1] == 47 {
      var init := s[..|s| - 1];
      DropExact(init, t);
      if Unslashed(s, t) {
        assert |t| == |s| ==> t == s;
        assert t <= init;
      }
      if Unslashed(init, t) {
        assert t <= s;
      }
    } else if Unslashed(s, t) {
      assert |t| == |s|;
    }
  }

  function Power10(n: nat): nat { if n == 0 then 1 else 10 * Power10(n - 1) }

  /** Decimal digits as a number, most significant first. */
  function Number(t: Text): int { if t == [] then 0 else (t[0] - 48) * Power10(|t| - 1) + Number(t[1..]) }

  predicate Digits(t: Text) { t != [] && forall k :: 0 <= k < |t| ==> 48 <= t[k] <= 57 }

  lemma {:induction false} NumberSnoc(t: Text, c: int)
    ensures Number(t + [c]) == 10 * Number(t) + (c - 48)
    decreases |t|
  {
    if t == [] {
      assert [c][1..] == [] && Power10(0) == 1;
    } else {
      NumberSnoc(t[1..], c);
      assert (t + [c])[1..] == t[1..] + [c];
      var p := Power10(|t| - 1);
      assert Power10(|t|) == 10 * p;
      assert (t[0] - 48) * (10 * p) == 10 * ((t[0] - 48) * p);
    }
  }

  lemma {:induction false} DigitsExact(t: Text)
    ensures ParseDigits(t).Some? <==> Digits(t)
    ensures Digits(t) ==> ParseDigits(t).value == Number(t)
    decreases |t|
  {
    if t != [] {
      var n := |t| - 1;
      var init, last := t[..n], t[n];
      assert t == init + [last];
      NumberSnoc(init, last);
      DigitsExact(init);
      if n == 0 {
        assert init == [] && Number(init) == 0;
      } else {
        DigitsSplit(init, last);
      }
    }
  }

  lemma DigitsSplit(init: Text, last: int)
    requires init != []
    ensures Digits(init + [last]) <==> Digits(init) && 48 <= last <= 57
  {
    if Digits(init + [last]) {
      forall k | 0 <= k < |init| ensures 48 <= init[k] <= 57 { assert (init + [last])[k] == init[k]; }
      assert (init + [last])[|init|] == last;
    }
  }

  /* ----- headers ----- */

  /** The ten bytes of the size field read as this number. */
  ghost predicate SizeField(raw: Bytes, o: nat, size: int)
    requires o + 60 <= |raw|
  {
    exists t: Text, u: Text :: Decoded(raw[o + 48..o + 58], t) && Stripped(t, u) && Digits(u) && Number(u) == size
  }

  /** The sixteen bytes of the name field read as this text. */
  ghost predicate NameField(raw: Bytes, o: nat, name: Text)
    requires o + 60 <= |raw|
  {
    exists t: Text :: Decoded(raw[o..o + 16], t) && Stripped(t, name)
  }

  /** The same with slashes at the end dropped. */
  ghost predicate ShortName(raw: Bytes, o: nat, name: Text)
    requires o + 60 <= |raw|
  {
    exists whole :: NameField(raw, o, whole) && Unslashed(whole, name)
  }

  lemma DecodeExact(raw: Bytes, t: Text)
    ensures Decode(raw) == t <==> Decoded(raw, t)
  {
  }

  /** A header in any buffer: the file's magic, the mark, the two fields, where the data
      lies and where the next header is looked for. */
  lemma HeaderExact(raw: Bytes, o: nat)
    ensures IsArchive(raw) <==>
      |raw| >= 8 && raw[0] == 33 && raw[1] == 60 && raw[2] == 97 && raw[3] == 114 && raw[4] == 99 && raw[5] == 104 && raw[6] == 62 && raw[7] == 10
    ensures HasHeader(raw, o) <==> o + 60 <= |raw|
    ensures HasHeader(raw, o) ==> (MarkedAt(raw, o) <==> raw[o + 58] == 96 && raw[o + 59] == 10)
    ensures HasHeader(raw, o) ==> forall n: nat :: SizeAt(raw, o) == Some(n) <==> SizeField(raw, o, n)
    ensures HasHeader(raw, o) ==> forall name :: RawNameAt(raw, o) == name <==> NameField(raw, o, name)
    ensures HasHeader(raw, o) ==> forall name :: NameAt(raw, o, true) == name <==> ShortName(raw, o, name)
    ensures Steps(raw, o) ==>
      var n := SizeAt(raw, o).value;
      DataAt(raw, o) == (if o + 60 + n <= |raw| then raw[o + 60..o + 60 + n] else raw[o + 60..])
  {
    hide SizeAt, RawNameAt, SizeField, NameField, DropSlashes, Unslashed;
    if HasHeader(raw, o) {
      forall n: nat ensures SizeAt(raw, o) == Some(n) <==> SizeField(raw, o, n) { SizeExact(raw, o, n); }
      forall name ensures RawNameAt(raw, o) == name <==> NameField(raw, o, name) { NameExact(raw, o, name); }
      forall name ensures DropSlashes(RawNameAt(raw, o)) == name <==> ShortName(raw, o, name) {
        DropExact(RawNameAt(raw, o), name);
        NameExact(raw, o, RawNameAt(raw, o));
      }
    }
  }

  lemma SizeExact(raw: Bytes, o: nat, n: nat)
    requires o + 60 <= |raw|
    ensures SizeAt(raw, o) == Some(n) <==> SizeField(raw, o, n)
  {
    hide Strip, ParseDigits, Stripped, Digits, Number, Decoded;
    var field := raw[o + 48..o + 58];
    var t := Decode(field);
    var u := Strip(t);
    DecodeExact(field, t);
    StripExact(t, u);
    DigitsExact(u);
    forall t', u' | Decoded(field, t') && Stripped(t', u') ensures t' == t && u' == u {
      DecodeExact(field, t');
      StripExact(t', u');
    }
  }

  lemma NameExact(raw: Bytes, o: nat, name: Text)
    requires o + 60 <= |raw|
    ensures RawNameAt(raw, o) == name <==> NameField(raw, o, name)
  {
    hide Strip, Stripped, Decoded;
    var field := raw[o..o + 16];
    var t := Decode(field);
    DecodeExact(field, t);
    StripExact(t, name);
    forall t' | Decoded(field, t') && Stripped(t', name) ensures t' == t { DecodeExact(field, t'); }
  }

  /* ----- where the headers lie ----- */

  /** A chain of readable headers from `o`, each followed by its data padded to an even
      length, up to `stop`, where no readable header lies. */
  ghost predicate Chain(raw: Bytes, o: nat, offs: seq<nat>, stop: nat)
    decreases |offs|
  {
    if offs == [] then stop == o && !exists n: nat :: Readable(raw, o, n)
    else offs[0] == o && exists n: nat :: Readable(raw, o, n) && Chain(raw, if n % 2 == 0 then o + 60 + n else o + 61 + n, offs[1..], stop)
  }

  ghost predicate Readable(raw: Bytes, o: nat, n: nat) { o + 60 <= |raw| && SizeField(raw, o, n) }

  lemma StepReadable(raw: Bytes, o: nat)
    ensures Steps(raw, o) <==> exists n: nat :: Readable(raw, o, n)
    ensures forall n: nat :: Readable(raw, o, n) <==> Steps(raw, o) && SizeAt(raw, o).value == n
  {
    hide SizeAt, SizeField;
    if HasHeader(raw, o) {
      forall n: nat ensures SizeAt(raw, o) == Some(n) <==> SizeField(raw, o, n) { SizeExact(raw, o, n); }
      if Steps(raw, o) { assert Readable(raw, o, SizeAt(raw, o).value); }
    }
  }

  lemma ChainStep(raw: Bytes, o: nat, offs: seq<nat>, stop: nat)
    ensures offs == [] ==> (Chain(raw, o, offs, stop) <==> stop == o && !Steps(raw, o))
    ensures offs != [] ==>
      (Chain(raw, o, offs, stop) <==> offs[0] == o && Steps(raw, o) && Chain(raw, Next(o, SizeAt(raw, o).value), offs[1..], stop))
  {
    hide SizeAt, Readable, Steps;
    StepReadable(raw, o);
  }

  lemma OffsetsWalk(raw: Bytes, o: nat)
    ensures Steps(raw, o) ==>
      var next := Next(o, SizeAt(raw, o).value);
      Offsets(raw, o) == [o] + Offsets(raw, next) && StopAt(raw, o) == StopAt(raw, next)
    ensures !Steps(raw, o) ==> Offsets(raw, o) == [] && StopAt(raw, o) == o
  {
    hide SizeAt;
  }

  /** The walk visits exactly the chain of headers. */
  lemma {:induction false} WalkExact(raw: Bytes, o: nat, offs: seq<nat>, stop: nat)
    ensures Offsets(raw, o) == offs && StopAt(raw, o) == stop <==> Chain(raw, o, offs, stop)
    decreases |offs|
  {
    hide SizeAt, Chain, Offsets, StopAt;
    ChainStep(raw, o, offs, stop);
    OffsetsWalk(raw, o);
    if offs != [] && Steps(raw, o) {
      var next := Next(o, SizeAt(raw, o).value);
      WalkExact(raw, next, offs[1..], stop);
      assert offs == [offs[0]] + offs[1..];
    }
  }
}
