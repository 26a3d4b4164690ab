/** Byte strings: the byte-wise order that every "sorted by path bytes" in the tooling
    refers to, slices that clamp at the end of the buffer, and strict UTF-8. */
module ByteStrings {

  type Byte = b: int | 0 <= b < 256

  type Bytes = seq<Byte>

  datatype Option<+T> = None | Some(value: T)

  /** Every raised exception is one failure outcome. */
  datatype Result<+T> = Ok(value: T) | Fail

  /** `raw[lo : hi]`, clamped to the buffer as the source language does. */
  function Slice(raw: Bytes, lo: nat, hi: nat): (r: Bytes)
    ensures lo <= hi <= |raw| ==> r == raw[lo..hi]
    ensures |r| <= |raw|
  {
    var top := if hi < |raw| then hi else |raw|;
    if lo < top then raw[lo..top] else []
  }

  /** The bytes of plain ASCII text. */
  function Ascii(s: string): (b: Bytes)
    requires forall i :: 0 <= i < |s| ==> s[i] < 128 as char
    ensures |b| == |s| && forall i :: 0 <= i < |s| ==> b[i] == s[i] as int
  {
    seq(|s|, i requires 0 <= i < |s| => s[i] as int)
  }

  /* ----- byte order ----- */

  /** Byte-wise lexicographic order, shorter first on a shared prefix. */
  predicate Less(a: Bytes, b: Bytes)
    decreases |b|
  {
    |b| != 0 && (|a| == 0 || a[0] < b[0] || (a[0] == b[0] && Less(a[1..], b[1..])))
  }

  /** `a` ends, or has the smaller byte, where the two first part. */
  predicate PartsAt(a: Bytes, b: Bytes, k: nat) {
    k <= |a| && k < |b| && a[..k] == b[..k] && (k == |a| || a[k] < b[k])
  }

  lemma {:induction false} LessExact(a: Bytes, b: Bytes)
    ensures Less(a, b) <==> exists k: nat :: PartsAt(a, b, k)
    decreases |b|
  {
    if |a| > 0 && |b| > 0 && a[0] == b[0] {
      LessExact(a[1..], b[1..]);
      forall k: nat ensures PartsAt(a[1..], b[1..], k) <==> PartsAt(a, b, k + 1) { PartsNext(a, b, k); }
      forall k: nat | PartsAt(a, b, k) ensures k > 0 && PartsAt(a[1..], b[1..], k - 1) { PartsNext(a, b, k - 1); }
    } else if |b| > 0 && (|a| == 0 || a[0] < b[0]) {
      assert PartsAt(a, b, 0);
    } else {
      forall k: nat ensures !PartsAt(a, b, k) {
        assert k > 0 && k <= |a| && k < |b| ==> a[..k][0] == a[0] && b[..k][0] == b[0];
      }
    }
  }

  lemma PartsNext(a: Bytes, b: Bytes, k: nat)
    requires |a| > 0 && |b| > 0 && a[0] == b[0]
    ensures PartsAt(a[1..], b[1..], k) <==> PartsAt(a, b, k + 1)
  {
    if k + 1 <= |a| && k + 1 <= |b| {
      assert a[..k + 1] == [a[0]] + a[1..][..k] && b[..k + 1] == [b[0]] + b[1..][..k];
      if a[..k + 1] == b[..k + 1] { assert a[1..][..k] == a[..k + 1][1..] && b[1..][..k] == b[..k + 1][1..]; }
    }
  }

  lemma {:induction false} LessIrreflexive(a: Bytes)
    ensures !Less(a, a)
    decreases |a|
  {
    if |a| > 0 { LessIrreflexive(a[1..]); }
  }

  lemma {:induction false} LessTotal(a: Bytes, b: Bytes)
    ensures Less(a, b) || Less(b, a) || a == b
    decreases |b|
  {
    if |a| > 0 && |b| > 0 && a[0] == b[0] {
      LessTotal(a[1..], b[1..]);
      assert a == [a[0]] + a[1..] && b == [b[0]] + b[1..];
    }
  }

  lemma {:induction false} LessTransitive(a: Bytes, b: Bytes, c: Bytes)
    requires Less(a, b) && Less(b, c)
    ensures Less(a, c)
    decreases |b|
  {
    if |a| > 0 && |b| > 0 && a[0] == b[0] == c[0] {
      LessTransitive(a[1..], b[1..], c[1..]);
    }
  }

  lemma LessAsymmetric(a: Bytes, b: Bytes)
    requires Less(a, b)
    ensures !Less(b, a) && a != b
  {
    LessIrreflexive(a);
    if Less(b, a) { LessTransitive(a, b, a); }
  }

  /** A proper prefix comes first; this is what puts a directory before what it holds. */
  lemma {:induction false} PrefixLess(a: Bytes, b: Bytes)
    requires b != []
    ensures Less(a, a + b)
    decreases |a|
  {
    if |a| > 0 {
      PrefixLess(a[1..], b);
      assert (a + b)[1..] == a[1..] + b;
    }
  }

  /** Strictly increasing: sorted, with nothing repeated. */
  predicate Increasing(s: seq<Bytes>) {
    forall i, j :: 0 <= i < j < |s| ==> Less(s[i], s[j])
  }

  predicate Distinct<T(==)>(s: seq<T>) {
    forall i, j :: 0 <= i < j < |s| ==> s[i] != s[j]
  }

  lemma IncreasingDistinct(s: seq<Bytes>)
    requires Increasing(s)
    ensures Distinct(s)
  {
    forall i, j | 0 <= i < j < |s| ensures s[i] != s[j] {
      LessAsymmetric(s[i], s[j]);
    }
  }

  /** Two increasing sequences with the same elements are the same sequence. */
  lemma {:induction false} IncreasingUnique(s: seq<Bytes>, t: seq<Bytes>)
    requires Increasing(s) && Increasing(t)
    requires forall x :: x in s <==> x in t
    ensures s == t
    decreases |s|
  {
    assert |t| > 0 ==> t[0] in t;
    if |s| > 0 {
      assert s[0] in t;
      assert t[0] in s;
      var i :| 0 <= i < |t| && t[i] == s[0];
      var j :| 0 <= j < |s| && s[j] == t[0];
      if i > 0 && j > 0 {
        assert Less(t[0], t[i]) && Less(s[0], s[j]);
        LessAsymmetric(t[0], t[i]);
      }
      assert s[0] == t[0];
      IncreasingDistinct(s);
      IncreasingDistinct(t);
      forall x ensures x in s[1..] <==> x in t[1..] {
        TailMembers(s, x);
        TailMembers(t, x);
      }
      IncreasingUnique(s[1..], t[1..]);
      assert s == [s[0]] + s[1..] && t == [t[0]] + t[1..];
    }
  }

  lemma TailMembers<T>(s: seq<T>, x: T)
    requires s != [] && Distinct(s)
    ensures x in s[1..] <==> x in s && x != s[0]
  {
    if x in s && x != s[0] {
      var k :| 0 <= k < |s| && s[k] == x;
      assert s[1..][k - 1] == x;
    }
    if x in s[1..] {
      var k :| 0 <= k < |s[1..]| && s[1..][k] == x;
      assert s[k + 1] == x;
    }
  }

  /* ----- strict UTF-8 ----- */

  /** How many bytes a lead byte announces; 0 for a continuation or an invalid byte. */
  function LeadWidth(b: Byte): nat {
    if b < 0x80 then 1
    else if 0xC2 <= b < 0xE0 then 2
    else if 0xE0 <= b < 0xF0 then 3
    else if 0xF0 <= b < 0xF5 then 4
    else 0
  }

  predicate Continuation(s: Bytes, i: int) { 0 <= i < |s| && 0x80 <= s[i] < 0xC0 }

  /** The byte at `i` either leads a complete sequence that is not overlong, not a
      surrogate and not above U+10FFFF, or continues one that an earlier byte leads. */
  predicate Utf8At(s: Bytes, i: nat)
    requires i < |s|
  {
    var w := LeadWidth(s[i]);
    if w > 0 then
      && (w > 1 ==> Continuation(s, i + 1)) && (w > 2 ==> Continuation(s, i + 2)) && (w > 3 ==> Continuation(s, i + 3))
      && (s[i] == 0xE0 ==> s[i + 1] >= 0xA0) && (s[i] == 0xED ==> s[i + 1] < 0xA0)
      && (s[i] == 0xF0 ==> s[i + 1] >= 0x90) && (s[i] == 0xF4 ==> s[i + 1] < 0x90)
    else
      && Continuation(s, i)
      && (|| (i > 0 && LeadWidth(s[i - 1]) > 1)
          || (i > 1 && LeadWidth(s[i - 2]) > 2)
          || (i > 2 && LeadWidth(s[i - 3]) > 3))
  }

  predicate Utf8(s: Bytes) {
    forall i {:trigger Utf8At(s, i)} :: 0 <= i < |s| ==> Utf8At(s, i)
  }
}
