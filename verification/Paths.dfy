/** Slash-separated paths as byte strings and as component sequences. */
module Paths {
  import opened ByteStrings

  /** What a tree entry can be. */
  datatype Kind = Directory | Symlink | File

  /** Whether a mode has the bit of that weight. */
  predicate Bit(mode: nat, weight: nat)
    requires weight > 0
  {
    mode / weight % 2 == 1
  }

  /** A mode by its permission digits. */
  function Octal(owner: nat, group: nat, others: nat): nat { 64 * owner + 8 * group + others }

  /** The bits of the lowest octal digit. */
  lemma DigitBits(n: nat)
    ensures Bit(n, 4) <==> n % 8 >= 4
    ensures Bit(n, 2) <==> n % 8 % 4 >= 2
    ensures Bit(n, 1) <==> n % 8 % 2 == 1
  {
    var q, d := n / 8, n % 8;
    assert n / 4 == 2 * q + d / 4 && n / 2 == 2 * (2 * q) + d / 2 && n == 2 * (4 * q) + d;
    EvenApart(q, d / 4);
    EvenApart(2 * q, d / 2);
    EvenApart(4 * q, d);
  }

  lemma EvenApart(q: nat, r: nat)
    ensures (2 * q + r) % 2 == r % 2
  {
  }

  /** The octal digits above the lowest. */
  lemma DigitAbove(n: nat)
    ensures Bit(n, 0x800) <==> Bit(n / 512, 4)
    ensures Bit(n, 0x400) <==> Bit(n / 512, 2)
    ensures Bit(n, 0x200) <==> Bit(n / 512, 1)
    ensures Bit(n, 0x10) <==> Bit(n / 8, 2)
    ensures Bit(n, 0x08) <==> Bit(n / 8, 1)
  {
    assert n / 0x800 == n / 512 / 4 && n / 0x400 == n / 512 / 2 && n / 0x10 == n / 8 / 2;
  }

  const SLASH: Byte := 47
  const DOT: Bytes := [46]
  const DOTDOT: Bytes := [46, 46]

  /** `s.split("/")`: always at least one part, empty parts included. */
  function Split(s: Bytes): (parts: seq<Bytes>)
    ensures |parts| >= 1
    decreases |s|
  {
    if s == [] then [[]]
    else if s[0] == SLASH then [[]] + Split(s[1..])
    else var rest := Split(s[1..]); [[s[0]] + rest[0]] + rest[1..]
  }

  /** `"/".join(parts)`. */
  function Join(parts: seq<Bytes>): Bytes {
    if |parts| == 0 then []
    else if |parts| == 1 then parts[0]
    else parts[0] + [SLASH] + Join(parts[1..])
  }

  predicate SlashFree(parts: seq<Bytes>) {
    forall i :: 0 <= i < |parts| ==> SLASH !in parts[i]
  }

  lemma {:induction false} SplitSlashFree(s: Bytes)
    ensures SlashFree(Split(s))
    decreases |s|
  {
    if s != [] { SplitSlashFree(s[1..]); }
  }

  lemma {:induction false} JoinSplit(s: Bytes)
    ensures Join(Split(s)) == s
    decreases |s|
  {
    if s != [] {
      var rest := Split(s[1..]);
      JoinSplit(s[1..]);
      if s[0] == SLASH {
        assert ([[]] + rest)[1..] == rest;
        assert s == [SLASH] + s[1..];
      } else {
        var parts := [[s[0]] + rest[0]] + rest[1..];
        assert parts[1..] == rest[1..];
        assert Join(parts) == [s[0]] + Join(rest);
        assert s == [s[0]] + s[1..];
      }
    }
  }

  lemma {:induction false} SplitOne(part: Bytes)
    requires SLASH !in part
    ensures Split(part) == [part]
    decreases |part|
  {
    if part != [] {
      assert part[0] != SLASH;
      SplitOne(part[1..]);
      assert part == [part[0]] + part[1..];
    }
  }

  lemma {:induction false} SplitCons(part: Bytes, tail: Bytes)
    requires SLASH !in part
    ensures Split(part + [SLASH] + tail) == [part] + Split(tail)
    decreases |part|
  {
    var s := part + [SLASH] + tail;
    if part == [] {
      assert s[1..] == tail;
    } else {
      assert part[0] != SLASH;
      SplitCons(part[1..], tail);
      assert s[1..] == part[1..] + [SLASH] + tail;
      assert part == [part[0]] + part[1..];
    }
  }

  lemma {:induction false} SplitJoin(parts: seq<Bytes>)
    requires |parts| >= 1 && SlashFree(parts)
    ensures Split(Join(parts)) == parts
    decreases |parts|
  {
    if |parts| == 1 {
      SplitOne(parts[0]);
      assert parts == [parts[0]];
    } else {
      SplitJoin(parts[1..]);
      SplitCons(parts[0], Join(parts[1..]));
      assert parts == [parts[0]] + parts[1..];
    }
  }

  lemma {:induction false} JoinSnoc(dir: seq<Bytes>, name: Bytes)
    requires |dir| >= 1
    ensures Join(dir + [name]) == Join(dir) + [SLASH] + name
    decreases |dir|
  {
    if |dir| == 1 {
      assert (dir + [name])[1..] == [name];
    } else {
      JoinSnoc(dir[1..], name);
      assert (dir + [name])[1..] == dir[1..] + [name];
    }
  }

  /** A component that may appear in a normalized path. */
  predicate PlainName(part: Bytes) {
    part != [] && part != DOT && part != DOTDOT && SLASH !in part
  }

  predicate Plain(parts: seq<Bytes>) {
    forall i :: 0 <= i < |parts| ==> PlainName(parts[i])
  }

  /** The path check of the initrd writer: relative, and already normalized. */
  predicate Normalized(path: Bytes) {
    path != [] && path[0] != SLASH && [] !in Split(path) && DOT !in Split(path) && DOTDOT !in Split(path)
  }

  lemma NormalizedIsPlain(path: Bytes)
    ensures Normalized(path) <==> Plain(Split(path))
  {
    SplitSlashFree(path);
    var parts := Split(path);
    if Plain(parts) {
      assert PlainName(parts[0]);
    } else {
      var i :| 0 <= i < |parts| && !PlainName(parts[i]);
      assert parts[i] in parts;
    }
  }
}
