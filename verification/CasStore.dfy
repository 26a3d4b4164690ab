/** Publishing one streamed artifact into the store, one system call at a time, with every
    call allowed to fail and another publisher allowed to win the race. */
module CasStore {
  import opened ByteStrings
  import opened Cas

  datatype Chunk = Data(bytes: Bytes) | Raises

  function Flatten(chunks: seq<Chunk>): Bytes {
    if chunks == [] then []
    else Flatten(chunks[..|chunks| - 1]) + (if chunks[|chunks| - 1].Data? then chunks[|chunks| - 1].bytes else [])
  }

  predicate GoodChunks(chunks: seq<Chunk>) {
    forall i :: 0 <= i < |chunks| ==> chunks[i].Data? && chunks[i].bytes != []
  }

  /** The stream is the frozen artifact: no empty chunk, no failure, its size, its digest. */
  predicate Delivers(host: Host, spec: Spec, chunks: seq<Chunk>) {
    GoodChunks(chunks) && |Flatten(chunks)| == spec.size && host.hash(Flatten(chunks)) == spec.sha256
  }

  lemma {:induction false} FlattenGrows(chunks: seq<Chunk>, k: nat)
    requires k <= |chunks|
    ensures |Flatten(chunks[..k])| <= |Flatten(chunks)|
    decreases |chunks| - k
  {
    if k == |chunks| {
      assert chunks[..k] == chunks;
    } else {
      assert chunks[..k + 1][..k] == chunks[..k];
      FlattenGrows(chunks, k + 1);
    }
  }

  lemma FlattenNone(chunks: seq<Chunk>)
    ensures Flatten(chunks[..0]) == []
  {
    assert chunks[..0] == [];
  }

  lemma FlattenNext(chunks: seq<Chunk>, k: nat)
    requires k < |chunks| && chunks[k].Data?
    ensures Flatten(chunks[..k + 1]) == Flatten(chunks[..k]) + chunks[k].bytes
    ensures |Flatten(chunks[..k + 1])| <= |Flatten(chunks)|
  {
    assert chunks[..k + 1][..k] == chunks[..k];
    FlattenGrows(chunks, k + 1);
  }

  /** Everything the world decides during one publication. */
  datatype Attempt = Attempt(token: nat, creates: bool, chunks: seq<Chunk>, writes: nat -> int, syncsFile: bool,
                             rival: Option<Rival>, links: bool, syncsDirectory: bool, unlinks: bool, syncsAfter: bool)

  /** The number of the write after the one that completes `n` bytes; none if a write stops. */
  function WriteOut(writes: nat -> int, step: nat, n: nat): Option<nat>
    decreases n
  {
    if n == 0 then Some(step)
    else if writes(step) <= 0 then None
    else WriteOut(writes, step + 1, if writes(step) < n then n - writes(step) else 0)
  }

  function WriteAll(writes: nat -> int, chunks: seq<Chunk>): Option<nat> {
    if chunks == [] then Some(0)
    else
      var last := chunks[|chunks| - 1];
      match WriteAll(writes, chunks[..|chunks| - 1])
      case None => None
      case Some(step) => if last.Data? then WriteOut(writes, step, |last.bytes|) else None
  }

  lemma {:induction false} ProgressWrites(writes: nat -> int, step: nat, n: nat)
    requires forall k: nat :: writes(k) > 0
    ensures WriteOut(writes, step, n).Some?
    decreases n
  {
    if n > 0 { ProgressWrites(writes, step + 1, if writes(step) < n then n - writes(step) else 0); }
  }

  lemma {:induction false} ProgressWritesAll(writes: nat -> int, chunks: seq<Chunk>)
    requires (forall k: nat :: writes(k) > 0) && GoodChunks(chunks)
    ensures WriteAll(writes, chunks).Some?
    decreases |chunks|
  {
    if chunks != [] {
      var init := chunks[..|chunks| - 1];
      ProgressWritesAll(writes, init);
      ProgressWrites(writes, WriteAll(writes, init).value, |chunks[|chunks| - 1].bytes|);
    }
  }

  lemma WriteAllNext(writes: nat -> int, chunks: seq<Chunk>, k: nat)
    requires k < |chunks| && chunks[k].Data? && WriteAll(writes, chunks[..k]).Some?
    ensures WriteAll(writes, chunks[..k + 1]) == WriteOut(writes, WriteAll(writes, chunks[..k]).value, |chunks[k].bytes|)
  {
    assert chunks[..k + 1][..k] == chunks[..k];
  }

  lemma {:induction false} WriteStops(writes: nat -> int, chunks: seq<Chunk>, k: nat)
    requires k <= |chunks| && WriteAll(writes, chunks[..k]).None?
    ensures WriteAll(writes, chunks).None?
    decreases |chunks| - k
  {
    if k < |chunks| {
      assert chunks[..k + 1][..k] == chunks[..k];
      WriteStops(writes, chunks, k + 1);
    } else {
      assert chunks[..k] == chunks;
    }
  }

  /** No call fails and nobody else publishes. */
  ghost predicate Favourable(a: Attempt) {
    && a.creates && (forall n: nat :: a.writes(n) > 0) && a.syncsFile && a.rival.None?
    && a.links && a.syncsDirectory && a.unlinks && a.syncsAfter
  }

  /** Neither the object's name nor the temporary name is taken. */
  predicate Free(d: Dir, spec: Spec, a: Attempt) {
    Object(spec.sha256) !in d.names && Temporary(spec.sha256, a.token) !in d.names
  }

  /** The directory while a temporary file holds `content`. */
  function WithTemporary(host: Host, d: Dir, t: Name, content: Bytes): Dir {
    Dir(d.names[t := d.next], d.inodes[d.next := Inode(content, true, PRIVATE_MODE, host.uid)], d.next + 1)
  }

  lemma TemporaryEffect(host: Host, d: Dir, t: Name, content: Bytes)
    requires WellFormed(d) && t.Temporary? && t !in d.names
    ensures var w := WithTemporary(host, d, t, content);
      && WellFormed(w) && t in w.names && Adds(d, w, t.digest) && Visible(w) == Visible(d)
      && (Honest(host, d) ==> Honest(host, w))
  {
    hide Visible;
    var w := WithTemporary(host, d, t, content);
    assert WellFormed(w) && Adds(d, w, t.digest);
    SameVisible(w, d);
  }

  /** A stretch of history, from `h0` to `h1`: every state in it is well formed, disturbs
      nothing of `start`, and, if the store and the rival were honest, is honest. */
  predicate Calm(host: Host, start: Dir, honest: bool, h0: seq<Dir>, h1: seq<Dir>) {
    h0 <= h1 && forall i :: |h0| <= i < |h1| ==>
      WellFormed(h1[i]) && Preserves(start, h1[i]) && (honest ==> Honest(host, h1[i]))
  }

  lemma CalmNone(host: Host, start: Dir, honest: bool, h0: seq<Dir>)
    ensures Calm(host, start, honest, h0, h0)
  {
  }

  lemma CalmSnoc(host: Host, start: Dir, honest: bool, h0: seq<Dir>, h1: seq<Dir>, d: Dir)
    requires Calm(host, start, honest, h0, h1)
    requires WellFormed(d) && Preserves(start, d) && (honest ==> Honest(host, d))
    ensures Calm(host, start, honest, h0, h1 + [d])
  {
    hide Preserves, Honest, WellFormed;
  }

  lemma CalmJoin(host: Host, start: Dir, honest: bool, h0: seq<Dir>, h1: seq<Dir>, h2: seq<Dir>)
    requires Calm(host, start, honest, h0, h1) && Calm(host, start, honest, h1, h2)
    ensures Calm(host, start, honest, h0, h2)
  {
    hide Preserves, Honest, WellFormed;
    forall i | |h0| <= i < |h2|
      ensures WellFormed(h2[i]) && Preserves(start, h2[i]) && (honest ==> Honest(host, h2[i]))
    {
      if i < |h1| { assert h2[i] == h1[i]; }
    }
  }

  /** Calm as seen from an earlier store. */
  lemma CalmFrom(host: Host, start: Dir, honest: bool, mid: Dir, still: bool, h0: seq<Dir>, h1: seq<Dir>)
    requires Calm(host, mid, still, h0, h1) && Preserves(start, mid) && (honest ==> still)
    ensures Calm(host, start, honest, h0, h1)
  {
    hide Preserves, Honest, WellFormed;
    forall i | |h0| <= i < |h1| ensures WellFormed(h1[i]) && Preserves(start, h1[i]) && (honest ==> Honest(host, h1[i])) {
      PreservesTransitive(start, mid, h1[i]);
    }
  }

  /** A calm stretch followed by one that is calm as seen from a store in between. */
  lemma CalmThen(host: Host, start: Dir, honest: bool, h0: seq<Dir>, mid: Dir, still: bool, h1: seq<Dir>, h2: seq<Dir>)
    requires Calm(host, start, honest, h0, h1) && Calm(host, mid, still, h1, h2) && Preserves(start, mid) && (honest ==> still)
    ensures Calm(host, start, honest, h0, h2)
  {
    hide Preserves, Calm;
    CalmFrom(host, start, honest, mid, still, h1, h2);
    CalmJoin(host, start, honest, h0, h1, h2);
  }

  /** What happened to the object: never linked, already there, or linked. */
  datatype Fate = Refused | Contested | Published

  function FileOf(host: Host, content: Bytes): Inode { Inode(content, true, PRIVATE_MODE, host.uid) }

  /** The directory before the temporary name is dropped. */
  function Settled(host: Host, start: Dir, t: Name, content: Bytes, rival: Option<Rival>, fate: Fate): Dir {
    var w := WithTemporary(host, start, t, content);
    match fate
    case Refused => w
    case Contested => Race(w, t.digest, rival)
    case Published => Link(w, t, Object(t.digest))
  }

  /** The visible store afterwards: what a rival put there, or the new object, or nothing. */
  function VisibleAfter(v: map<Bytes, Inode>, digest: Bytes, rival: Option<Rival>, fate: Fate, file: Inode): map<Bytes, Inode> {
    match fate
    case Refused => v
    case Contested => if rival.None? || digest in v then v else v[digest := rival.value.file]
    case Published => v[digest := file]
  }

  /** The stream is the artifact and every write goes through. */
  predicate Arrives(host: Host, spec: Spec, a: Attempt) {
    Delivers(host, spec, a.chunks) && WriteAll(a.writes, a.chunks).Some? && a.syncsFile
  }

  /** What becomes of the object, from what the store held and what the calls returned. */
  function FateOf(host: Host, d: Dir, spec: Spec, a: Attempt): Fate {
    if !a.creates || Temporary(spec.sha256, a.token) in d.names || !Arrives(host, spec, a) then Refused
    else if Object(spec.sha256) in d.names || a.rival.Some? then Contested
    else if a.links then Published
    else Refused
  }

  /** The rival's file would pass the check: its own, private, whole, under one name. */
  predicate RivalVerifies(host: Host, d: Dir, spec: Spec, a: Attempt, rival: Rival) {
    var file := rival.file;
    && file.regular && file.mode == PRIVATE_MODE && file.owner == host.uid
    && |file.content| == spec.size && host.hash(file.content) == spec.sha256
    && !(rival.lingers && rival.token != a.token && Temporary(spec.sha256, rival.token) !in d.names)
  }

  predicate ContestVerifies(host: Host, d: Dir, spec: Spec, a: Attempt)
    requires WellFormed(d)
  {
    if Object(spec.sha256) in d.names then Verified(host, d, spec)
    else a.rival.Some? && RivalVerifies(host, d, spec, a, a.rival.value)
  }

  /** When the call returns without an exception. */
  predicate Succeeds(host: Host, d: Dir, spec: Spec, a: Attempt)
    requires WellFormed(d)
  {
    && (match FateOf(host, d, spec, a)
        case Refused => false
        case Contested => ContestVerifies(host, d, spec, a)
        case Published => true)
    && a.syncsDirectory && a.unlinks && a.syncsAfter
  }

  lemma ContestExisting(host: Host, d: Dir, spec: Spec, a: Attempt, content: Bytes)
    requires WellFormed(d) && Temporary(spec.sha256, a.token) !in d.names && Object(spec.sha256) in d.names
    ensures var r := Race(WithTemporary(host, d, Temporary(spec.sha256, a.token), content), spec.sha256, a.rival);
      WellFormed(r) && (Verify(host, r, spec) == Ok(true) <==> Verified(host, d, spec))
  {
    var r := Race(WithTemporary(host, d, Temporary(spec.sha256, a.token), content), spec.sha256, a.rival);
    assert WellFormed(r);
    var ino := d.names[Object(spec.sha256)];
    assert NamesOf(r, ino) == NamesOf(d, ino);
  }

  lemma ContestRival(host: Host, d: Dir, spec: Spec, a: Attempt, content: Bytes)
    requires WellFormed(d) && Temporary(spec.sha256, a.token) !in d.names && Object(spec.sha256) !in d.names && a.rival.Some?
    ensures var r := Race(WithTemporary(host, d, Temporary(spec.sha256, a.token), content), spec.sha256, a.rival);
      WellFormed(r) && (Verify(host, r, spec) == Ok(true) <==> RivalVerifies(host, d, spec, a, a.rival.value))
  {
    var w := WithTemporary(host, d, Temporary(spec.sha256, a.token), content);
    var r := Race(w, spec.sha256, a.rival);
    assert WellFormed(r);
    var u := Temporary(spec.sha256, a.rival.value.token);
    var lingers := a.rival.value.lingers && u !in w.names;
    assert NamesOf(r, w.next) == if lingers then {Object(spec.sha256), u} else {Object(spec.sha256)};
  }

  lemma ContestExact(host: Host, d: Dir, spec: Spec, a: Attempt, content: Bytes)
    requires WellFormed(d) && Temporary(spec.sha256, a.token) !in d.names && (Object(spec.sha256) in d.names || a.rival.Some?)
    ensures var r := Race(WithTemporary(host, d, Temporary(spec.sha256, a.token), content), spec.sha256, a.rival);
      WellFormed(r) && (Verify(host, r, spec) == Ok(true) <==> ContestVerifies(host, d, spec, a))
  {
    hide Race, WithTemporary, Verify, RivalVerifies, WellFormed;
    if Object(spec.sha256) in d.names {
      ContestExisting(host, d, spec, a, content);
    } else {
      ContestRival(host, d, spec, a, content);
    }
  }

  /** A failed call changes the visible store if and only if the stream got as far as the
      link and then either a rival's object stands there, or the object was linked and it was
      the sync or the removal of the temporary name that failed. */
  lemma FailureExact(host: Host, d: Dir, spec: Spec, a: Attempt)
    requires WellFormed(d) && !Succeeds(host, d, spec, a)
    ensures VisibleAfter(Visible(d), spec.sha256, a.rival, FateOf(host, d, spec, a), FileOf(host, Flatten(a.chunks))) == Visible(d)
      <==> !(a.creates && Free(d, spec, a) && Arrives(host, spec, a)
             && (a.rival.Some? || (a.links && !(a.syncsDirectory && a.unlinks && a.syncsAfter))))
  {
    hide Visible, Flatten, Arrives;
    VisibleObject(d, spec.sha256);
  }

  /** Nothing failing and nobody interfering, the artifact's own stream is published. */
  lemma FavourablePublishes(host: Host, d: Dir, spec: Spec, a: Attempt)
    requires WellFormed(d) && Favourable(a) && Delivers(host, spec, a.chunks) && Free(d, spec, a)
    ensures Succeeds(host, d, spec, a) && FateOf(host, d, spec, a) == Published
  {
    hide Flatten, WriteAll;
    ProgressWritesAll(a.writes, a.chunks);
  }

  /** One byte streamed into an empty store, where only syncing the directory after the link
      fails: the call fails and the object is there. */
  lemma UnsyncedPublication(host: Host)
    ensures var chunks := [Data([1])];
      var spec := Spec([97], host.hash([1]), 1);
      var d := Dir(map[], map[], 0);
      var a := Attempt(0, true, chunks, n => 1, true, None, true, false, true, true);
      !Succeeds(host, d, spec, a) && FateOf(host, d, spec, a) == Published
      && VisibleAfter(Visible(d), spec.sha256, a.rival, Published, FileOf(host, Flatten(a.chunks))) == map[spec.sha256 := FileOf(host, [1])]
      && Visible(d) == map[]
  {
    var chunks := [Data([1])];
    assert chunks[..0] == [];
    assert Flatten(chunks) == [] + [1] == [1];
    assert WriteAll(n => 1, chunks[..0]) == Some(0);
  }

  /** A fate is possible if linking happens only when the name is free. */
  predicate Possible(host: Host, start: Dir, t: Name, content: Bytes, rival: Option<Rival>, fate: Fate) {
    && t.Temporary? && t !in start.names
    && (fate.Published? ==> Object(t.digest) !in start.names && host.hash(content) == t.digest)
    && (fate.Contested? ==> Object(t.digest) in start.names || rival.Some?)
  }

  lemma PublishedEffect(host: Host, start: Dir, t: Name, content: Bytes)
    requires WellFormed(start) && Possible(host, start, t, content, None, Published)
    ensures var d := Settled(host, start, t, content, None, Published);
      && WellFormed(d) && Adds(start, d, t.digest) && (Honest(host, start) ==> Honest(host, d))
      && Visible(d) == Visible(start)[t.digest := FileOf(host, content)]
  {
    hide Visible;
    var d := Settled(host, start, t, content, None, Published);
    assert WellFormed(d) && Adds(start, d, t.digest);
    VisibleLinked(start, d, t.digest, FileOf(host, content));
  }

  lemma VisibleLinked(a: Dir, b: Dir, digest: Bytes, file: Inode)
    requires WellFormed(a) && WellFormed(b) && Adds(a, b, digest)
    requires Object(digest) in b.names && b.inodes[b.names[Object(digest)]] == file
    ensures Visible(b) == Visible(a)[digest := file]
  {
    hide Visible;
    var v := Visible(a)[digest := file];
    forall d ensures d in Visible(b) <==> d in v {
      VisibleObject(a, d);
      VisibleObject(b, d);
    }
    forall d | d in v ensures Visible(b)[d] == v[d] {
      VisibleObject(a, d);
      VisibleObject(b, d);
    }
  }

  lemma ContestedEffect(host: Host, start: Dir, t: Name, content: Bytes, rival: Option<Rival>)
    requires WellFormed(start) && Possible(host, start, t, content, rival, Contested)
    ensures var d := Settled(host, start, t, content, rival, Contested);
      && WellFormed(d) && Adds(start, d, t.digest)
      && (Honest(host, start) && HonestRival(host, t.digest, rival) ==> Honest(host, d))
      && Visible(d) == VisibleAfter(Visible(start), t.digest, rival, Contested, FileOf(host, content))
  {
    hide Visible, Honest, HonestRival;
    var w := WithTemporary(host, start, t, content);
    var d := Race(w, t.digest, rival);
    TemporaryEffect(host, start, t, content);
    RaceEffect(host, w, t.digest, rival);
    AddsTransitive(start, w, d, t.digest);
    VisibleObject(start, t.digest);
    if rival.None? || Object(t.digest) in w.names {
      assert d == w;
    } else {
      VisibleLinked(w, d, t.digest, rival.value.file);
    }
  }

  lemma VisibleObject(d: Dir, digest: Bytes)
    requires WellFormed(d)
    ensures digest in Visible(d) <==> Object(digest) in d.names
    ensures digest in Visible(d) ==> Visible(d)[digest] == d.inodes[d.names[Object(digest)]]
  {
    if digest in Visible(d) {
      var n :| n in d.names && n.Object? && n.digest == digest;
      assert n == Object(digest);
    }
  }

  lemma AddsTransitive(a: Dir, b: Dir, c: Dir, digest: Bytes)
    requires Adds(a, b, digest) && Adds(b, c, digest)
    ensures Adds(a, c, digest)
  {
    hide Preserves;
    PreservesTransitive(a, b, c);
  }

  /** Whatever the fate, nothing else is disturbed and the visible store is accounted for. */
  lemma SettledEffect(host: Host, start: Dir, t: Name, content: Bytes, rival: Option<Rival>, fate: Fate)
    requires WellFormed(start) && Possible(host, start, t, content, rival, fate)
    ensures var d := Settled(host, start, t, content, rival, fate);
      && WellFormed(d) && Adds(start, d, t.digest)
      && (Honest(host, start) && HonestRival(host, t.digest, rival) ==> Honest(host, d))
      && Visible(d) == VisibleAfter(Visible(start), t.digest, rival, fate, FileOf(host, content))
  {
    hide Visible, Honest, HonestRival, Adds, WellFormed;
    match fate
    case Refused => TemporaryEffect(host, start, t, content);
    case Contested => ContestedEffect(host, start, t, content, rival);
    case Published => PublishedEffect(host, start, t, content);
  }

  /** Dropping the temporary name disturbs nothing. */
  lemma UnlinkEffect(host: Host, d: Dir, t: Name)
    requires WellFormed(d) && t.Temporary?
    ensures WellFormed(Unlink(d, t)) && Preserves(d, Unlink(d, t)) && Visible(Unlink(d, t)) == Visible(d)
    ensures Honest(host, d) ==> Honest(host, Unlink(d, t))
  {
    hide Visible;
    SameVisible(Unlink(d, t), d);
  }

  lemma UnlinkAdds(a: Dir, b: Dir, t: Name)
    requires WellFormed(b) && t.Temporary? && t !in a.names && Adds(a, b, t.digest)
    ensures Adds(a, Unlink(b, t), t.digest)
  {
    assert Preserves(a, Unlink(b, t));
  }

  /** Once its temporary name is gone, a published file is verified. */
  lemma PublishedVerifies(host: Host, start: Dir, t: Name, content: Bytes, spec: Spec)
    requires WellFormed(start) && Possible(host, start, t, content, None, Published)
    requires spec.sha256 == t.digest && |content| == spec.size
    ensures var d := Unlink(Settled(host, start, t, content, None, Published), t);
      WellFormed(d) && Verified(host, d, spec)
  {
    var d := Unlink(Settled(host, start, t, content, None, Published), t);
    assert WellFormed(d);
    assert NamesOf(d, start.next) == {Object(t.digest)};
  }

  class Store {
    const host: Host
    var dir: Dir

    /** The directory after each system call that could have changed it. */
    ghost var history: seq<Dir>

    ghost predicate Valid()
      reads this
    {
      WellFormed(dir)
    }

    constructor (host: Host, dir: Dir)
      requires WellFormed(dir)
      ensures Valid() && this.host == host && this.dir == dir && history == []
    {
      this.host := host;
      this.dir := dir;
      history := [];
    }

    /** Write one chunk, however the writes are split; it fails only if a write stops. */
    method WriteChunk(t: Name, chunk: Bytes, writes: nat -> int, step: nat, ghost start: Dir, ghost honest: bool, ghost content: Bytes)
      returns (ok: bool, next: nat, ghost after: Bytes)
      requires WellFormed(start) && t.Temporary? && t !in start.names && (honest ==> Honest(host, start))
      requires dir == WithTemporary(host, start, t, content)
      modifies this
      ensures dir == WithTemporary(host, start, t, after)
      ensures ok ==> after == content + chunk
      ensures ok <==> WriteOut(writes, step, |chunk|).Some?
      ensures ok ==> WriteOut(writes, step, |chunk|) == Some(next)
      ensures Calm(host, start, honest, old(history), history)
    {
      hide Preserves, Honest, WellFormed, Calm, WithTemporary, Append, Adds, Visible;
      after, next, ok := content, step, false;
      var view := chunk;
      CalmNone(host, start, honest, history);
      while view != []
        invariant after + view == content + chunk
        invariant WriteOut(writes, next, |view|) == WriteOut(writes, step, |chunk|)
        invariant dir == WithTemporary(host, start, t, after)
        invariant Calm(host, start, honest, old(history), history)
        decreases |view|
      {
        var written := writes(next);
        next := next + 1;
        if written <= 0 { return; }
        var n := if written < |view| then written else |view|;
        TemporaryEffect(host, start, t, after);
        AppendTemporary(host, start, t, after, view[..n]);
        dir := Append(dir, t, view[..n]);
        SplitView(after, view, n);
        after := after + view[..n];
        view := view[n..];
        label appended:
        TemporaryEffect(host, start, t, after);
        AddsPreserves(start, dir, t.digest);
        Log(start, honest);
        CalmJoin(host, start, honest, old(history), old@appended(history), history);
      }
      assert after + [] == after;
      ok := true;
    }

    /** Write a stream into the temporary file.  Success means the file holds the stream and
        the stream is the frozen artifact; if no write stops, that is also all it takes. */
    method Receive(spec: Spec, a: Attempt, ghost start: Dir, ghost honest: bool) returns (ok: bool, ghost content: Bytes)
      requires WellFormed(start) && Temporary(spec.sha256, a.token) !in start.names
      requires honest ==> Honest(host, start)
      requires dir == WithTemporary(host, start, Temporary(spec.sha256, a.token), [])
      modifies this
      ensures dir == WithTemporary(host, start, Temporary(spec.sha256, a.token), content)
      ensures ok <==> Delivers(host, spec, a.chunks) && WriteAll(a.writes, a.chunks).Some?
      ensures ok ==> content == Flatten(a.chunks)
      ensures Calm(host, start, honest, old(history), history)
    {
      hide Preserves, Honest, WellFormed, Calm, WithTemporary, Flatten, WriteOut, WriteAll;
      var t := Temporary(spec.sha256, a.token);
      var received: Bytes := [];
      content, ok := [], false;
      var step := 0;
      CalmNone(host, start, honest, history);
      FlattenNone(a.chunks);
      NothingWritten(a.writes, a.chunks);
      for k := 0 to |a.chunks|
        invariant content == received == Flatten(a.chunks[..k]) && |received| <= spec.size
        invariant WriteAll(a.writes, a.chunks[..k]) == Some(step)
        invariant dir == WithTemporary(host, start, t, content)
        invariant forall i :: 0 <= i < k ==> a.chunks[i].Data? && a.chunks[i].bytes != []
        invariant Calm(host, start, honest, old(history), history)
      {
        if a.chunks[k].Raises? || a.chunks[k].bytes == [] { return; }
        var chunk := a.chunks[k].bytes;
        FlattenNext(a.chunks, k);
        if |received| + |chunk| > spec.size { return; }
        WriteAllNext(a.writes, a.chunks, k);
        var written;
        label before:
        written, step, content := WriteChunk(t, chunk, a.writes, step, start, honest, content);
        CalmJoin(host, start, honest, old(history), old@before(history), history);
        if !written {
          WriteStops(a.writes, a.chunks, k + 1);
          return;
        }
        received := received + chunk;
      }
      assert a.chunks[..|a.chunks|] == a.chunks;
      ok := |received| == spec.size && host.hash(received) == spec.sha256;
    }

    /** Make the received file visible under its digest, unless the name is taken; then
        whatever is there has to verify. */
    method Publish(spec: Spec, a: Attempt, ghost start: Dir, ghost honest: bool, ghost content: Bytes)
      returns (ok: bool, ghost fate: Fate)
      requires WellFormed(start) && Temporary(spec.sha256, a.token) !in start.names
      requires honest ==> Honest(host, start) && HonestRival(host, spec.sha256, a.rival)
      requires |content| == spec.size && host.hash(content) == spec.sha256
      requires dir == WithTemporary(host, start, Temporary(spec.sha256, a.token), content)
      modifies this
      ensures var t := Temporary(spec.sha256, a.token);
        Possible(host, start, t, content, a.rival, fate) && dir == Settled(host, start, t, content, a.rival, fate)
      ensures fate == if Object(spec.sha256) in start.names || a.rival.Some? then Contested else if a.links then Published else Refused
      ensures WellFormed(dir) && (ok && fate.Contested? ==> Verified(host, dir, spec))
      ensures ok <==> a.syncsDirectory && (fate.Published? || (fate.Contested? && ContestVerifies(host, start, spec, a)))
      ensures Calm(host, start, honest, old(history), history)
    {
      hide Preserves, Honest, HonestRival, WellFormed, Calm, Visible, Adds, Verify, VisibleAfter, ContestVerifies;
      var t := Temporary(spec.sha256, a.token);
      if Object(spec.sha256) in start.names || a.rival.Some? { ContestExact(host, start, spec, a, content); }
      dir := Race(dir, spec.sha256, a.rival);
      if Object(spec.sha256) in dir.names {
        fate := Contested;
        SettledEffect(host, start, t, content, a.rival, fate);
        ok := Verify(host, dir, spec) == Ok(true);
      } else if !a.links {
        fate, ok := Refused, false;
      } else {
        dir := Link(dir, t, Object(spec.sha256));
        fate, ok := Published, true;
      }
      SettledEffect(host, start, t, content, a.rival, fate);
      AddsPreserves(start, dir, spec.sha256);
      Log(start, honest);
      ok := ok && a.syncsDirectory;
    }

    /** Note the current directory in the history. */
    ghost method Log(start: Dir, honest: bool)
      requires WellFormed(dir) && Preserves(start, dir) && (honest ==> Honest(host, dir))
      modifies this`history
      ensures history == old(history) + [dir] && Calm(host, start, honest, old(history), history)
    {
      hide Preserves, Honest, WellFormed, Calm;
      CalmNone(host, start, honest, history);
      CalmSnoc(host, start, honest, history, history, dir);
      history := history + [dir];
    }

    /** Create the temporary file, fill it and publish it; the temporary name stays. */
    method Deliver(spec: Spec, a: Attempt, ghost honest: bool) returns (ok: bool, ghost fate: Fate, ghost content: Bytes)
      requires Valid() && a.creates && Temporary(spec.sha256, a.token) !in dir.names
      requires honest ==> Honest(host, dir) && HonestRival(host, spec.sha256, a.rival)
      modifies this
      ensures var t := Temporary(spec.sha256, a.token);
        && Possible(host, old(dir), t, content, a.rival, fate)
        && dir == Settled(host, old(dir), t, content, a.rival, fate) && WellFormed(dir)
      ensures fate == FateOf(host, old(dir), spec, a)
      ensures ok <==> a.syncsDirectory && (fate.Published? || (fate.Contested? && ContestVerifies(host, old(dir), spec, a)))
      ensures !fate.Refused? ==> content == Flatten(a.chunks) && |content| == spec.size
      ensures ok && fate.Contested? ==> Verified(host, dir, spec)
      ensures Calm(host, old(dir), honest, old(history), history)
    {
      hide Preserves, Honest, HonestRival, WellFormed, Calm, Visible, Adds, Verify, Settled, WithTemporary, Delivers, Flatten,
           Possible, WriteAll, ContestVerifies;
      var t := Temporary(spec.sha256, a.token);
      ghost var start := dir;
      fate := Refused;
      CreateIsTemporary(host, dir, t);
      dir := Create(host, dir, t);
      TemporaryEffect(host, start, t, []);
      AddsPreserves(start, dir, spec.sha256);
      Log(start, honest);
      label created:
      ok, content := Receive(spec, a, start, honest);
      CalmJoin(host, start, honest, old(history), old@created(history), history);
      if ok { DeliveredContent(host, spec, a.chunks); }
      SettledRefused(host, start, t, content, a.rival);
      TemporaryEffect(host, start, t, content);
      label received:
      if ok && a.syncsFile {
        ok, fate := Publish(spec, a, start, honest, content);
        CalmJoin(host, start, honest, old(history), old@received(history), history);
      } else {
        ok := false;
      }
    }

    /** Publish one streamed artifact.  Whatever the stream, the disk and a rival publisher
        do, at every step no object is altered or removed and every object hashes to its
        name.  Whether the call succeeds, what becomes of the object and whether the
        temporary name is left are each determined by the store and the calls' outcomes. */
    method StoreStream(spec: Spec, a: Attempt) returns (ok: bool, ghost fate: Fate)
      requires Valid()
      modifies this
      ensures Valid()
      ensures ok <==> Succeeds(host, old(dir), spec, a)
      ensures fate == FateOf(host, old(dir), spec, a)
      ensures Visible(dir) == VisibleAfter(Visible(old(dir)), spec.sha256, a.rival, fate, FileOf(host, Flatten(a.chunks)))
      ensures Temporary(spec.sha256, a.token) in dir.names
        <==> !a.unlinks && (a.creates || Temporary(spec.sha256, a.token) in old(dir).names)
      ensures ok ==> Verified(host, dir, spec) && Adds(old(dir), dir, spec.sha256) && Delivers(host, spec, a.chunks)
      ensures Calm(host, old(dir), Honest(host, old(dir)) && HonestRival(host, spec.sha256, a.rival), old(history), history)
      ensures Preserves(old(dir), dir)
      ensures Honest(host, old(dir)) && HonestRival(host, spec.sha256, a.rival) ==> Honest(host, dir)
    {
      hide Preserves, Honest, HonestRival, WellFormed, Calm, Visible, Adds, Verify, Settled, Delivers, Flatten, Unlink, Possible,
           WriteAll, ContestVerifies;
      var t := Temporary(spec.sha256, a.token);
      ghost var start, honest := dir, Honest(host, dir) && HonestRival(host, spec.sha256, a.rival);
      ok, fate := false, Refused;
      if t in dir.names || !a.creates {
        PreservesReflexive(dir);
        DropTemporary(t, a, start, honest);
      } else {
        ghost var content;
        ok, fate, content := Deliver(spec, a, honest);
        SettledEffect(host, start, t, content, a.rival, fate);
        AddsPreserves(start, dir, spec.sha256);
        if ok { DroppedVerifies(host, start, t, content, a.rival, fate, spec); }
        SettledTemporary(host, start, t, content, a.rival, fate);
        label settled:
        DropTemporary(t, a, start, honest);
        CalmJoin(host, start, honest, old(history), old@settled(history), history);
        if !a.unlinks || !a.syncsAfter { ok := false; }
      }
    }

    /** The last step of every publication, successful or not. */
    method DropTemporary(t: Name, a: Attempt, ghost start: Dir, ghost honest: bool)
      requires WellFormed(dir) && t.Temporary? && Preserves(start, dir) && (honest ==> Honest(host, dir))
      modifies this
      ensures dir == if a.unlinks then Unlink(old(dir), t) else old(dir)
      ensures WellFormed(dir) && Preserves(start, dir) && Visible(dir) == Visible(old(dir))
      ensures (honest ==> Honest(host, dir)) && (a.unlinks ==> t !in dir.names)
      ensures Calm(host, start, honest, old(history), history)
    {
      hide Preserves, Honest, WellFormed, Visible, Calm;
      UnlinkEffect(host, dir, t);
      PreservesTransitive(start, dir, Unlink(dir, t));
      if a.unlinks { dir := Unlink(dir, t); }
      Log(start, honest);
    }
  }

  lemma NothingWritten(writes: nat -> int, chunks: seq<Chunk>)
    ensures WriteAll(writes, chunks[..0]) == Some(0)
  {
    assert chunks[..0] == [];
  }

  lemma SettledTemporary(host: Host, start: Dir, t: Name, content: Bytes, rival: Option<Rival>, fate: Fate)
    requires Possible(host, start, t, content, rival, fate)
    ensures t in Settled(host, start, t, content, rival, fate).names
  {
  }

  lemma SplitView(done: Bytes, view: Bytes, n: nat)
    requires n <= |view|
    ensures done + view[..n] + view[n..] == done + view
  {
    assert view == view[..n] + view[n..];
  }

  lemma AppendTemporary(host: Host, d: Dir, t: Name, content: Bytes, data: Bytes)
    requires WellFormed(d) && WellFormed(WithTemporary(host, d, t, content))
    ensures Append(WithTemporary(host, d, t, content), t, data) == WithTemporary(host, d, t, content + data)
  {
  }

  lemma AddsPreserves(a: Dir, b: Dir, digest: Bytes)
    requires Adds(a, b, digest)
    ensures Preserves(a, b)
  {
  }

  lemma CreateIsTemporary(host: Host, d: Dir, t: Name)
    ensures Create(host, d, t) == WithTemporary(host, d, t, [])
  {
  }

  lemma DeliveredContent(host: Host, spec: Spec, chunks: seq<Chunk>)
    requires Delivers(host, spec, chunks)
    ensures |Flatten(chunks)| == spec.size && host.hash(Flatten(chunks)) == spec.sha256
  {
  }

  lemma SettledRefused(host: Host, start: Dir, t: Name, content: Bytes, rival: Option<Rival>)
    requires t.Temporary? && t !in start.names
    ensures Settled(host, start, t, content, rival, Refused) == WithTemporary(host, start, t, content)
    ensures Possible(host, start, t, content, rival, Refused)
  {
  }

  /** After a publication that went through, dropping the temporary name leaves the
      artifact verified and only this digest's names new. */
  lemma DroppedVerifies(host: Host, start: Dir, t: Name, content: Bytes, rival: Option<Rival>, fate: Fate, spec: Spec)
    requires WellFormed(start) && Possible(host, start, t, content, rival, fate) && !fate.Refused?
    requires spec.sha256 == t.digest && |content| == spec.size
    requires WellFormed(Settled(host, start, t, content, rival, fate))
    requires fate.Contested? ==> Verified(host, Settled(host, start, t, content, rival, fate), spec)
    ensures var d := Unlink(Settled(host, start, t, content, rival, fate), t);
      WellFormed(d) && Verified(host, d, spec) && Adds(start, d, t.digest)
  {
    hide Preserves, Visible, Adds, Verify, Honest, HonestRival, VisibleAfter;
    var d := Settled(host, start, t, content, rival, fate);
    SettledEffect(host, start, t, content, rival, fate);
    UnlinkEffect(host, d, t);
    UnlinkAdds(start, d, t);
    if fate.Contested? {
      VerifiedPersists(host, d, Unlink(d, t), spec);
    } else {
      PublishedVerifies(host, start, t, content, spec);
    }
  }
}
