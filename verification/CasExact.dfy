/** When publishing an artifact succeeds, spelled out on the stream and on what each call
    returned. */
module CasExact {
  import opened ByteStrings
  import opened Cas
  import opened CasStore

  /* ----- the stream ----- */

  function Joined(chunks: seq<Chunk>): Bytes
    requires GoodChunks(chunks)
  {
    if chunks == [] then [] else chunks[0].bytes + Joined(chunks[1..])
  }

  lemma {:induction false} JoinedSnoc(chunks: seq<Chunk>)
    requires GoodChunks(chunks) && chunks != []
    ensures Joined(chunks) == Joined(chunks[..|chunks| - 1]) + chunks[|chunks| - 1].bytes
    decreases |chunks|
  {
    var init := chunks[..|chunks| - 1];
    if |chunks| == 1 {
      assert chunks[1..] == [];
    } else {
      JoinedSnoc(chunks[1..]);
      assert chunks[1..][..|chunks| - 2] == init[1..] && init[0] == chunks[0];
    }
  }

  lemma {:induction false} FlattenJoined(chunks: seq<Chunk>)
    requires GoodChunks(chunks)
    ensures Flatten(chunks) == Joined(chunks)
    decreases |chunks|
  {
    if chunks != [] {
      FlattenJoined(chunks[..|chunks| - 1]);
      JoinedSnoc(chunks);
    }
  }

  /* ----- the writes ----- */

  /** What the calls from `step` up to `m` write. */
  function Total(writes: nat -> int, step: nat, m: nat): int
    requires step <= m
    decreases m - step
  {
    if step == m then 0 else writes(step) + Total(writes, step + 1, m)
  }

  /** The calls from `step` up to `m`, all of which make progress, and no fewer, write `n`
      bytes. */
  predicate Written(writes: nat -> int, step: nat, n: nat, m: nat) {
    && step <= m && (forall k: nat :: step <= k < m ==> writes(k) > 0)
    && Total(writes, step, m) >= n && (step < m ==> Total(writes, step, m - 1) < n)
  }

  lemma {:induction false} TotalGrows(writes: nat -> int, step: nat, m: nat)
    requires step <= m && forall k: nat :: step <= k < m ==> writes(k) > 0
    ensures Total(writes, step, m) >= m - step
    decreases m - step
  {
    if step < m { TotalGrows(writes, step + 1, m); }
  }

  lemma {:induction false} WriteOutExact(writes: nat -> int, step: nat, n: nat, m: nat)
    ensures WriteOut(writes, step, n) == Some(m) <==> Written(writes, step, n, m)
    decreases n
  {
    if n > 0 && writes(step) > 0 {
      var rest := if writes(step) < n then n - writes(step) else 0;
      WriteOutExact(writes, step + 1, rest, m);
      WrittenNext(writes, step, n, m);
    } else if n == 0 {
      if step < m && (forall k: nat :: step <= k < m ==> writes(k) > 0) { TotalGrows(writes, step, m - 1); }
    } else {
      assert step < m ==> !(forall k: nat :: step <= k < m ==> writes(k) > 0);
    }
  }

  lemma WrittenNext(writes: nat -> int, step: nat, n: nat, m: nat)
    requires n > 0 && writes(step) > 0
    ensures Written(writes, step, n, m) <==>
      step < m && Written(writes, step + 1, if writes(step) < n then n - writes(step) else 0, m)
  {
    var rest := if writes(step) < n then n - writes(step) else 0;
    if Written(writes, step, n, m) {
      assert step < m;
      assert Total(writes, step, m) == writes(step) + Total(writes, step + 1, m);
      TotalGrows(writes, step + 1, m);
      if step + 1 < m {
        assert Total(writes, step, m - 1) == writes(step) + Total(writes, step + 1, m - 1);
        TotalGrows(writes, step + 1, m - 1);
      }
    }
    if step < m && Written(writes, step + 1, rest, m) {
      forall k: nat | step <= k < m ensures writes(k) > 0 {
      }
      assert Total(writes, step, m) == writes(step) + Total(writes, step + 1, m);
      if step + 1 < m {
        TotalGrows(writes, step + 1, m - 1);
        assert Total(writes, step, m - 1) == writes(step) + Total(writes, step + 1, m - 1);
      }
    }
  }

  /** Where the writes of each chunk begin and end. */
  predicate Marks(writes: nat -> int, chunks: seq<Chunk>, marks: seq<nat>)
    requires GoodChunks(chunks)
  {
    && |marks| == |chunks| + 1 && marks[0] == 0
    && forall i: nat :: i < |chunks| ==> ChunkWritten(writes, chunks[i].bytes, marks, i)
  }

  predicate ChunkWritten(writes: nat -> int, bytes: Bytes, marks: seq<nat>, i: nat)
    requires i + 1 < |marks|
  {
    Written(writes, marks[i], |bytes|, marks[i + 1])
  }

  lemma {:induction false} MarksFound(writes: nat -> int, chunks: seq<Chunk>) returns (marks: seq<nat>)
    requires GoodChunks(chunks) && WriteAll(writes, chunks).Some?
    ensures Marks(writes, chunks, marks) && marks[|chunks|] == WriteAll(writes, chunks).value
    decreases |chunks|
  {
    hide Written;
    if chunks == [] {
      marks := [0];
    } else {
      var n := |chunks| - 1;
      var init := MarksFound(writes, chunks[..n]);
      var m := WriteAll(writes, chunks).value;
      marks := init + [m];
      WriteOutExact(writes, init[n], |chunks[n].bytes|, m);
      forall i: nat | i < |chunks| ensures ChunkWritten(writes, chunks[i].bytes, marks, i) {
        if i < n { assert ChunkWritten(writes, chunks[..n][i].bytes, init, i); }
      }
    }
  }

  lemma {:induction false} MarksDecide(writes: nat -> int, chunks: seq<Chunk>, marks: seq<nat>)
    requires GoodChunks(chunks) && Marks(writes, chunks, marks)
    ensures WriteAll(writes, chunks) == Some(marks[|chunks|])
    decreases |chunks|
  {
    hide Written;
    if chunks != [] {
      var n := |chunks| - 1;
      var init, before := chunks[..n], marks[..n + 1];
      forall i: nat | i < n ensures ChunkWritten(writes, init[i].bytes, before, i) { assert ChunkWritten(writes, chunks[i].bytes, marks, i); }
      MarksDecide(writes, init, before);
      assert ChunkWritten(writes, chunks[n].bytes, marks, n);
      WriteOutExact(writes, marks[n], |chunks[n].bytes|, marks[n + 1]);
    }
  }

  /* ----- the whole call ----- */

  /** The rival's file is the artifact, and no temporary name of its own is left on it. */
  predicate RivalGenuine(host: Host, d: Dir, spec: Spec, a: Attempt, rival: Rival) {
    && rival.file.regular && rival.file.mode == 384 && rival.file.owner == host.uid
    && |rival.file.content| == spec.size && host.hash(rival.file.content) == spec.sha256
    && (rival.lingers ==> rival.token == a.token || Temporary(spec.sha256, rival.token) in d.names)
  }

  /** The temporary file could be made and holds the whole artifact, synced. */
  ghost predicate Filled(host: Host, d: Dir, spec: Spec, a: Attempt) {
    && a.creates && Temporary(spec.sha256, a.token) !in d.names
    && (forall i :: 0 <= i < |a.chunks| ==> a.chunks[i].Data? && a.chunks[i].bytes != [])
    && |Joined(a.chunks)| == spec.size && host.hash(Joined(a.chunks)) == spec.sha256
    && (exists marks :: Marks(a.writes, a.chunks, marks))
    && a.syncsFile
  }

  /** A call succeeds if and only if the temporary file was filled; the object that was
      there, or a rival's, is genuine, or else the link was made; and nothing failed after
      that. */
  lemma SuccessExact(host: Host, d: Dir, spec: Spec, a: Attempt)
    requires WellFormed(d)
    ensures Succeeds(host, d, spec, a) <==>
      && Filled(host, d, spec, a)
      && (if Object(spec.sha256) in d.names then Genuine(host, d, spec)
          else if a.rival.Some? then RivalGenuine(host, d, spec, a, a.rival.value)
          else a.links)
      && a.syncsDirectory && a.unlinks && a.syncsAfter
  {
    hide Flatten, Joined, WriteAll, Marks, Verify, Genuine;
    VerifyExact(host, d, spec);
    if GoodChunks(a.chunks) {
      FlattenJoined(a.chunks);
      if WriteAll(a.writes, a.chunks).Some? { var marks := MarksFound(a.writes, a.chunks); }
      forall marks | Marks(a.writes, a.chunks, marks) ensures WriteAll(a.writes, a.chunks).Some? { MarksDecide(a.writes, a.chunks, marks); }
    }
  }
}
