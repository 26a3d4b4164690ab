/** The staged acquisition: metadata, a signed replay, the baseline, then the delta. */
module Acquire {
  import opened ByteStrings
  import opened Sorting
  import opened Folds
  import opened Cas
  import opened CasStore

  /** What an observer of the network and of the replay sees, with the store at that time. */
  datatype Event = Opened(spec: Spec, state: Dir) | Replayed(agrees: bool)

  datatype Tally = Tally(fetched: nat, reused: nat, fetchedBytes: int)

  function SizeOf(): Spec -> int { (s: Spec) => s.size }

  /* ----- one stage ----- */

  predicate DistinctDigests(specs: seq<Spec>) {
    forall i, j :: 0 <= i < j < |specs| ==> specs[i].sha256 != specs[j].sha256
  }

  /** The artifacts the store does not hold, in order. */
  function Missing(host: Host, d: Dir, specs: seq<Spec>): seq<Spec>
    requires WellFormed(d)
  {
    if specs == [] then []
    else Missing(host, d, specs[..|specs| - 1])
         + (if Verify(host, d, specs[|specs| - 1]) == Ok(false) then [specs[|specs| - 1]] else [])
  }

  predicate AllVerified(host: Host, d: Dir, specs: seq<Spec>)
    requires WellFormed(d)
  {
    forall i :: 0 <= i < |specs| ==> Verified(host, d, specs[i])
  }

  /** Whoever else publishes one of these artifacts publishes bytes of that digest. */
  predicate HonestWorld(host: Host, specs: seq<Spec>, world: Spec -> Attempt) {
    forall s :: s in specs ==> HonestRival(host, s.sha256, world(s).rival)
  }

  /** The artifact is there, or the attempt to publish it will succeed. */
  predicate Admits(host: Host, d: Dir, spec: Spec, a: Attempt)
    requires WellFormed(d)
  {
    Verify(host, d, spec).Ok? && (Verify(host, d, spec) == Ok(false) ==> Succeeds(host, d, spec, a))
  }

  /** Nothing under these names is refused, and every missing artifact's attempt will succeed. */
  predicate StageAdmits(host: Host, d: Dir, specs: seq<Spec>, world: Spec -> Attempt)
    requires WellFormed(d)
  {
    forall s :: s in specs ==> Admits(host, d, s, world(s))
  }

  /** Publishing one artifact decides nothing about another. */
  lemma AdmitsUndisturbed(host: Host, a: Dir, b: Dir, digest: Bytes, spec: Spec, attempt: Attempt)
    requires WellFormed(a) && WellFormed(b) && Adds(a, b, digest) && spec.sha256 != digest
    ensures Admits(host, b, spec, attempt) <==> Admits(host, a, spec, attempt)
  {
    hide Verify, WellFormed, Arrives, Preserves;
    VerifyUndisturbed(host, a, b, digest, spec);
    assert forall n: Name :: n.digest == spec.sha256 ==> (n in a.names <==> n in b.names);
  }

  /** With no failing call, no rival and free names, a stage will go through. */
  lemma FavourableStage(host: Host, d: Dir, specs: seq<Spec>, world: Spec -> Attempt)
    requires WellFormed(d)
    requires forall s :: s in specs ==> Verified(host, d, s) || (Favourable(world(s)) && Delivers(host, s, world(s).chunks) && Free(d, s, world(s)))
    ensures StageAdmits(host, d, specs, world)
  {
    hide WellFormed, Favourable, Delivers, Succeeds;
    forall s | s in specs ensures Admits(host, d, s, world(s)) {
      if !Verified(host, d, s) { FavourablePublishes(host, d, s, world(s)); }
    }
  }

  function SpecsOf(events: seq<Event>): (specs: seq<Spec>)
    requires forall i :: 0 <= i < |events| ==> events[i].Opened?
    ensures |specs| == |events| && forall i :: 0 <= i < |events| ==> specs[i] == events[i].spec
  {
    seq(|events|, i requires 0 <= i < |events| => events[i].spec)
  }

  /** A stretch of a run that only opened streams, over stores grown from `d`. */
  predicate Openings(d: Dir, events: seq<Event>) {
    forall i :: 0 <= i < |events| ==> events[i].Opened? && WellFormed(events[i].state) && Preserves(d, events[i].state)
  }

  /** After `k` artifacts: those verified, the rest answered as at the start, and a stream
      opened for each of the `k` that was missing and for nothing else. */
  ghost predicate Partway(host: Host, start: Dir, d: Dir, specs: seq<Spec>, k: nat, tally: Tally, events: seq<Event>)
    requires k <= |specs|
  {
    && WellFormed(start) && WellFormed(d) && Preserves(start, d)
    && AllVerified(host, d, specs[..k])
    && (forall j :: k <= j < |specs| ==> Verify(host, d, specs[j]) == Verify(host, start, specs[j]))
    && Openings(start, events) && SpecsOf(events) == Missing(host, start, specs[..k])
    && tally.fetched == |events| && tally.fetched + tally.reused == k
    && tally.fetchedBytes == Sum(SpecsOf(events), SizeOf())
  }

  lemma PartwayStart(host: Host, d: Dir, specs: seq<Spec>)
    requires WellFormed(d)
    ensures Partway(host, d, d, specs, 0, Tally(0, 0, 0), [])
  {
    PreservesReflexive(d);
    assert specs[..0] == [];
    assert SpecsOf([]) == [];
  }

  /** An artifact that is already there. */
  lemma PartwayReuse(host: Host, start: Dir, d: Dir, specs: seq<Spec>, k: nat, tally: Tally, events: seq<Event>)
    requires k < |specs| && Partway(host, start, d, specs, k, tally, events) && Verified(host, d, specs[k])
    ensures Partway(host, start, d, specs, k + 1, tally.(reused := tally.reused + 1), events)
  {
    hide WellFormed, Preserves, Verify, Sum;
    assert specs[..k + 1] == specs[..k] + [specs[k]];
    assert specs[..k + 1][..k] == specs[..k];
  }

  /** An artifact that was fetched. */
  lemma PartwayFetch(host: Host, start: Dir, d: Dir, d': Dir, specs: seq<Spec>, k: nat, tally: Tally, events: seq<Event>)
    requires k < |specs| && DistinctDigests(specs) && Partway(host, start, d, specs, k, tally, events)
    requires Verify(host, d, specs[k]) == Ok(false)
    requires WellFormed(d') && Adds(d, d', specs[k].sha256) && Verified(host, d', specs[k])
    ensures Partway(host, start, d', specs, k + 1, Tally(tally.fetched + 1, tally.reused, tally.fetchedBytes + specs[k].size),
                    events + [Opened(specs[k], d)])
  {
    hide WellFormed, Preserves, Verify, Sum, Adds;
    var spec, more := specs[k], events + [Opened(specs[k], d)];
    AddsPreserves(d, d', spec.sha256);
    PreservesTransitive(start, d, d');
    assert specs[..k + 1] == specs[..k] + [spec];
    assert specs[..k + 1][..k] == specs[..k];
    var done := specs[..k + 1];
    forall i | 0 <= i < k ensures Verified(host, d', done[i]) {
      assert Verified(host, d, specs[..k][i]);
      VerifiedPersists(host, d, d', specs[i]);
    }
    forall j | k + 1 <= j < |specs| ensures Verify(host, d', specs[j]) == Verify(host, start, specs[j]) {
      VerifyUndisturbed(host, d, d', spec.sha256, specs[j]);
    }
    assert SpecsOf(more) == SpecsOf(events) + [spec];
    SumSnoc(SpecsOf(events), spec, SizeOf());
  }

  lemma {:induction false} MissingPrefix(host: Host, d: Dir, specs: seq<Spec>, k: nat)
    requires WellFormed(d) && k <= |specs|
    ensures Missing(host, d, specs[..k]) <= Missing(host, d, specs)
    decreases |specs| - k
  {
    hide Verify;
    if k < |specs| {
      assert specs[..k + 1][..k] == specs[..k];
      MissingPrefix(host, d, specs, k + 1);
    } else {
      assert specs[..k] == specs;
    }
  }

  lemma PartwayStop(host: Host, start: Dir, d: Dir, specs: seq<Spec>, k: nat, tally: Tally, events: seq<Event>)
    requires k <= |specs| && Partway(host, start, d, specs, k, tally, events)
    ensures WellFormed(start) && Preserves(start, d) && Openings(start, events) && SpecsOf(events) <= Missing(host, start, specs)
  {
    hide WellFormed, Preserves, Verify, Sum, Missing;
    MissingPrefix(host, start, specs, k);
  }

  lemma PartwayOpen(host: Host, start: Dir, d: Dir, specs: seq<Spec>, k: nat, tally: Tally, events: seq<Event>)
    requires k < |specs| && Partway(host, start, d, specs, k, tally, events) && Verify(host, d, specs[k]) == Ok(false)
    ensures WellFormed(start) && Openings(start, events + [Opened(specs[k], d)])
    ensures SpecsOf(events + [Opened(specs[k], d)]) <= Missing(host, start, specs)
  {
    hide WellFormed, Preserves, Verify, Sum;
    var more := events + [Opened(specs[k], d)];
    assert specs[..k + 1][..k] == specs[..k];
    assert SpecsOf(more) == SpecsOf(events) + [specs[k]];
    MissingPrefix(host, start, specs, k + 1);
  }

  lemma PartwayDone(host: Host, start: Dir, d: Dir, specs: seq<Spec>, tally: Tally, events: seq<Event>)
    requires Partway(host, start, d, specs, |specs|, tally, events)
    ensures WellFormed(start) && WellFormed(d) && Preserves(start, d) && AllVerified(host, d, specs) && Openings(start, events)
    ensures SpecsOf(events) == Missing(host, start, specs)
    ensures tally.fetched == |events| && tally.fetched + tally.reused == |specs|
    ensures tally.fetchedBytes == Sum(Missing(host, start, specs), SizeOf())
  {
    hide WellFormed, Preserves, Verify, Sum, Missing;
    assert specs[..|specs|] == specs;
  }

  lemma OthersUndisturbed(host: Host, a: Dir, b: Dir, digest: Bytes)
    requires WellFormed(a) && WellFormed(b) && Adds(a, b, digest)
    ensures forall s: Spec :: s.sha256 != digest ==> Verify(host, b, s) == Verify(host, a, s)
  {
    hide WellFormed, Adds, Verify;
    forall s: Spec | s.sha256 != digest ensures Verify(host, b, s) == Verify(host, a, s) {
      VerifyUndisturbed(host, a, b, digest, s);
    }
  }

  /** One stage, in order.  However it ends, the streams it opened are a prefix of the
      missing artifacts, opened over stores that had lost nothing; if it succeeds every
      artifact is verified, a stream was opened for exactly the missing ones, and the
      tally conserves counts and bytes.  It succeeds exactly when no name is refused and
      each missing artifact's attempt will succeed. */
  method AcquireOrdered(store: Store, specs: seq<Spec>, world: Spec -> Attempt)
    returns (ok: bool, tally: Tally, ghost events: seq<Event>)
    requires store.Valid() && DistinctDigests(specs)
    modifies store
    ensures store.Valid() && Preserves(old(store.dir), store.dir)
    ensures ok <==> StageAdmits(store.host, old(store.dir), specs, world)
    ensures Openings(old(store.dir), events) && SpecsOf(events) <= Missing(store.host, old(store.dir), specs)
    ensures ok ==> AllVerified(store.host, store.dir, specs)
    ensures ok ==> SpecsOf(events) == Missing(store.host, old(store.dir), specs)
    ensures ok ==> tally.fetched == |Missing(store.host, old(store.dir), specs)| && tally.fetched + tally.reused == |specs|
    ensures ok ==> tally.fetchedBytes == Sum(Missing(store.host, old(store.dir), specs), SizeOf())
    ensures ok ==> Elsewhere(store.host, old(store.dir), store.dir, specs)
    ensures AllVerified(store.host, old(store.dir), specs) ==> ok && store.dir == old(store.dir)
    ensures Honest(store.host, old(store.dir)) && HonestWorld(store.host, specs, world) ==> Honest(store.host, store.dir)
    ensures Calm(store.host, old(store.dir), Honest(store.host, old(store.dir)) && HonestWorld(store.host, specs, world),
                 old(store.history), store.history)
  {
    hide WellFormed, Preserves, Verify, Missing, Adds, Honest, HonestRival, DistinctDigests, Openings, Partway, Sum, Calm, Admits, Succeeds,
         Elsewhere, Deciding;
    ghost var start, honest := store.dir, Honest(store.host, store.dir) && HonestWorld(store.host, specs, world);
    CalmNone(store.host, start, honest, store.history);
    ok, tally, events := false, Tally(0, 0, 0), [];
    PartwayStart(store.host, store.dir, specs);
    DecidingStart(store.host, start, specs, world);
    for k := 0 to |specs|
      invariant store.Valid() && Partway(store.host, start, store.dir, specs, k, tally, events)
      invariant WellFormed(start) && Deciding(store.host, start, store.dir, specs, world, k)
      invariant AllVerified(store.host, start, specs) ==> store.dir == start
      invariant (honest ==> Honest(store.host, store.dir)) && Calm(store.host, start, honest, old(store.history), store.history)
    {
      var spec := specs[k];
      var found := Verify(store.host, store.dir, spec);
      PartwayStop(store.host, start, store.dir, specs, k, tally, events);
      DecidingStep(store.host, start, store.dir, specs, world, k);
      if found.Fail? { return; }
      if found.value {
        PartwayReuse(store.host, start, store.dir, specs, k, tally, events);
        tally := tally.(reused := tally.reused + 1);
      } else {
        ghost var before := store.dir;
        PartwayOpen(store.host, start, store.dir, specs, k, tally, events);
        events := events + [Opened(spec, store.dir)];
        label streaming:
        var stored := StoreOne(store, spec, world(spec));
        CalmThen(store.host, start, honest, old(store.history), before,
                 Honest(store.host, before) && HonestRival(store.host, spec.sha256, world(spec).rival),
                 old@streaming(store.history), store.history);
        PreservesTransitive(start, before, store.dir);
        if !stored || Verify(store.host, store.dir, spec) != Ok(true) { return; }
        PartwayFetch(store.host, start, before, store.dir, specs, k, tally, events[..|events| - 1]);
        DecidingFetch(store.host, start, before, store.dir, specs, world, k);
        assert events == events[..|events| - 1] + [Opened(spec, before)];
        assert spec.sha256 in Digests(specs);
        tally := Tally(tally.fetched + 1, tally.reused, tally.fetchedBytes + spec.size);
      }
    }
    PartwayDone(store.host, start, store.dir, specs, tally, events);
    DecidingDone(store.host, start, store.dir, specs, world);
    ok := forall i :: 0 <= i < |specs| ==> Verify(store.host, store.dir, specs[i]) == Ok(true);
  }

  /** Every artifact of another digest is as it was, and so is what an attempt at it will do. */
  ghost predicate Elsewhere(host: Host, a: Dir, b: Dir, specs: seq<Spec>)
    requires WellFormed(a) && WellFormed(b)
  {
    && (forall s: Spec :: s.sha256 !in Digests(specs) ==> Verify(host, b, s) == Verify(host, a, s))
    && (forall s: Spec, t: Attempt :: s.sha256 !in Digests(specs) ==> (Admits(host, b, s, t) <==> Admits(host, a, s, t)))
  }

  /** After `k` artifacts: those were admitted at the start, and the start still decides the
      others. */
  ghost predicate Deciding(host: Host, start: Dir, d: Dir, specs: seq<Spec>, world: Spec -> Attempt, k: nat)
    requires WellFormed(start) && WellFormed(d) && k <= |specs|
  {
    && Elsewhere(host, start, d, specs)
    && (forall i :: 0 <= i < k ==> Admits(host, start, specs[i], world(specs[i])))
    && (forall j :: k <= j < |specs| ==> (Admits(host, d, specs[j], world(specs[j])) <==> Admits(host, start, specs[j], world(specs[j]))))
  }

  lemma DecidingStart(host: Host, start: Dir, specs: seq<Spec>, world: Spec -> Attempt)
    requires WellFormed(start)
    ensures Deciding(host, start, start, specs, world, 0)
  {
    hide Admits, Verify, WellFormed;
  }

  /** An artifact that was found, and one that is refused or whose attempt will fail. */
  lemma DecidingStep(host: Host, start: Dir, d: Dir, specs: seq<Spec>, world: Spec -> Attempt, k: nat)
    requires WellFormed(start) && WellFormed(d) && k < |specs| && Deciding(host, start, d, specs, world, k)
    ensures Verified(host, d, specs[k]) ==> Deciding(host, start, d, specs, world, k + 1)
    ensures !Admits(host, d, specs[k], world(specs[k])) ==> !StageAdmits(host, start, specs, world)
    ensures Admits(host, d, specs[k], world(specs[k])) <==>
      Verify(host, d, specs[k]).Ok? && (Verify(host, d, specs[k]) == Ok(false) ==> Succeeds(host, d, specs[k], world(specs[k])))
  {
    hide Elsewhere, Verify, WellFormed, Succeeds;
  }

  lemma DecidingFetch(host: Host, start: Dir, d: Dir, d': Dir, specs: seq<Spec>, world: Spec -> Attempt, k: nat)
    requires WellFormed(start) && WellFormed(d) && WellFormed(d') && k < |specs| && DistinctDigests(specs)
    requires Deciding(host, start, d, specs, world, k) && Admits(host, d, specs[k], world(specs[k])) && Adds(d, d', specs[k].sha256)
    ensures Deciding(host, start, d', specs, world, k + 1)
  {
    hide Admits, Verify, WellFormed, Adds;
    var digest := specs[k].sha256;
    assert digest in Digests(specs);
    OthersUndisturbed(host, d, d', digest);
    forall s: Spec, t: Attempt | s.sha256 != digest ensures Admits(host, d', s, t) <==> Admits(host, d, s, t) {
      AdmitsUndisturbed(host, d, d', digest, s, t);
    }
  }

  lemma DecidingDone(host: Host, start: Dir, d: Dir, specs: seq<Spec>, world: Spec -> Attempt)
    requires WellFormed(start) && WellFormed(d) && Deciding(host, start, d, specs, world, |specs|)
    ensures StageAdmits(host, start, specs, world) && Elsewhere(host, start, d, specs)
  {
    hide Admits, WellFormed, Elsewhere;
    forall s | s in specs ensures Admits(host, start, s, world(s)) {
      var i :| 0 <= i < |specs| && specs[i] == s;
    }
  }

  /** A stage within a run that has been calm since `start`. */
  method AcquireStage(store: Store, specs: seq<Spec>, world: Spec -> Attempt, ghost start: Dir, ghost honest: bool, ghost h0: seq<Dir>)
    returns (ok: bool, tally: Tally, ghost events: seq<Event>)
    requires store.Valid() && DistinctDigests(specs) && Preserves(start, store.dir) && Calm(store.host, start, honest, h0, store.history)
    requires honest ==> Honest(store.host, store.dir) && HonestWorld(store.host, specs, world)
    modifies store
    ensures store.Valid() && Preserves(old(store.dir), store.dir) && Preserves(start, store.dir)
    ensures Calm(store.host, start, honest, h0, store.history) && (honest ==> Honest(store.host, store.dir))
    ensures ok <==> StageAdmits(store.host, old(store.dir), specs, world)
    ensures Openings(old(store.dir), events) && SpecsOf(events) <= Missing(store.host, old(store.dir), specs)
    ensures ok ==> AllVerified(store.host, store.dir, specs)
    ensures ok ==> SpecsOf(events) == Missing(store.host, old(store.dir), specs)
    ensures ok ==> tally.fetched == |Missing(store.host, old(store.dir), specs)| && tally.fetched + tally.reused == |specs|
    ensures ok ==> tally.fetchedBytes == Sum(Missing(store.host, old(store.dir), specs), SizeOf())
    ensures ok ==> Elsewhere(store.host, old(store.dir), store.dir, specs)
    ensures AllVerified(store.host, old(store.dir), specs) ==> ok && store.dir == old(store.dir)
  {
    hide WellFormed, Preserves, Verify, Missing, Honest, HonestWorld, DistinctDigests, Openings, Sum, Calm, Digests, Elsewhere, StageAdmits;
    ghost var mid, h1 := store.dir, store.history;
    ok, tally, events := AcquireOrdered(store, specs, world);
    CalmThen(store.host, start, honest, h0, mid, Honest(store.host, mid) && HonestWorld(store.host, specs, world), h1, store.history);
    PreservesTransitive(start, mid, store.dir);
  }

  function Digests(specs: seq<Spec>): set<Bytes> { set s | s in specs :: s.sha256 }

  /** The part of publishing that a stage relies on. */
  method StoreOne(store: Store, spec: Spec, a: Attempt) returns (ok: bool)
    requires store.Valid()
    modifies store
    ensures store.Valid() && Preserves(old(store.dir), store.dir)
    ensures ok <==> Succeeds(store.host, old(store.dir), spec, a)
    ensures ok ==> Adds(old(store.dir), store.dir, spec.sha256) && Verified(store.host, store.dir, spec)
    ensures Honest(store.host, old(store.dir)) && HonestRival(store.host, spec.sha256, a.rival) ==> Honest(store.host, store.dir)
    ensures Calm(store.host, old(store.dir), Honest(store.host, old(store.dir)) && HonestRival(store.host, spec.sha256, a.rival),
                 old(store.history), store.history)
  {
    hide WellFormed, Preserves, Verify, Adds, Honest, HonestRival, Delivers, Visible, VisibleAfter, Free, Calm, Succeeds, FateOf;
    ghost var fate;
    ok, fate := store.StoreStream(spec, a);
  }

  /* ----- identities ----- */

  predicate ValidSpec(s: Spec) {
    && s.artifactId != [] && s.size > 0 && |s.sha256| == 64
    && forall i :: 0 <= i < 64 ==> 48 <= s.sha256[i] < 58 || 97 <= s.sha256[i] < 103
  }

  function IdsOf(specs: seq<Spec>): (ids: seq<Bytes>)
    ensures |ids| == |specs| && forall i :: 0 <= i < |ids| ==> ids[i] == specs[i].artifactId
  {
    seq(|specs|, i requires 0 <= i < |specs| => specs[i].artifactId)
  }

  function InsertSpec(x: Spec, s: seq<Spec>): seq<Spec> {
    if s == [] then [x]
    else if Less(s[0].artifactId, x.artifactId) then [s[0]] + InsertSpec(x, s[1..])
    else [x] + s
  }

  function SortSpecs(s: seq<Spec>): seq<Spec> {
    if s == [] then [] else InsertSpec(s[0], SortSpecs(s[1..]))
  }

  lemma IdsCons(x: Spec, s: seq<Spec>)
    ensures IdsOf([x] + s) == [x.artifactId] + IdsOf(s)
  {
  }

  lemma {:induction false} InsertSpecIds(x: Spec, s: seq<Spec>)
    ensures IdsOf(InsertSpec(x, s)) == Insert(x.artifactId, IdsOf(s))
    ensures multiset(InsertSpec(x, s)) == multiset(s) + multiset{x}
    decreases |s|
  {
    hide Less, IdsOf;
    IdsCons(x, s);
    if s == [] {
      assert [x] + s == [x];
    } else {
      var head, tail := s[0], s[1..];
      assert s == [head] + tail;
      IdsCons(head, tail);
      assert IdsOf(s)[1..] == IdsOf(tail);
      InsertSpecIds(x, tail);
      IdsCons(head, InsertSpec(x, tail));
    }
  }

  lemma {:induction false} SortSpecsIds(s: seq<Spec>)
    ensures IdsOf(SortSpecs(s)) == Sort(IdsOf(s))
    ensures multiset(SortSpecs(s)) == multiset(s)
    decreases |s|
  {
    hide InsertSpec, Insert;
    if s != [] {
      SortSpecsIds(s[1..]);
      InsertSpecIds(s[0], SortSpecs(s[1..]));
      assert IdsOf(s)[1..] == IdsOf(s[1..]);
      assert s == [s[0]] + s[1..];
    }
  }

  lemma DigestsPermuted(a: seq<Spec>, b: seq<Spec>)
    requires multiset(a) == multiset(b) && DistinctDigests(a)
    ensures DistinctDigests(b) && Digests(a) == Digests(b) && |a| == |b|
  {
    forall x ensures x in a <==> x in b { assert x in multiset(a) <==> x in multiset(b); }
    assert |a| == |multiset(a)| == |multiset(b)| == |b|;
    assert Distinct(a);
    ElementCount(a);
    ElementCount(b);
    assert Elements(a) == Elements(b);
    forall i, j | 0 <= i < j < |b| ensures b[i].sha256 != b[j].sha256 {
      assert b[i] in a && b[j] in a && b[i] != b[j];
      var k :| 0 <= k < |a| && a[k] == b[i];
      var l :| 0 <= l < |a| && a[l] == b[j];
    }
  }

  predicate UniqueSpecs(specs: seq<Spec>) {
    (forall i :: 0 <= i < |specs| ==> ValidSpec(specs[i])) && Distinct(IdsOf(specs)) && DistinctDigests(specs)
  }

  lemma DigestsDistinct(specs: seq<Spec>, digests: seq<Bytes>)
    requires |digests| == |specs| && forall i :: 0 <= i < |specs| ==> digests[i] == specs[i].sha256
    ensures DistinctDigests(specs) <==> Distinct(digests)
  {
    if DistinctDigests(specs) {
      forall i, j | 0 <= i < j < |digests| ensures digests[i] != digests[j] { assert specs[i].sha256 != specs[j].sha256; }
    }
    if Distinct(digests) {
      forall i, j | 0 <= i < j < |specs| ensures specs[i].sha256 != specs[j].sha256 { assert digests[i] != digests[j]; }
    }
  }

  /** An identifier, a size, and sixty-four lower-case hexadecimal digits. */
  method CheckSpec(s: Spec) returns (ok: bool)
    ensures ok <==> ValidSpec(s)
  {
    if s.artifactId == [] || s.size == 0 || |s.sha256| != 64 { return false; }
    for i := 0 to 64
      invariant forall k :: 0 <= k < i ==> 48 <= s.sha256[k] < 58 || 97 <= s.sha256[k] < 103
    {
      var b := s.sha256[i];
      if b < 48 || (57 < b && b < 97) || 102 < b { return false; }
    }
    return true;
  }

  /** Validate a list of artifacts and order it by identifier; identifiers and digests may
      not repeat. */
  method OrderedUnique(specs: seq<Spec>) returns (r: Result<seq<Spec>>)
    ensures r.Ok? <==> UniqueSpecs(specs)
    ensures r.Ok? ==> r.value == SortSpecs(specs) && multiset(r.value) == multiset(specs)
    ensures r.Ok? ==> Increasing(IdsOf(r.value)) && DistinctDigests(r.value)
  {
    hide Less, ValidSpec, Sort, Distinct, Increasing, SortSpecs;
    for i := 0 to |specs|
      invariant forall k :: 0 <= k < i ==> ValidSpec(specs[k])
    {
      var valid := CheckSpec(specs[i]);
      if !valid { return Fail; }
    }
    var digests := seq(|specs|, i requires 0 <= i < |specs| => specs[i].sha256);
    DigestsDistinct(specs, digests);
    ElementCount(IdsOf(specs));
    ElementCount(digests);
    if |IdsOf(specs)| != |Elements(IdsOf(specs))| || |digests| != |Elements(digests)| { return Fail; }
    var sorted := SortSpecs(specs);
    SortSpecsIds(specs);
    SortSorts(IdsOf(specs));
    DigestsPermuted(specs, sorted);
    SortedDistinct(Sort(IdsOf(specs)));
    PermutedDistinct(IdsOf(specs), Sort(IdsOf(specs)));
    return Ok(sorted);
  }

  lemma PermutedDistinct(a: seq<Bytes>, b: seq<Bytes>)
    requires multiset(a) == multiset(b) && Distinct(a)
    ensures Distinct(b)
  {
    hide Distinct;
    forall x ensures x in a <==> x in b { assert x in multiset(a) <==> x in multiset(b); }
    assert |a| == |multiset(a)| == |multiset(b)| == |b|;
    ElementCount(a);
    ElementCount(b);
    assert Elements(a) == Elements(b);
  }

  /** No identifier and no digest is shared. */
  predicate Disjoint(a: seq<Spec>, b: seq<Spec>) {
    Elements(IdsOf(a)) !! Elements(IdsOf(b)) && Digests(a) !! Digests(b)
  }

  /** Compare two lists pair by pair. */
  method Apart(a: seq<Spec>, b: seq<Spec>) returns (ok: bool)
    ensures ok <==> Disjoint(a, b)
  {
    ApartPairs(a, b);
    for i := 0 to |a|
      invariant forall x: nat, y: nat :: x < i && y < |b| ==> a[x].artifactId != b[y].artifactId && a[x].sha256 != b[y].sha256
    {
      for j := 0 to |b|
        invariant forall y: nat :: y < j ==> a[i].artifactId != b[y].artifactId && a[i].sha256 != b[y].sha256
      {
        if a[i].artifactId == b[j].artifactId || a[i].sha256 == b[j].sha256 { return false; }
      }
    }
    return true;
  }

  lemma ApartPairs(a: seq<Spec>, b: seq<Spec>)
    ensures Disjoint(a, b) <==>
      forall x: nat, y: nat :: x < |a| && y < |b| ==> a[x].artifactId != b[y].artifactId && a[x].sha256 != b[y].sha256
  {
    if Disjoint(a, b) {
      forall x: nat, y: nat | x < |a| && y < |b| ensures a[x].artifactId != b[y].artifactId && a[x].sha256 != b[y].sha256 {
        assert IdsOf(a)[x] in Elements(IdsOf(a)) && IdsOf(b)[y] in Elements(IdsOf(b));
        assert a[x].sha256 in Digests(a) && b[y].sha256 in Digests(b);
      }
    } else if id :| id in Elements(IdsOf(a)) && id in Elements(IdsOf(b)) {
      var x: nat :| x < |a| && IdsOf(a)[x] == id;
      var y: nat :| y < |b| && IdsOf(b)[y] == id;
      assert a[x].artifactId == b[y].artifactId;
    } else {
      var sha256 :| sha256 in Digests(a) && sha256 in Digests(b);
      var x: nat :| x < |a| && a[x].sha256 == sha256;
      var y: nat :| y < |b| && b[y].sha256 == sha256;
    }
  }

  /* ----- the order of a whole run ----- */

  /** A delta stream is opened only after the replay agreed and over a store in which every
      baseline artifact is verified; a baseline stream only after the replay agreed. */
  predicate InOrder(host: Host, trace: seq<Event>, baseline: seq<Spec>, delta: seq<Spec>) {
    forall i :: 0 <= i < |trace| && trace[i].Opened? ==>
      && (trace[i].spec in baseline || trace[i].spec in delta ==> Replayed(true) in trace[..i])
      && (trace[i].spec in delta ==> WellFormed(trace[i].state) && AllVerified(host, trace[i].state, baseline))
  }

  predicate OpenedOnce(trace: seq<Event>) {
    forall i, j :: 0 <= i < j < |trace| && trace[i].Opened? && trace[j].Opened? ==> trace[i].spec.sha256 != trace[j].spec.sha256
  }

  lemma {:induction false} MissingMembers(host: Host, d: Dir, specs: seq<Spec>, s: Spec)
    requires WellFormed(d)
    ensures s in Missing(host, d, specs) <==> s in specs && Verify(host, d, s) == Ok(false)
    decreases |specs|
  {
    hide Verify;
    if specs != [] {
      MissingMembers(host, d, specs[..|specs| - 1], s);
      assert specs == specs[..|specs| - 1] + [specs[|specs| - 1]];
    }
  }

  lemma {:induction false} MissingDistinct(host: Host, d: Dir, specs: seq<Spec>)
    requires WellFormed(d) && DistinctDigests(specs)
    ensures DistinctDigests(Missing(host, d, specs))
    decreases |specs|
  {
    hide Verify;
    if specs != [] {
      var init, last := specs[..|specs| - 1], specs[|specs| - 1];
      MissingDistinct(host, d, init);
      forall i | 0 <= i < |Missing(host, d, init)| ensures Missing(host, d, init)[i].sha256 != last.sha256 {
        MissingMembers(host, d, init, Missing(host, d, init)[i]);
        var k :| 0 <= k < |init| && init[k] == Missing(host, d, init)[i];
        assert specs[k] == init[k];
      }
    }
  }

  /** The streams of one stage: each opened once, all of them of that stage. */
  predicate StageEvents(events: seq<Event>, specs: seq<Spec>) {
    && (forall i :: 0 <= i < |events| ==> events[i].Opened? && events[i].spec in specs)
    && OpenedOnce(events)
  }

  lemma StageOpened(host: Host, d: Dir, specs: seq<Spec>, events: seq<Event>)
    requires WellFormed(d) && DistinctDigests(specs) && Openings(d, events)
    requires SpecsOf(events) <= Missing(host, d, specs)
    ensures StageEvents(events, specs)
  {
    hide Verify, Preserves, WellFormed, Missing;
    MissingDistinct(host, d, specs);
    forall i | 0 <= i < |events| ensures events[i].spec in specs {
      assert SpecsOf(events)[i] == Missing(host, d, specs)[i];
      MissingMembers(host, d, specs, events[i].spec);
    }
    forall i, j | 0 <= i < j < |events| ensures events[i].spec.sha256 != events[j].spec.sha256 {
      assert SpecsOf(events)[i] == Missing(host, d, specs)[i] && SpecsOf(events)[j] == Missing(host, d, specs)[j];
    }
  }
}
