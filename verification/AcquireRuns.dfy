/** Whole acquisitions: two stages, or one index, a replay of the signed metadata, and two
    stages, with the initial contents of the store checked beforehand. */
module AcquireRuns {
  import opened ByteStrings
  import opened Sorting
  import opened Folds
  import opened Cas
  import opened CasStore
  import opened Acquire

  datatype Summary = Summary(metadata: Tally, baseline: Tally, delta: Tally)

  /* ----- putting stages together ----- */

  lemma OnceConcat(a: seq<Event>, b: seq<Event>)
    requires OpenedOnce(a) && OpenedOnce(b)
    requires forall i, j :: 0 <= i < |a| && 0 <= j < |b| && a[i].Opened? && b[j].Opened? ==> a[i].spec.sha256 != b[j].spec.sha256
    ensures OpenedOnce(a + b)
  {
  }

  lemma StagesApart(a: seq<Event>, s: seq<Spec>, b: seq<Event>, t: seq<Spec>)
    requires StageEvents(a, s) && StageEvents(b, t) && Digests(s) !! Digests(t)
    ensures forall i, j :: 0 <= i < |a| && 0 <= j < |b| ==> a[i].spec.sha256 != b[j].spec.sha256
  {
    forall i, j | 0 <= i < |a| && 0 <= j < |b| ensures a[i].spec.sha256 != b[j].spec.sha256 {
      assert a[i].spec.sha256 in Digests(s) && b[j].spec.sha256 in Digests(t);
    }
  }

  lemma NoEvents(specs: seq<Spec>)
    ensures StageEvents([], specs)
  {
  }

  /** The trace of a run that got as far as its last non-empty part. */
  lemma RunOpenedOnce(m: seq<Event>, ms: seq<Spec>, replay: seq<Event>, b: seq<Event>, bs: seq<Spec>, d: seq<Event>, ds: seq<Spec>)
    requires StageEvents(m, ms) && StageEvents(b, bs) && StageEvents(d, ds)
    requires Digests(ms) !! Digests(bs) && Digests(ms) !! Digests(ds) && Digests(bs) !! Digests(ds)
    requires forall i :: 0 <= i < |replay| ==> replay[i].Replayed?
    ensures OpenedOnce(m + replay + b + d)
  {
    hide Digests;
    StagesApart(m, ms, b, bs);
    StagesApart(m, ms, d, ds);
    StagesApart(b, bs, d, ds);
    OnceConcat(m, replay);
    var mr := m + replay;
    forall i | 0 <= i < |mr| && mr[i].Opened? ensures i < |m| && mr[i] == m[i] {
    }
    OnceConcat(mr, b);
    var mrb := mr + b;
    forall i | 0 <= i < |mrb| && mrb[i].Opened? ensures (i < |m| && mrb[i] == m[i]) || (i >= |mr| && mrb[i] == b[i - |mr|]) {
      if i < |mr| { assert mrb[i] == mr[i]; }
    }
    OnceConcat(mrb, d);
  }

  lemma RunInOrder(host: Host, m: seq<Event>, ms: seq<Spec>, replay: seq<Event>, b: seq<Event>, bs: seq<Spec>,
                   d: seq<Event>, ds: seq<Spec>, mid: Dir)
    requires StageEvents(m, ms) && StageEvents(b, bs) && StageEvents(d, ds)
    requires Digests(ms) !! Digests(bs) && Digests(ms) !! Digests(ds) && Digests(bs) !! Digests(ds)
    requires forall i :: 0 <= i < |replay| ==> replay[i].Replayed?
    requires b != [] || d != [] ==> replay == [Replayed(true)]
    requires WellFormed(mid) && (d != [] ==> AllVerified(host, mid, bs) && Openings(mid, d))
    ensures InOrder(host, m + replay + b + d, bs, ds)
  {
    hide WellFormed, Verify, Preserves;
    var trace := m + replay + b + d;
    forall i | 0 <= i < |trace| && trace[i].Opened?
      ensures trace[i].spec in bs || trace[i].spec in ds ==> Replayed(true) in trace[..i]
      ensures trace[i].spec in ds ==> WellFormed(trace[i].state) && AllVerified(host, trace[i].state, bs)
    {
      var s := trace[i].spec;
      var k := |m| + |replay|;
      if i < |m| {
        assert s in ms && s.sha256 in Digests(ms);
      } else {
        assert i >= k;
        assert trace[..i][|m|] == replay[0];
        if i < k + |b| {
          assert trace[i] == b[i - k];
          assert s.sha256 in Digests(bs);
        } else {
          assert trace[i] == d[i - k - |b|];
          OpeningVerified(host, mid, trace[i].state, bs);
        }
      }
    }
  }

  lemma RunTrace(host: Host, m: seq<Event>, ms: seq<Spec>, replay: seq<Event>, b: seq<Event>, bs: seq<Spec>,
                 d: seq<Event>, ds: seq<Spec>, mid: Dir)
    requires StageEvents(m, ms) && StageEvents(b, bs) && StageEvents(d, ds)
    requires Disjoint(ms, bs) && Disjoint(ms, ds) && Disjoint(bs, ds)
    requires forall i :: 0 <= i < |replay| ==> replay[i].Replayed?
    requires b != [] || d != [] ==> replay == [Replayed(true)]
    requires WellFormed(mid) && (d != [] ==> AllVerified(host, mid, bs) && Openings(mid, d))
    ensures InOrder(host, m + replay + b + d, bs, ds) && OpenedOnce(m + replay + b + d)
  {
    hide StageEvents, Digests, InOrder, OpenedOnce, WellFormed, AllVerified, Openings;
    RunOpenedOnce(m, ms, replay, b, bs, d, ds);
    RunInOrder(host, m, ms, replay, b, bs, d, ds, mid);
  }

  lemma OpeningVerified(host: Host, mid: Dir, state: Dir, specs: seq<Spec>)
    requires WellFormed(mid) && WellFormed(state) && Preserves(mid, state) && AllVerified(host, mid, specs)
    ensures AllVerified(host, state, specs)
  {
    hide WellFormed, Verify, Preserves;
    forall i | 0 <= i < |specs| ensures Verified(host, state, specs[i]) {
      VerifiedPersists(host, mid, state, specs[i]);
    }
  }

  lemma {:induction false} MissingSame(host: Host, a: Dir, b: Dir, specs: seq<Spec>)
    requires WellFormed(a) && WellFormed(b)
    requires forall i :: 0 <= i < |specs| ==> Verify(host, a, specs[i]) == Verify(host, b, specs[i])
    ensures Missing(host, a, specs) == Missing(host, b, specs)
    decreases |specs|
  {
    hide Verify;
    if specs != [] { MissingSame(host, a, b, specs[..|specs| - 1]); }
  }

  /** A finished stage leaves the later stages' artifacts as they were. */
  lemma LaterStage(host: Host, a: Dir, b: Dir, done: seq<Spec>, specs: seq<Spec>, world: Spec -> Attempt)
    requires WellFormed(a) && WellFormed(b) && Disjoint(done, specs) && Elsewhere(host, a, b, done)
    ensures Missing(host, b, specs) == Missing(host, a, specs)
    ensures StageAdmits(host, b, specs, world) <==> StageAdmits(host, a, specs, world)
  {
    hide Verify, WellFormed, Missing, Admits;
    forall i | 0 <= i < |specs| ensures Verify(host, b, specs[i]) == Verify(host, a, specs[i]) {
      assert specs[i].sha256 in Digests(specs);
    }
    forall s | s in specs ensures Admits(host, b, s, world(s)) <==> Admits(host, a, s, world(s)) { assert s.sha256 in Digests(specs); }
    MissingSame(host, b, a, specs);
  }

  /** What a stage admits does not depend on its order. */
  lemma AdmitsMembers(host: Host, d: Dir, a: seq<Spec>, b: seq<Spec>, world: Spec -> Attempt)
    requires WellFormed(d) && multiset(a) == multiset(b)
    ensures StageAdmits(host, d, a, world) <==> StageAdmits(host, d, b, world)
  {
    hide WellFormed, Admits;
    SameMembers(a, b);
  }

  /* ----- what a stage's tally means ----- */

  /** Counts and bytes are conserved, against the store before the run. */
  predicate Conserves(host: Host, start: Dir, specs: seq<Spec>, tally: Tally)
    requires WellFormed(start)
  {
    && tally.fetched == |Missing(host, start, specs)| && tally.fetched + tally.reused == |specs|
    && tally.fetchedBytes == Sum(Missing(host, start, specs), SizeOf())
  }

  /** With nothing missing a stage reuses everything and fetches nothing. */
  lemma {:induction false} NothingMissing(host: Host, d: Dir, specs: seq<Spec>)
    requires WellFormed(d) && AllVerified(host, d, specs)
    ensures Missing(host, d, specs) == []
    decreases |specs|
  {
    hide Verify;
    if specs != [] {
      assert Verified(host, d, specs[|specs| - 1]);
      NothingMissing(host, d, specs[..|specs| - 1]);
    }
  }

  /* ----- two stages ----- */

  /** Baseline, then delta.  Whatever happens, no delta stream is opened over a store that
      lacks a baseline artifact, and no stream is opened twice; on success everything is
      verified and both tallies are conserved.  It succeeds exactly when the artifacts are
      valid and distinct, the lock is free, and the store it starts from admits both stages. */
  method AcquireTwoStage(store: Store, baseline: seq<Spec>, delta: seq<Spec>, world: Spec -> Attempt, lockFree: bool)
    returns (r: Result<Summary>, ghost trace: seq<Event>)
    requires store.Valid()
    modifies store
    ensures store.Valid() && Preserves(old(store.dir), store.dir)
    ensures Calm(store.host, old(store.dir), Honest(store.host, old(store.dir)) && HonestWorld(store.host, baseline + delta, world),
                 old(store.history), store.history)
    ensures Honest(store.host, old(store.dir)) && HonestWorld(store.host, baseline + delta, world) ==> Honest(store.host, store.dir)
    ensures OpenedOnce(trace)
    ensures forall i :: 0 <= i < |trace| ==> trace[i].Opened? && (trace[i].spec in delta ==>
              WellFormed(trace[i].state) && AllVerified(store.host, trace[i].state, baseline))
    ensures r.Ok? <==>
      && UniqueSpecs(baseline) && UniqueSpecs(delta) && Disjoint(SortSpecs(baseline), SortSpecs(delta)) && lockFree
      && StageAdmits(store.host, old(store.dir), baseline, world) && StageAdmits(store.host, old(store.dir), delta, world)
    ensures r.Ok? ==> && AllVerified(store.host, store.dir, baseline) && AllVerified(store.host, store.dir, delta)
                      && r.value.metadata == Tally(0, 0, 0)
                      && Conserves(store.host, old(store.dir), SortSpecs(baseline), r.value.baseline)
                      && Conserves(store.host, old(store.dir), SortSpecs(delta), r.value.delta)
    ensures && UniqueSpecs(baseline) && UniqueSpecs(delta) && Disjoint(SortSpecs(baseline), SortSpecs(delta)) && lockFree
            && AllVerified(store.host, old(store.dir), baseline) && AllVerified(store.host, old(store.dir), delta) ==>
              && r.Ok? && trace == [] && store.dir == old(store.dir)
              && r.value.baseline.fetchedBytes == 0 && r.value.delta.fetchedBytes == 0
  {
    hide WellFormed, Preserves, Verify, Missing, Honest, DistinctDigests, Openings, Sum, Less, SortSpecs, OpenedOnce, Increasing,
         UniqueSpecs, Digests, HonestWorld, Calm, StageAdmits, Elsewhere;
    ghost var host := store.host;
    ghost var honest := Honest(host, store.dir) && HonestWorld(host, baseline + delta, world);
    trace := [];
    PreservesReflexive(store.dir);
    CalmNone(host, store.dir, honest, store.history);
    NoEvents(baseline);
    var bs := OrderedUnique(baseline);
    var ds := OrderedUnique(delta);
    if bs.Fail? || ds.Fail? { return Fail, trace; }
    var apart := Apart(bs.value, ds.value);
    if !apart || !lockFree { return Fail, trace; }
    SameMembers(baseline, bs.value);
    SameMembers(delta, ds.value);
    ghost var start := store.dir;
    VerifiedMembers(host, start, baseline, bs.value);
    VerifiedMembers(host, start, delta, ds.value);
    HonestPart(host, baseline + delta, bs.value, world);
    HonestPart(host, baseline + delta, ds.value, world);
    AdmitsMembers(host, start, baseline, bs.value, world);
    AdmitsMembers(host, start, delta, ds.value, world);
    var ok, first; ghost var b;
    ok, first, b := AcquireStage(store, bs.value, world, start, honest, old(store.history));
    StageOpened(host, start, bs.value, b);
    trace := b;
    NotDelta(host, b, bs.value, delta, ds.value);
    if !ok { return Fail, trace; }
    ghost var mid := store.dir;
    LaterStage(host, start, mid, bs.value, ds.value, world);
    var second; ghost var d;
    ok, second, d := AcquireStage(store, ds.value, world, start, honest, old(store.history));
    StageOpened(host, mid, ds.value, d);
    StagesApart(b, bs.value, d, ds.value);
    OnceConcat(b, d);
    DeltaEvents(host, mid, d, bs.value, baseline);
    trace := b + d;
    if !ok { return Fail, trace; }
    OpeningVerified(host, mid, store.dir, bs.value);
    VerifiedMembers(host, store.dir, baseline, bs.value);
    VerifiedMembers(host, store.dir, delta, ds.value);
    AgainNothing(host, start, baseline, bs.value, b);
    AgainNothing(host, start, delta, ds.value, d);
    return Ok(Summary(Tally(0, 0, 0), first, second)), trace;
  }

  lemma HonestPart(host: Host, all: seq<Spec>, part: seq<Spec>, world: Spec -> Attempt)
    requires forall s :: s in part ==> s in all
    ensures HonestWorld(host, all, world) ==> HonestWorld(host, part, world)
  {
    hide HonestRival;
  }

  lemma SameMembers(a: seq<Spec>, b: seq<Spec>)
    requires multiset(a) == multiset(b)
    ensures forall s :: s in a <==> s in b
  {
    forall s ensures s in a <==> s in b { assert s in multiset(a) <==> s in multiset(b); }
  }

  lemma NotDelta(host: Host, b: seq<Event>, bs: seq<Spec>, delta: seq<Spec>, ds: seq<Spec>)
    requires StageEvents(b, bs) && Digests(bs) !! Digests(ds) && forall s :: s in delta <==> s in ds
    ensures forall i :: 0 <= i < |b| ==> b[i].Opened? && b[i].spec !in delta
  {
    assert forall t :: t in ds ==> t.sha256 in Digests(ds);
    forall i | 0 <= i < |b| ensures b[i].spec !in delta {
      assert b[i].spec.sha256 in Digests(bs);
    }
  }

  lemma DeltaEvents(host: Host, mid: Dir, d: seq<Event>, bs: seq<Spec>, baseline: seq<Spec>)
    requires WellFormed(mid) && AllVerified(host, mid, bs) && Openings(mid, d) && forall s :: s in baseline <==> s in bs
    ensures forall i :: 0 <= i < |d| ==> d[i].Opened? && WellFormed(d[i].state) && AllVerified(host, d[i].state, baseline)
  {
    hide WellFormed, Verify, Preserves;
    forall i | 0 <= i < |d| ensures d[i].Opened? && WellFormed(d[i].state) && AllVerified(host, d[i].state, baseline) {
      OpeningVerified(host, mid, d[i].state, bs);
      VerifiedMembers(host, d[i].state, baseline, bs);
    }
  }

  lemma VerifiedMembers(host: Host, d: Dir, a: seq<Spec>, b: seq<Spec>)
    requires WellFormed(d) && forall s :: s in a <==> s in b
    ensures AllVerified(host, d, a) <==> AllVerified(host, d, b)
  {
    hide WellFormed, Verify;
    if AllVerified(host, d, a) {
      forall i | 0 <= i < |b| ensures Verified(host, d, b[i]) { assert b[i] in a; }
    }
    if AllVerified(host, d, b) {
      forall i | 0 <= i < |a| ensures Verified(host, d, a[i]) { assert a[i] in b; }
    }
  }

  lemma AgainNothing(host: Host, start: Dir, specs: seq<Spec>, sorted: seq<Spec>, events: seq<Event>)
    requires WellFormed(start) && (forall s :: s in specs <==> s in sorted)
    requires (forall i :: 0 <= i < |events| ==> events[i].Opened?) && SpecsOf(events) == Missing(host, start, sorted)
    ensures AllVerified(host, start, specs) ==> events == [] && Sum(Missing(host, start, sorted), SizeOf()) == 0
  {
    hide WellFormed, Verify, Missing;
    VerifiedMembers(host, start, specs, sorted);
    if AllVerified(host, start, sorted) { NothingMissing(host, start, sorted); }
  }

  /** Running the acquisition again on the store it left succeeds, opens no stream at all
      and changes nothing. */
  method AcquireAgain(store: Store, baseline: seq<Spec>, delta: seq<Spec>, world: Spec -> Attempt, later: Spec -> Attempt)
    returns (first: Result<Summary>, second: Result<Summary>, ghost between: Dir, ghost again: seq<Event>)
    requires store.Valid()
    modifies store
    ensures store.Valid()
    ensures first.Ok? <==>
      && UniqueSpecs(baseline) && UniqueSpecs(delta) && Disjoint(SortSpecs(baseline), SortSpecs(delta))
      && StageAdmits(store.host, old(store.dir), baseline, world) && StageAdmits(store.host, old(store.dir), delta, world)
    ensures first.Ok? ==> second.Ok? && again == [] && store.dir == between
    ensures first.Ok? ==> second.value.baseline.fetchedBytes == 0 && second.value.delta.fetchedBytes == 0
  {
    hide WellFormed, Preserves, Verify, Conserves, AllVerified, OpenedOnce, SortSpecs, UniqueSpecs, Disjoint, StageAdmits;
    ghost var trace;
    first, trace := AcquireTwoStage(store, baseline, delta, world, true);
    between := store.dir;
    second, again := AcquireTwoStage(store, baseline, delta, later, true);
  }

  /* ----- the initial contents of the store ----- */

  /** What must be in the store before a frozen run: the signed bootstrap, not the index,
      and exactly these packages. */
  datatype Expectation = Expectation(inRelease: Spec, keyring: Spec, presentBaseline: set<Bytes>, presentDelta: set<Bytes>)

  /** Every artifact answers, and is present exactly if its identifier is expected. */
  predicate Inventory(host: Host, d: Dir, specs: seq<Spec>, present: set<Bytes>)
    requires WellFormed(d)
  {
    forall i :: 0 <= i < |specs| ==> Verify(host, d, specs[i]) == Ok(specs[i].artifactId in present)
  }

  predicate PreflightPasses(host: Host, d: Dir, metadata: Spec, baseline: seq<Spec>, delta: seq<Spec>, e: Expectation)
    requires WellFormed(d)
  {
    && Verified(host, d, e.inRelease) && Verified(host, d, e.keyring) && Verify(host, d, metadata) == Ok(false)
    && Inventory(host, d, baseline, e.presentBaseline) && Inventory(host, d, delta, e.presentDelta)
  }

  /** Look at every artifact before anything is fetched. */
  method Preflight(host: Host, d: Dir, metadata: Spec, baseline: seq<Spec>, delta: seq<Spec>, e: Expectation) returns (ok: bool)
    requires WellFormed(d)
    ensures ok <==> PreflightPasses(host, d, metadata, baseline, delta, e)
  {
    hide Verify;
    if Verify(host, d, e.inRelease) != Ok(true) || Verify(host, d, e.keyring) != Ok(true) { return false; }
    if Verify(host, d, metadata) != Ok(false) { return false; }
    ok := CheckInventory(host, d, baseline, e.presentBaseline);
    if !ok { return; }
    ok := CheckInventory(host, d, delta, e.presentDelta);
  }

  method CheckInventory(host: Host, d: Dir, specs: seq<Spec>, expected: set<Bytes>) returns (ok: bool)
    requires WellFormed(d)
    ensures ok <==> Inventory(host, d, specs, expected)
  {
    hide Verify;
    for k := 0 to |specs|
      invariant forall i :: 0 <= i < k ==> Verify(host, d, specs[i]) == Ok(specs[i].artifactId in expected)
    {
      var present := Verify(host, d, specs[k]);
      if present.Fail? || present.value != (specs[k].artifactId in expected) { return false; }
    }
    return true;
  }

  /** The artifacts whose identifiers are expected, in order. */
  function Expected(specs: seq<Spec>, present: set<Bytes>): seq<Spec> {
    if specs == [] then []
    else Expected(specs[..|specs| - 1], present)
         + (if specs[|specs| - 1].artifactId in present then [specs[|specs| - 1]] else [])
  }

  lemma {:induction false} ExpectedMembers(specs: seq<Spec>, present: set<Bytes>, s: Spec)
    ensures s in Expected(specs, present) <==> s in specs && s.artifactId in present
    decreases |specs|
  {
    if specs != [] {
      ExpectedMembers(specs[..|specs| - 1], present, s);
      assert specs == specs[..|specs| - 1] + [specs[|specs| - 1]];
    }
  }

  lemma {:induction false} ExpectedDistinct(specs: seq<Spec>, present: set<Bytes>)
    requires Distinct(IdsOf(specs))
    ensures Distinct(IdsOf(Expected(specs, present)))
    decreases |specs|
  {
    if specs != [] {
      var init, last := specs[..|specs| - 1], specs[|specs| - 1];
      var found := Expected(init, present);
      assert IdsOf(init) == IdsOf(specs)[..|init|];
      ExpectedDistinct(init, present);
      forall i | 0 <= i < |found| ensures found[i].artifactId != last.artifactId {
        ExpectedMembers(init, present, found[i]);
        var k :| 0 <= k < |init| && init[k] == found[i];
        assert IdsOf(specs)[k] == found[i].artifactId && IdsOf(specs)[|init|] == last.artifactId;
      }
      assert IdsOf(found + [last]) == IdsOf(found) + [last.artifactId];
      if last.artifactId in present { DistinctSnoc(IdsOf(found), last.artifactId); }
      assert found + [] == found;
    }
  }

  lemma {:induction false} ExpectedOrMissing(host: Host, d: Dir, specs: seq<Spec>, present: set<Bytes>)
    requires WellFormed(d) && Inventory(host, d, specs, present)
    ensures |Expected(specs, present)| + |Missing(host, d, specs)| == |specs|
    decreases |specs|
  {
    hide Verify;
    if specs != [] {
      assert Verify(host, d, specs[|specs| - 1]) == Ok(specs[|specs| - 1].artifactId in present);
      ExpectedOrMissing(host, d, specs[..|specs| - 1], present);
    }
  }

  /** A passed preflight decides what is reused: exactly the expected identifiers, and as
      many of them as the plan names. */
  lemma InventoryCounts(host: Host, d: Dir, specs: seq<Spec>, present: set<Bytes>)
    requires WellFormed(d) && Inventory(host, d, specs, present)
    requires Distinct(IdsOf(specs)) && present <= Elements(IdsOf(specs))
    ensures |specs| - |Missing(host, d, specs)| == |present|
    ensures forall s :: s in Missing(host, d, specs) <==> s in specs && s.artifactId !in present
  {
    hide Verify, Missing, Expected, Distinct, WellFormed;
    ExpectedOrMissing(host, d, specs, present);
    ExpectedDistinct(specs, present);
    var found := Expected(specs, present);
    ElementCount(IdsOf(found));
    forall id ensures id in Elements(IdsOf(found)) <==> id in present {
      if id in IdsOf(found) {
        var i :| 0 <= i < |found| && IdsOf(found)[i] == id;
        ExpectedMembers(specs, present, found[i]);
      }
      if id in present {
        var i :| 0 <= i < |specs| && IdsOf(specs)[i] == id;
        ExpectedMembers(specs, present, specs[i]);
        var j :| 0 <= j < |found| && found[j] == specs[i];
        assert IdsOf(found)[j] == id;
      }
    }
    assert Elements(IdsOf(found)) == present;
    forall s ensures s in Missing(host, d, specs) <==> s in specs && s.artifactId !in present {
      MissingMembers(host, d, specs, s);
      if s in specs { var i :| 0 <= i < |specs| && specs[i] == s; }
    }
  }

  /* ----- the index, the replay and two stages ----- */

  /** The request may start: valid and distinct artifacts, a free lock, a passed preflight. */
  predicate Admissible(host: Host, d: Dir, metadata: Spec, baseline: seq<Spec>, delta: seq<Spec>, expected: Option<Expectation>, lockFree: bool)
    requires WellFormed(d)
  {
    && UniqueSpecs([metadata]) && UniqueSpecs(baseline) && UniqueSpecs(delta)
    && Disjoint([metadata], SortSpecs(baseline)) && Disjoint([metadata], SortSpecs(delta)) && Disjoint(SortSpecs(baseline), SortSpecs(delta))
    && lockFree && (expected.Some? ==> PreflightPasses(host, d, metadata, SortSpecs(baseline), SortSpecs(delta), expected.value))
  }

  /** Order the three lists and check that the run may start. */
  method Admit(host: Host, d: Dir, metadata: Spec, baseline: seq<Spec>, delta: seq<Spec>, expected: Option<Expectation>, lockFree: bool)
    returns (ok: bool, ms: seq<Spec>, bs: seq<Spec>, ds: seq<Spec>)
    requires WellFormed(d)
    ensures ok <==> Admissible(host, d, metadata, baseline, delta, expected, lockFree)
    ensures ok ==> && ms == [metadata] && bs == SortSpecs(baseline) && ds == SortSpecs(delta)
                   && multiset(bs) == multiset(baseline) && multiset(ds) == multiset(delta)
                   && DistinctDigests(ms) && DistinctDigests(bs) && DistinctDigests(ds)
  {
    hide WellFormed, Verify, DistinctDigests, SortSpecs, Increasing, UniqueSpecs, PreflightPasses, Disjoint;
    ok, ms, bs, ds := false, [], [], [];
    SortOne(metadata);
    var one := OrderedUnique([metadata]);
    var first := OrderedUnique(baseline);
    var second := OrderedUnique(delta);
    if one.Fail? || first.Fail? || second.Fail? { return; }
    ms, bs, ds := one.value, first.value, second.value;
    var apart := Apart(ms, bs);
    if !apart { return; }
    apart := Apart(ms, ds);
    if !apart { return; }
    apart := Apart(bs, ds);
    if !apart || !lockFree { return; }
    if expected.Some? {
      ok := Preflight(host, d, metadata, bs, ds, expected.value);
    } else {
      ok := true;
    }
  }

  lemma AdmissibleParts(host: Host, d: Dir, metadata: Spec, baseline: seq<Spec>, delta: seq<Spec>, expected: Option<Expectation>, lockFree: bool)
    requires WellFormed(d) && Admissible(host, d, metadata, baseline, delta, expected, lockFree)
    ensures var bs, ds := SortSpecs(baseline), SortSpecs(delta);
      && UniqueSpecs(baseline) && UniqueSpecs(delta) && Disjoint([metadata], bs) && Disjoint([metadata], ds) && Disjoint(bs, ds)
      && (expected.Some? ==> PreflightPasses(host, d, metadata, bs, ds, expected.value))
  {
    hide WellFormed, Verify, SortSpecs, UniqueSpecs, PreflightPasses, Disjoint;
  }

  /** One index, a replay of the signed metadata over the store as it then is, the baseline
      and the delta.  Whatever happens, streams are opened in that order and each at most
      once; on success everything is verified and every tally is conserved against the
      initial store.  It succeeds exactly when the artifacts are valid and distinct, the lock
      is free, the preflight passes, the store it starts from admits all three stages, and
      the replay over the store with the index agrees. */
  method AcquireAfterReplay(store: Store, metadata: Spec, baseline: seq<Spec>, delta: seq<Spec>, world: Spec -> Attempt,
                            replay: Dir -> bool, expected: Option<Expectation>, lockFree: bool)
    returns (r: Result<Summary>, ghost trace: seq<Event>, ghost indexed: Dir)
    requires store.Valid()
    modifies store
    ensures store.Valid() && Preserves(old(store.dir), store.dir)
    ensures && Admissible(store.host, old(store.dir), metadata, baseline, delta, expected, lockFree)
            && StageAdmits(store.host, old(store.dir), [metadata], world) ==>
              && WellFormed(indexed) && Preserves(old(store.dir), indexed) && Verified(store.host, indexed, metadata)
              && Replayed(replay(indexed)) in trace
    ensures r.Ok? <==>
      && Admissible(store.host, old(store.dir), metadata, baseline, delta, expected, lockFree)
      && StageAdmits(store.host, old(store.dir), [metadata], world) && replay(indexed)
      && StageAdmits(store.host, old(store.dir), baseline, world) && StageAdmits(store.host, old(store.dir), delta, world)
    ensures Calm(store.host, old(store.dir),
                 Honest(store.host, old(store.dir)) && HonestWorld(store.host, [metadata] + baseline + delta, world),
                 old(store.history), store.history)
    ensures Honest(store.host, old(store.dir)) && HonestWorld(store.host, [metadata] + baseline + delta, world)
            ==> Honest(store.host, store.dir)
    ensures InOrder(store.host, trace, SortSpecs(baseline), SortSpecs(delta)) && OpenedOnce(trace)
    ensures r.Ok? ==> UniqueSpecs(baseline) && UniqueSpecs(delta)
    ensures r.Ok? ==> && Verified(store.host, store.dir, metadata)
                      && AllVerified(store.host, store.dir, SortSpecs(baseline))
                      && AllVerified(store.host, store.dir, SortSpecs(delta))
    ensures r.Ok? ==> && Conserves(store.host, old(store.dir), [metadata], r.value.metadata)
                      && Conserves(store.host, old(store.dir), SortSpecs(baseline), r.value.baseline)
                      && Conserves(store.host, old(store.dir), SortSpecs(delta), r.value.delta)
    ensures r.Ok? && expected.Some? ==>
      PreflightPasses(store.host, old(store.dir), metadata, SortSpecs(baseline), SortSpecs(delta), expected.value)
  {
    hide WellFormed, Preserves, Verify, Missing, Honest, DistinctDigests, Openings, Sum, Less, SortSpecs, OpenedOnce, InOrder,
         Increasing, UniqueSpecs, Digests, HonestWorld, StageEvents, PreflightPasses, ValidSpec, AllVerified, Calm, Disjoint, StageAdmits,
         Elsewhere, Admissible;
    ghost var host := store.host;
    ghost var start := store.dir;
    ghost var honest := Honest(host, start) && HonestWorld(host, [metadata] + baseline + delta, world);
    trace, indexed := [], start;
    PreservesReflexive(store.dir);
    CalmNone(host, start, honest, store.history);
    EmptyRun(host, SortSpecs(baseline), SortSpecs(delta));
    var admitted, ms, bs, ds := Admit(store.host, store.dir, metadata, baseline, delta, expected, lockFree);
    if !admitted { return Fail, trace, indexed; }
    AdmissibleParts(host, start, metadata, baseline, delta, expected, lockFree);
    NoEvents(bs);
    NoEvents(ds);
    HonestStages(host, metadata, baseline, delta, bs, ds, world);
    var ok, first; ghost var m;
    ok, first, m := AcquireStage(store, ms, world, start, honest, old(store.history));
    StageOpened(host, start, ms, m);
    trace := m + [] + [] + [];
    RunTrace(host, m, ms, [], [], bs, [], ds, start);
    if !ok { return Fail, trace, indexed; }
    indexed := store.dir;
    OneVerified(host, indexed, metadata);
    AdmitsMembers(host, start, baseline, bs, world);
    AdmitsMembers(host, start, delta, ds, world);
    LaterStage(host, start, indexed, ms, bs, world);
    LaterStage(host, start, indexed, ms, ds, world);
    var agrees := replay(store.dir);
    trace := m + [Replayed(agrees)] + [] + [];
    RunTrace(host, m, ms, [Replayed(agrees)], [], bs, [], ds, start);
    if !agrees { return Fail, trace, indexed; }
    var second; ghost var b;
    ok, second, b := AcquireStage(store, bs, world, start, honest, old(store.history));
    StageOpened(host, indexed, bs, b);
    trace := m + [Replayed(true)] + b + [];
    RunTrace(host, m, ms, [Replayed(true)], b, bs, [], ds, start);
    if !ok { return Fail, trace, indexed; }
    ghost var mid := store.dir;
    LaterStage(host, indexed, mid, bs, ds, world);
    var third; ghost var d;
    ok, third, d := AcquireStage(store, ds, world, start, honest, old(store.history));
    StageOpened(host, mid, ds, d);
    trace := m + [Replayed(true)] + b + d;
    RunTrace(host, m, ms, [Replayed(true)], b, bs, d, ds, mid);
    if !ok { return Fail, trace, indexed; }
    PreservesTransitive(indexed, mid, store.dir);
    OpeningVerified(host, indexed, store.dir, ms);
    OneVerified(host, store.dir, metadata);
    OpeningVerified(host, mid, store.dir, bs);
    return Ok(Summary(first, second, third)), trace, indexed;
  }

  lemma HonestStages(host: Host, metadata: Spec, baseline: seq<Spec>, delta: seq<Spec>, bs: seq<Spec>, ds: seq<Spec>, world: Spec -> Attempt)
    requires multiset(baseline) == multiset(bs) && multiset(delta) == multiset(ds)
    ensures HonestWorld(host, [metadata] + baseline + delta, world) ==>
      HonestWorld(host, [metadata], world) && HonestWorld(host, bs, world) && HonestWorld(host, ds, world)
  {
    hide HonestWorld;
    SameMembers(baseline, bs);
    SameMembers(delta, ds);
    var all := [metadata] + baseline + delta;
    HonestPart(host, all, [metadata], world);
    HonestPart(host, all, bs, world);
    HonestPart(host, all, ds, world);
  }

  /** After a passed preflight the reuse half of the frozen plan's final count is met by
      every successful run: the index is fetched, and exactly the planned packages are
      reused. */
  lemma FrozenReuse(host: Host, start: Dir, metadata: Spec, bs: seq<Spec>, ds: seq<Spec>, e: Expectation, summary: Summary)
    requires WellFormed(start) && PreflightPasses(host, start, metadata, bs, ds, e)
    requires Distinct(IdsOf(bs)) && e.presentBaseline <= Elements(IdsOf(bs))
    requires Distinct(IdsOf(ds)) && e.presentDelta <= Elements(IdsOf(ds))
    requires Conserves(host, start, [metadata], summary.metadata)
    requires Conserves(host, start, bs, summary.baseline) && Conserves(host, start, ds, summary.delta)
    ensures summary.metadata == Tally(1, 0, metadata.size)
    ensures summary.baseline.reused == |e.presentBaseline| && summary.delta.reused == |e.presentDelta|
    ensures forall s :: s in Missing(host, start, bs) <==> s in bs && s.artifactId !in e.presentBaseline
    ensures forall s :: s in Missing(host, start, ds) <==> s in ds && s.artifactId !in e.presentDelta
  {
    hide Verify, WellFormed, Distinct;
    assert [metadata][..0] == [];
    assert Missing(host, start, [metadata]) == [metadata];
    assert [metadata][1..] == [];
    assert Sum([metadata], SizeOf()) == metadata.size;
    InventoryCounts(host, start, bs, e.presentBaseline);
    InventoryCounts(host, start, ds, e.presentDelta);
  }

  lemma EmptyRun(host: Host, bs: seq<Spec>, ds: seq<Spec>)
    ensures InOrder(host, [], bs, ds) && OpenedOnce([])
  {
  }

  lemma SortOne(s: Spec)
    ensures SortSpecs([s]) == [s]
  {
    assert [s][1..] == [];
  }

  lemma OneVerified(host: Host, d: Dir, s: Spec)
    requires WellFormed(d) && AllVerified(host, d, [s])
    ensures Verified(host, d, s)
  {
    assert [s][0] == s;
  }
}
