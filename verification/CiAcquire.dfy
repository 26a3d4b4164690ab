/** The plan that covers the lock by three routes, and the acquisition that follows it. */
module CiAcquire {
  import opened ByteStrings
  import opened Sorting
  import opened Folds
  import opened Cas
  import opened CasStore
  import opened Acquire
  import opened AcquireRuns

  /* ----- the lock ----- */

  /** The sealed artifacts by identifier; a repeated identifier keeps the later row. */
  function LockMap(lock: seq<Spec>): (m: map<Bytes, Spec>)
    ensures forall k :: k in m ==> m[k].artifactId == k && m[k] in lock
  {
    if lock == [] then map[] else map[lock[0].artifactId := lock[0]] + LockMap(lock[1..])
  }

  /** The last row with this identifier. */
  predicate LastNamed(lock: seq<Spec>, i: nat, id: Bytes) {
    i < |lock| && lock[i].artifactId == id && forall j :: i < j < |lock| ==> lock[j].artifactId != id
  }

  lemma {:induction false} LockMapExact(lock: seq<Spec>, id: Bytes)
    ensures id in LockMap(lock) <==> id in IdsOf(lock)
    ensures forall i: nat :: LastNamed(lock, i, id) ==> id in LockMap(lock) && LockMap(lock)[id] == lock[i]
    decreases |lock|
  {
    if lock != [] {
      LockMapExact(lock[1..], id);
      assert IdsOf(lock) == [lock[0].artifactId] + IdsOf(lock[1..]);
      forall i: nat | LastNamed(lock, i, id) ensures id in LockMap(lock) && LockMap(lock)[id] == lock[i] {
        if i > 0 {
          assert LastNamed(lock[1..], i - 1, id);
        } else {
          forall j | 0 <= j < |lock| - 1 ensures IdsOf(lock[1..])[j] != id { assert lock[1..][j] == lock[j + 1]; }
        }
      }
    }
  }

  /** The last row with this digest. */
  predicate LastDigest(lock: seq<Spec>, i: nat, sha256: Bytes) {
    i < |lock| && lock[i].sha256 == sha256 && forall j :: i < j < |lock| ==> lock[j].sha256 != sha256
  }

  /** Identifiers by digest; a repeated digest keeps the later row. */
  lemma {:induction false} ByDigestExact(lock: seq<Spec>, sha256: Bytes)
    ensures sha256 in ByDigest(lock) <==> sha256 in Digests(lock)
    ensures forall i: nat :: LastDigest(lock, i, sha256) ==> sha256 in ByDigest(lock) && ByDigest(lock)[sha256] == lock[i].artifactId
    decreases |lock|
  {
    if lock != [] {
      ByDigestExact(lock[1..], sha256);
      assert Digests(lock) == {lock[0].sha256} + Digests(lock[1..]) by { assert lock == [lock[0]] + lock[1..]; }
      forall i: nat | LastDigest(lock, i, sha256) ensures sha256 in ByDigest(lock) && ByDigest(lock)[sha256] == lock[i].artifactId {
        if i > 0 {
          assert LastDigest(lock[1..], i - 1, sha256);
        } else {
          forall s | s in lock[1..] ensures s.sha256 != sha256 {
            var j :| 0 <= j < |lock| - 1 && lock[1..][j] == s;
            assert lock[j + 1] == s;
          }
        }
      }
    }
  }

  /** The rows that survive in the map, and the rows a later one replaces. */
  function Kept(lock: seq<Spec>): seq<Spec> {
    if lock == [] then []
    else (if lock[0].artifactId in LockMap(lock[1..]) then [] else [lock[0]]) + Kept(lock[1..])
  }

  function Shadowed(lock: seq<Spec>): seq<Spec> {
    if lock == [] then []
    else (if lock[0].artifactId in LockMap(lock[1..]) then [lock[0]] else []) + Shadowed(lock[1..])
  }

  lemma {:induction false} KeptMembers(lock: seq<Spec>, s: Spec)
    ensures s in Kept(lock) <==> s.artifactId in LockMap(lock) && LockMap(lock)[s.artifactId] == s
    decreases |lock|
  {
    if lock != [] {
      KeptMembers(lock[1..], s);
    }
  }

  lemma {:induction false} KeptDistinct(lock: seq<Spec>)
    ensures Distinct(IdsOf(Kept(lock)))
    decreases |lock|
  {
    hide Distinct, LockMap;
    if lock == [] {
      NoneDistinct();
    } else {
      var head, rest := lock[0], Kept(lock[1..]);
      KeptDistinct(lock[1..]);
      IdsCons(head, rest);
      assert [] + rest == rest;
      if head.artifactId !in LockMap(lock[1..]) {
        forall i | 0 <= i < |rest| ensures rest[i].artifactId != head.artifactId { KeptMembers(lock[1..], rest[i]); }
        ConsDistinctIds(head.artifactId, IdsOf(rest));
      }
    }
  }

  lemma KeptIsTheMap(lock: seq<Spec>)
    ensures Distinct(IdsOf(Kept(lock))) && Elements(IdsOf(Kept(lock))) == LockMap(lock).Keys
    ensures forall s :: s in Kept(lock) ==> s.artifactId in LockMap(lock) && LockMap(lock)[s.artifactId] == s
  {
    hide Distinct, LockMap, Kept;
    var kept := Kept(lock);
    KeptDistinct(lock);
    forall s ensures s in kept <==> s.artifactId in LockMap(lock) && LockMap(lock)[s.artifactId] == s { KeptMembers(lock, s); }
    forall k | k in LockMap(lock) ensures k in IdsOf(kept) {
      var i :| 0 <= i < |kept| && kept[i] == LockMap(lock)[k];
      assert IdsOf(kept)[i] == k;
    }
    forall k | k in IdsOf(kept) ensures k in LockMap(lock) {
      var i :| 0 <= i < |kept| && IdsOf(kept)[i] == k;
      assert kept[i] in kept;
    }
  }

  lemma NoneDistinct()
    ensures Distinct(IdsOf([])) && Elements(IdsOf([])) == {}
  {
  }

  lemma ConsDistinctIds(x: Bytes, s: seq<Bytes>)
    requires Distinct(s) && x !in s
    ensures Distinct([x] + s)
  {
  }

  lemma {:induction false} KeptAndShadowed(lock: seq<Spec>)
    ensures Sum(lock, SizeOf()) == Sum(Kept(lock), SizeOf()) + Sum(Shadowed(lock), SizeOf())
    decreases |lock|
  {
    if lock != [] {
      KeptAndShadowed(lock[1..]);
      var kept, shadowed := Kept(lock[1..]), Shadowed(lock[1..]);
      assert [] + kept == kept && [] + shadowed == shadowed;
      assert ([lock[0]] + kept)[1..] == kept && ([lock[0]] + shadowed)[1..] == shadowed;
    }
  }

  lemma LockMapIds(lock: seq<Spec>, k: Bytes)
    requires k in LockMap(lock)
    ensures k in IdsOf(lock)
  {
    var i :| 0 <= i < |lock| && lock[i] == LockMap(lock)[k];
    assert IdsOf(lock)[i] == k;
  }

  lemma {:induction false} ShadowedNone(lock: seq<Spec>)
    requires Distinct(IdsOf(lock))
    ensures Shadowed(lock) == []
    decreases |lock|
  {
    hide LockMap, Distinct;
    if lock != [] {
      assert IdsOf(lock)[1..] == IdsOf(lock[1..]);
      DistinctCons(IdsOf(lock));
      ShadowedNone(lock[1..]);
      if lock[0].artifactId in LockMap(lock[1..]) { LockMapIds(lock[1..], lock[0].artifactId); }
    }
  }

  /* ----- the plan ----- */

  /** The sources the sealed documents name. */
  datatype Sources = Sources(packages: seq<Spec>, inRelease: Spec, index: Spec, bootstrapSha256: Bytes, bootstrapSize: nat,
                             keyringId: Bytes, rust: seq<Spec>)

  /** Artifacts to fetch, the one opened out of a package, and those another acquirer fetches. */
  datatype Plan = Plan(artifacts: seq<Spec>, derived: Spec, fromId: Bytes, reused: seq<Bytes>,
                       artifactCount: nat, fetchBytes: int, totalBytes: int)

  /** A source row must agree with the sealed row of the same identifier. */
  predicate Sealed(locked: map<Bytes, Spec>, row: Spec) {
    row.artifactId in locked && locked[row.artifactId] == row
  }

  function Covered(plan: Plan): seq<Bytes> { IdsOf(plan.artifacts) + [plan.derived.artifactId] + plan.reused }

  function ByDigest(lock: seq<Spec>): map<Bytes, Bytes> {
    if lock == [] then map[] else map[lock[0].sha256 := lock[0].artifactId] + ByDigest(lock[1..])
  }

  /** Every sealed artifact arrives by exactly one route. */
  predicate Covers(locked: map<Bytes, Spec>, plan: Plan) {
    && Distinct(Covered(plan)) && Elements(Covered(plan)) == locked.Keys
    && (forall i :: 0 <= i < |plan.artifacts| ==> Sealed(locked, plan.artifacts[i]))
    && Sealed(locked, plan.derived)
  }

  function FetchRows(sources: Sources): seq<Spec> { sources.packages + [sources.inRelease, sources.index] }

  /** The sealed documents agree with the lock and together name each of its artifacts once. */
  predicate Derivable(lock: seq<Spec>, sources: Sources) {
    var locked := LockMap(lock);
    var ids := IdsOf(FetchRows(sources)) + [sources.keyringId] + IdsOf(sources.rust);
    && (forall i :: 0 <= i < |FetchRows(sources)| ==> Sealed(locked, FetchRows(sources)[i]))
    && (forall i :: 0 <= i < |sources.rust| ==> Sealed(locked, sources.rust[i]))
    && UniqueSpecs(FetchRows(sources)) && sources.bootstrapSha256 in ByDigest(lock)
    && ByDigest(lock)[sources.bootstrapSha256] in locked
    && locked[ByDigest(lock)[sources.bootstrapSha256]].size == sources.bootstrapSize
    && sources.keyringId in locked && Distinct(ids) && Elements(ids) == locked.Keys
  }

  /** The plan the sealed documents derive. */
  function PlanOf(lock: seq<Spec>, sources: Sources): Plan
    requires Derivable(lock, sources)
  {
    var artifacts := SortSpecs(FetchRows(sources));
    Plan(artifacts, LockMap(lock)[sources.keyringId], ByDigest(lock)[sources.bootstrapSha256], Sort(IdsOf(sources.rust)),
         |LockMap(lock)|, Sum(artifacts, SizeOf()), Sum(lock, SizeOf()))
  }

  /** Derive the plan, exactly when it can be derived; it covers the lock exactly once, and
      its artifacts are distinct. */
  method DerivePlan(lock: seq<Spec>, sources: Sources) returns (r: Result<Plan>)
    ensures r == if Derivable(lock, sources) then Ok(PlanOf(lock, sources)) else Fail
    ensures r.Ok? ==> Covers(LockMap(lock), r.value) && DistinctDigests(r.value.artifacts)
    ensures r.Ok? ==> r.value.derived.artifactId == sources.keyringId && |r.value.reused| == |sources.rust|
    ensures r.Ok? ==> forall row :: row in FetchRows(sources) <==> row in r.value.artifacts
  {
    hide LockMap, ByDigest, Less, ValidSpec, Distinct, DistinctDigests, Sort, SortSpecs, Sum, Increasing, UniqueSpecs;
    var locked := LockMap(lock);
    var rows := sources.packages + [sources.inRelease, sources.index];
    var agreed := AllSealed(locked, rows);
    if !agreed { return Fail; }
    var ordered := OrderedUnique(rows);
    if ordered.Fail? { return Fail; }
    var artifacts := ordered.value;
    SameMembers(rows, artifacts);
    forall i | 0 <= i < |artifacts| ensures Sealed(locked, artifacts[i]) { assert artifacts[i] in rows; }
    var byDigest := ByDigest(lock);
    if sources.bootstrapSha256 !in byDigest { return Fail; }
    var fromId := byDigest[sources.bootstrapSha256];
    if fromId !in locked || locked[fromId].size != sources.bootstrapSize { return Fail; }
    if sources.keyringId !in locked { return Fail; }
    var derived := locked[sources.keyringId];
    agreed := AllSealed(locked, sources.rust);
    if !agreed { return Fail; }
    var reused := Sort(IdsOf(sources.rust));
    SortElements(IdsOf(sources.rust));
    SameCoverage(rows, artifacts, derived.artifactId, IdsOf(sources.rust), reused);
    var covered := IdsOf(artifacts) + [derived.artifactId] + reused;
    ElementCount(covered);
    if Elements(covered) != locked.Keys || |covered| != |Elements(covered)| { return Fail; }
    var fetchBytes := TotalSize(artifacts);
    var totalBytes := TotalSize(lock);
    return Ok(Plan(artifacts, derived, fromId, reused, |locked|, fetchBytes, totalBytes));
  }

  method AllSealed(locked: map<Bytes, Spec>, rows: seq<Spec>) returns (ok: bool)
    ensures ok <==> forall i :: 0 <= i < |rows| ==> Sealed(locked, rows[i])
  {
    ok := true;
    for k := 0 to |rows|
      invariant ok <==> forall i :: 0 <= i < k ==> Sealed(locked, rows[i])
    {
      if !Sealed(locked, rows[k]) { ok := false; }
    }
  }

  lemma SortElements(s: seq<Bytes>)
    ensures Elements(Sort(s)) == Elements(s) && |Sort(s)| == |s|
  {
    hide Sort;
    SortSorts(s);
    forall x ensures x in Sort(s) <==> x in s { assert x in multiset(Sort(s)) <==> x in multiset(s); }
  }

  lemma SameCoverage(rows: seq<Spec>, artifacts: seq<Spec>, keyring: Bytes, rust: seq<Bytes>, reused: seq<Bytes>)
    requires artifacts == SortSpecs(rows) && reused == Sort(rust)
    ensures var a, b := IdsOf(rows) + [keyring] + rust, IdsOf(artifacts) + [keyring] + reused;
      Elements(a) == Elements(b) && (Distinct(a) <==> Distinct(b))
  {
    hide Sort, Distinct, SortSpecs;
    var a, b := IdsOf(rows) + [keyring] + rust, IdsOf(artifacts) + [keyring] + reused;
    SortSorts(rust);
    SortSpecsIds(rows);
    SortSorts(IdsOf(rows));
    assert multiset(a) == multiset(IdsOf(rows)) + multiset{keyring} + multiset(rust);
    assert multiset(b) == multiset(IdsOf(artifacts)) + multiset{keyring} + multiset(reused);
    forall x ensures x in a <==> x in b { assert x in multiset(a) <==> x in multiset(b); }
    if Distinct(a) { PermutedDistinct(a, b); }
    if Distinct(b) { PermutedDistinct(b, a); }
  }

  method TotalSize(specs: seq<Spec>) returns (total: int)
    ensures total == Sum(specs, SizeOf())
  {
    total := 0;
    for k := 0 to |specs|
      invariant total == Sum(specs[..k], SizeOf())
    {
      SumSnoc(specs[..k], specs[k], SizeOf());
      assert specs[..k + 1] == specs[..k] + [specs[k]];
      total := total + specs[k].size;
    }
    assert specs[..|specs|] == specs;
  }

  /* ----- the plan accounts for the lock ----- */

  function SizeIn(locked: map<Bytes, Spec>): Bytes -> int { id => if id in locked then locked[id].size else 0 }

  /** By identifier, the three routes add up to the surviving rows of the lock. */
  lemma CoveredBytes(lock: seq<Spec>, plan: Plan)
    requires Covers(LockMap(lock), plan)
    ensures Sum(Covered(plan), SizeIn(LockMap(lock))) == Sum(Kept(lock), SizeOf())
  {
    hide LockMap, Kept, Sum, Distinct, Covered;
    var locked, kept := LockMap(lock), Kept(lock);
    KeptIsTheMap(lock);
    forall x ensures x in Covered(plan) <==> x in IdsOf(kept) {
      assert x in Elements(Covered(plan)) <==> x in Elements(IdsOf(kept));
    }
    SameElements(Covered(plan), IdsOf(kept));
    SumPermutation(Covered(plan), IdsOf(kept), SizeIn(locked));
    SumByIds(locked, kept);
  }

  lemma {:induction false} SumByIds(locked: map<Bytes, Spec>, specs: seq<Spec>)
    requires forall s :: s in specs ==> s.artifactId in locked && locked[s.artifactId] == s
    ensures Sum(IdsOf(specs), SizeIn(locked)) == Sum(specs, SizeOf())
    decreases |specs|
  {
    if specs != [] {
      SumByIds(locked, specs[1..]);
      assert IdsOf(specs)[1..] == IdsOf(specs[1..]);
      assert specs[0] in specs;
    }
  }

  /** Fetched, derived and reused sizes add up to the plan's total exactly when no row of
      the lock that a later row replaces carries bytes; in particular whenever the lock's
      identifiers are unique. */
  lemma PlanConservesBytes(lock: seq<Spec>, plan: Plan)
    requires Covers(LockMap(lock), plan) && plan.totalBytes == Sum(lock, SizeOf())
    ensures var locked := LockMap(lock);
      Sum(plan.artifacts, SizeOf()) + plan.derived.size + Sum(plan.reused, SizeIn(locked)) == plan.totalBytes <==>
      Sum(Shadowed(lock), SizeOf()) == 0
    ensures Distinct(IdsOf(lock)) ==> Sum(Shadowed(lock), SizeOf()) == 0
  {
    hide LockMap, Kept, Shadowed, Distinct;
    var locked := LockMap(lock);
    CoveredBytes(lock, plan);
    KeptAndShadowed(lock);
    var f := SizeIn(locked);
    SumConcat(IdsOf(plan.artifacts) + [plan.derived.artifactId], plan.reused, f);
    SumSnoc(IdsOf(plan.artifacts), plan.derived.artifactId, f);
    forall s | s in plan.artifacts ensures s.artifactId in locked && locked[s.artifactId] == s {
      var i :| 0 <= i < |plan.artifacts| && plan.artifacts[i] == s;
      assert Sealed(locked, plan.artifacts[i]);
    }
    SumByIds(locked, plan.artifacts);
    if Distinct(IdsOf(lock)) { ShadowedNone(lock); }
  }

  /* ----- carrying it out ----- */

  predicate AllLocked(host: Host, d: Dir, locked: map<Bytes, Spec>)
    requires WellFormed(d)
  {
    forall id :: id in locked ==> Verified(host, d, locked[id])
  }

  /** The artifacts another acquirer should have fetched first. */
  method RequireReused(store: Store, locked: map<Bytes, Spec>, reused: seq<Bytes>) returns (ok: bool)
    requires store.Valid() && forall i :: 0 <= i < |reused| ==> reused[i] in locked
    ensures ok <==> forall i :: 0 <= i < |reused| ==> Verified(store.host, store.dir, locked[reused[i]])
  {
    hide WellFormed, Verify;
    ok := true;
    for k := 0 to |reused|
      invariant ok <==> forall i :: 0 <= i < k ==> Verified(store.host, store.dir, locked[reused[i]])
    {
      if Verify(store.host, store.dir, locked[reused[k]]) != Ok(true) { ok := false; }
    }
  }

  function Find(specs: seq<Spec>, id: Bytes): Option<Spec> {
    if specs == [] then None else if specs[0].artifactId == id then Some(specs[0]) else Find(specs[1..], id)
  }

  /** The first artifact of the plan with this identifier. */
  method PlanSource(artifacts: seq<Spec>, id: Bytes) returns (r: Option<Spec>)
    ensures r == Find(artifacts, id)
    ensures r.Some? <==> exists i :: 0 <= i < |artifacts| && artifacts[i].artifactId == id
    ensures r.Some? ==> exists i :: 0 <= i < |artifacts| && artifacts[i] == r.value && r.value.artifactId == id
                                   && forall j :: 0 <= j < i ==> artifacts[j].artifactId != id
  {
    assert artifacts[0..] == artifacts;
    for i := 0 to |artifacts|
      invariant forall j :: 0 <= j < i ==> artifacts[j].artifactId != id
      invariant Find(artifacts, id) == Find(artifacts[i..], id)
    {
      assert artifacts[i..][1..] == artifacts[i + 1..];
      if artifacts[i].artifactId == id { return Some(artifacts[i]); }
    }
    return None;
  }

  predicate Reproduces(host: Host, spec: Spec, raw: Bytes) { host.hash(raw) == spec.sha256 && |raw| == spec.size }

  /** Put bytes that reproduce the sealed digest and size into the store. */
  method PublishBytes(store: Store, spec: Spec, raw: Bytes, a: Attempt) returns (ok: bool)
    requires store.Valid()
    modifies store
    ensures store.Valid() && Preserves(old(store.dir), store.dir)
    ensures ok <==> Reproduces(store.host, spec, raw) && Admits(store.host, old(store.dir), spec, a.(chunks := [Data(raw)]))
    ensures ok ==> Verified(store.host, store.dir, spec) && Reproduces(store.host, spec, raw)
    ensures Reproduces(store.host, spec, raw) && Verified(store.host, old(store.dir), spec) ==> ok && store.dir == old(store.dir)
    ensures !Reproduces(store.host, spec, raw) ==> !ok && store.dir == old(store.dir)
    ensures Calm(store.host, old(store.dir), Honest(store.host, old(store.dir)) && HonestRival(store.host, spec.sha256, a.rival),
                 old(store.history), store.history)
    ensures Honest(store.host, old(store.dir)) && HonestRival(store.host, spec.sha256, a.rival) ==> Honest(store.host, store.dir)
  {
    hide WellFormed, Verify, Preserves, Adds, Honest, HonestRival, Calm, Succeeds;
    PreservesReflexive(store.dir);
    CalmNone(store.host, store.dir, Honest(store.host, store.dir) && HonestRival(store.host, spec.sha256, a.rival), store.history);
    if store.host.hash(raw) != spec.sha256 || |raw| != spec.size { return false; }
    var found := Verify(store.host, store.dir, spec);
    if found.Fail? { return false; }
    if found.value { return true; }
    ok := StoreOne(store, spec, a.(chunks := [Data(raw)]));
  }

  datatype Outcome = Outcome(fetched: nat, reused: nat, derived: nat, fetchedBytes: int)

  /** The package the keyring comes out of is in the store and opens to the sealed keyring. */
  predicate KeyringOpens(host: Host, d: Dir, lock: seq<Spec>, sources: Sources, extract: Bytes -> Result<Bytes>)
    requires WellFormed(d) && Derivable(lock, sources)
  {
    var source := Find(SortSpecs(FetchRows(sources)), ByDigest(lock)[sources.bootstrapSha256]);
    && source.Some? && source.value.sha256 in Visible(d)
    && var raw := extract(Visible(d)[source.value.sha256].content);
       raw.Ok? && Reproduces(host, LockMap(lock)[sources.keyringId], raw.value)
  }

  /** Whoever else publishes an artifact of the plan publishes bytes of its digest. */
  ghost predicate HonestSources(host: Host, plan: Plan, world: Spec -> Attempt) {
    HonestWorld(host, plan.artifacts, world) && HonestRival(host, plan.derived.sha256, world(plan.derived).rival)
  }

  /** A plan is used only if it equals the one derived anew from the lock and its sources. */
  method LoadPlan(committed: Plan, lock: seq<Spec>, sources: Sources) returns (r: Result<Plan>)
    ensures r == if Derivable(lock, sources) && committed == PlanOf(lock, sources) then Ok(committed) else Fail
    ensures r.Ok? ==> Covers(LockMap(lock), committed) && DistinctDigests(committed.artifacts)
  {
    hide Derivable, PlanOf, Covers, LockMap, DistinctDigests, FetchRows;
    var derived := DerivePlan(lock, sources);
    if derived.Fail? || derived.value != committed { return Fail; }
    return Ok(committed);
  }

  /** What `LoadPlan` accepts. */
  predicate Committed(committed: Plan, lock: seq<Spec>, sources: Sources) {
    Derivable(lock, sources) && committed == PlanOf(lock, sources)
  }

  /** Acquire the whole closure.  On success every sealed artifact is in the store at its
      sealed digest and size, the three counts add up to the lock, and what was fetched is
      what was missing.  With everything already there it succeeds and changes nothing.
      However it ends, every state on the way was calm.  It succeeds exactly when the plan is
      the committed one, the reused artifacts are there, the store admits the others, and the
      keyring opens out of the store they leave and is admitted by it. */
  method AcquireClosure(store: Store, committed: Plan, lock: seq<Spec>, sources: Sources, world: Spec -> Attempt,
                        extract: Bytes -> Result<Bytes>)
    returns (r: Result<Outcome>, ghost mid: Dir)
    requires store.Valid()
    modifies store
    ensures store.Valid() && Preserves(old(store.dir), store.dir)
    ensures Fetchable(store.host, old(store.dir), committed, lock, sources, world) ==>
      WellFormed(mid) && Preserves(old(store.dir), mid) && AllVerified(store.host, mid, committed.artifacts)
    ensures r.Ok? <==>
      Fetchable(store.host, old(store.dir), committed, lock, sources, world) && WellFormed(mid) && Derives(store.host, mid, committed, world, extract)
    ensures Calm(store.host, old(store.dir), Honest(store.host, old(store.dir)) && HonestSources(store.host, committed, world),
                 old(store.history), store.history)
    ensures r.Ok? ==> AllLocked(store.host, store.dir, LockMap(lock))
    ensures r.Ok? ==> Committed(committed, lock, sources) && r.value.fetched + r.value.reused + r.value.derived == |LockMap(lock)|
    ensures r.Ok? ==> var missing := Missing(store.host, old(store.dir), SortSpecs(FetchRows(sources)));
      r.value.fetched == |missing| && r.value.fetchedBytes == Sum(missing, SizeOf()) && r.value.derived == 1
    ensures !Committed(committed, lock, sources) ==> r.Fail? && store.dir == old(store.dir)
    ensures && Committed(committed, lock, sources) && AllLocked(store.host, old(store.dir), LockMap(lock))
            && KeyringOpens(store.host, old(store.dir), lock, sources, extract)
            ==> r.Ok? && r.value.fetched == 0 && store.dir == old(store.dir)
  {
    hide WellFormed, Verify, Preserves, Honest, LockMap, Missing, Sum, Distinct, DistinctDigests, Openings, HonestWorld, Find, Covers,
         Derivable, SortSpecs, FetchRows, ByDigest, Visible, KeyringOpens, Reproduces, AllLocked, PlanOf, HonestRival, Calm, KeyringReady,
         StageAdmits, Derives, Elsewhere;
    PreservesReflexive(store.dir);
    ghost var start := store.dir;
    mid := start;
    ghost var host, honest := store.host, Honest(store.host, start) && HonestSources(store.host, committed, world);
    CalmNone(host, start, honest, store.history);
    var planned := LoadPlan(committed, lock, sources);
    if planned.Fail? { return Fail, mid; }
    var plan, locked := planned.value, LockMap(lock);
    PlanParts(lock, sources);
    PlanIds(locked, plan);
    ghost var settled := AllLocked(host, start, locked) && KeyringOpens(host, start, lock, sources, extract);
    if settled { AllThere(host, start, lock, sources, plan, extract); }
    var present := RequireReused(store, locked, plan.reused);
    if !present { return Fail, mid; }
    var ok, tally; ghost var events;
    ok, tally, events := AcquireStage(store, plan.artifacts, world, start, honest, old(store.history));
    if !ok { return Fail, mid; }
    mid := store.dir;
    ReusedPersist(host, start, mid, locked, plan.reused);
    var published := DeriveKeyring(store, plan, world, extract, start, honest, old(store.history));
    if !published { return Fail, mid; }
    ReusedPersist(host, mid, store.dir, locked, plan.reused);
    OpeningVerified(host, mid, store.dir, plan.artifacts);
    CoveredVerified(host, store.dir, locked, plan);
    return Ok(Outcome(tally.fetched, tally.reused + |plan.reused|, 1, tally.fetchedBytes)), mid;
  }

  /** The plan is the committed one, what it reuses is there and what it fetches is admitted. */
  predicate Fetchable(host: Host, d: Dir, committed: Plan, lock: seq<Spec>, sources: Sources, world: Spec -> Attempt)
    requires WellFormed(d)
  {
    && Committed(committed, lock, sources)
    && (forall i :: 0 <= i < |committed.reused| ==> committed.reused[i] in LockMap(lock) && Verified(host, d, LockMap(lock)[committed.reused[i]]))
    && StageAdmits(host, d, committed.artifacts, world)
  }

  /** The keyring opens out of its package and can be published. */
  predicate Derives(host: Host, d: Dir, plan: Plan, world: Spec -> Attempt, extract: Bytes -> Result<Bytes>)
    requires WellFormed(d)
  {
    && KeyringReady(host, d, plan, extract)
    && var raw := extract(Visible(d)[Find(plan.artifacts, plan.fromId).value.sha256].content).value;
       Admits(host, d, plan.derived, world(plan.derived).(chunks := [Data(raw)]))
  }

  /** The package is there, still hashes to its name, and opens to the sealed keyring. */
  predicate KeyringReady(host: Host, d: Dir, plan: Plan, extract: Bytes -> Result<Bytes>)
    requires WellFormed(d)
  {
    var source := Find(plan.artifacts, plan.fromId);
    && source.Some? && source.value.sha256 in Visible(d) && host.hash(Visible(d)[source.value.sha256].content) == source.value.sha256
    && var raw := extract(Visible(d)[source.value.sha256].content); raw.Ok? && Reproduces(host, plan.derived, raw.value)
  }

  /** Open the keyring out of its package and publish it. */
  method DeriveKeyring(store: Store, plan: Plan, world: Spec -> Attempt, extract: Bytes -> Result<Bytes>,
                       ghost start: Dir, ghost honest: bool, ghost h0: seq<Dir>) returns (ok: bool)
    requires store.Valid() && Preserves(start, store.dir) && Calm(store.host, start, honest, h0, store.history)
    requires honest ==> Honest(store.host, store.dir) && HonestRival(store.host, plan.derived.sha256, world(plan.derived).rival)
    modifies store
    ensures store.Valid() && Preserves(old(store.dir), store.dir) && Preserves(start, store.dir)
    ensures Calm(store.host, start, honest, h0, store.history)
    ensures ok <==> Derives(store.host, old(store.dir), plan, world, extract)
    ensures ok ==> Verified(store.host, store.dir, plan.derived)
    ensures KeyringReady(store.host, old(store.dir), plan, extract) && Verified(store.host, old(store.dir), plan.derived)
            ==> ok && store.dir == old(store.dir)
  {
    hide WellFormed, Verify, Preserves, Honest, HonestRival, Calm, Visible, Find, Reproduces, Admits;
    ghost var mid, h1 := store.dir, store.history;
    PreservesReflexive(store.dir);
    var source := PlanSource(plan.artifacts, plan.fromId);
    if source.None? { return false; }
    var package := ReadObject(store, source.value);
    if package.Fail? { return false; }
    var raw := extract(package.value);
    if raw.Fail? { return false; }
    ok := PublishBytes(store, plan.derived, raw.value, world(plan.derived));
    CalmThen(store.host, start, honest, h0, mid,
             Honest(store.host, mid) && HonestRival(store.host, plan.derived.sha256, world(plan.derived).rival), h1, store.history);
    PreservesTransitive(start, mid, store.dir);
  }

  lemma PlanParts(lock: seq<Spec>, sources: Sources)
    requires Derivable(lock, sources)
    ensures var plan := PlanOf(lock, sources);
      && plan.artifacts == SortSpecs(FetchRows(sources)) && sources.keyringId in LockMap(lock) && plan.derived == LockMap(lock)[sources.keyringId]
      && sources.bootstrapSha256 in ByDigest(lock) && plan.fromId == ByDigest(lock)[sources.bootstrapSha256]
  {
    hide SortSpecs, FetchRows, LockMap, ByDigest, UniqueSpecs, Distinct, Sum;
  }

  /** An object's bytes, checked against the name once more. */
  method ReadObject(store: Store, spec: Spec) returns (r: Result<Bytes>)
    requires store.Valid()
    ensures r.Ok? <==> var seen := Visible(store.dir); spec.sha256 in seen && store.host.hash(seen[spec.sha256].content) == spec.sha256
    ensures r.Ok? ==> r.value == Visible(store.dir)[spec.sha256].content
  {
    hide Visible;
    VisibleObject(store.dir, spec.sha256);
    if Object(spec.sha256) !in store.dir.names { return Fail; }
    var content := store.dir.inodes[store.dir.names[Object(spec.sha256)]].content;
    if store.host.hash(content) != spec.sha256 { return Fail; }
    return Ok(content);
  }

  /** In a store that holds the whole lock every step of the plan finds what it needs. */
  lemma AllThere(host: Host, d: Dir, lock: seq<Spec>, sources: Sources, plan: Plan, extract: Bytes -> Result<Bytes>)
    requires WellFormed(d) && Derivable(lock, sources) && Covers(LockMap(lock), plan)
    requires plan.artifacts == SortSpecs(FetchRows(sources)) && plan.fromId == ByDigest(lock)[sources.bootstrapSha256]
    requires plan.derived == LockMap(lock)[sources.keyringId] && forall i :: 0 <= i < |plan.reused| ==> plan.reused[i] in LockMap(lock)
    requires AllLocked(host, d, LockMap(lock)) && KeyringOpens(host, d, lock, sources, extract)
    ensures AllVerified(host, d, plan.artifacts) && Verified(host, d, plan.derived) && Missing(host, d, plan.artifacts) == []
    ensures forall i :: 0 <= i < |plan.reused| ==> Verified(host, d, LockMap(lock)[plan.reused[i]])
    ensures KeyringReady(host, d, plan, extract)
  {
    hide WellFormed, LockMap, Verify, Missing, Distinct, Derivable, SortSpecs, FetchRows, ByDigest, Visible, Reproduces;
    forall i | 0 <= i < |plan.artifacts| ensures Verified(host, d, plan.artifacts[i]) {
      assert Sealed(LockMap(lock), plan.artifacts[i]);
    }
    NothingMissing(host, d, plan.artifacts);
    var source := Find(plan.artifacts, plan.fromId);
    FoundIn(plan.artifacts, plan.fromId);
    VerifiedContent(host, d, source.value);
  }

  lemma {:induction false} FoundIn(specs: seq<Spec>, id: Bytes)
    ensures Find(specs, id).Some? ==> Find(specs, id).value in specs
    decreases |specs|
  {
    if specs != [] { FoundIn(specs[1..], id); }
  }

  lemma VerifiedContent(host: Host, d: Dir, spec: Spec)
    requires WellFormed(d) && Verified(host, d, spec)
    ensures spec.sha256 in Visible(d) && host.hash(Visible(d)[spec.sha256].content) == spec.sha256
  {
    VisibleObject(d, spec.sha256);
  }

  lemma PlanIds(locked: map<Bytes, Spec>, plan: Plan)
    requires Covers(locked, plan)
    ensures forall i :: 0 <= i < |plan.reused| ==> plan.reused[i] in locked
    ensures |plan.artifacts| + 1 + |plan.reused| == |locked|
  {
    hide Covered, Distinct, Sealed;
    CoveredParts(plan);
    forall i | 0 <= i < |plan.reused| ensures plan.reused[i] in locked { assert plan.reused[i] in Elements(Covered(plan)); }
    ElementCount(Covered(plan));
    assert |locked| == |locked.Keys|;
  }

  lemma CoveredParts(plan: Plan)
    ensures |Covered(plan)| == |plan.artifacts| + 1 + |plan.reused|
    ensures forall i :: 0 <= i < |plan.reused| ==> plan.reused[i] in Covered(plan)
  {
    forall i | 0 <= i < |plan.reused| ensures plan.reused[i] in Covered(plan) {
      assert Covered(plan)[|plan.artifacts| + 1 + i] == plan.reused[i];
    }
  }

  lemma ReusedPersist(host: Host, a: Dir, b: Dir, locked: map<Bytes, Spec>, reused: seq<Bytes>)
    requires WellFormed(a) && WellFormed(b) && Preserves(a, b)
    requires forall i :: 0 <= i < |reused| ==> reused[i] in locked && Verified(host, a, locked[reused[i]])
    ensures forall i :: 0 <= i < |reused| ==> Verified(host, b, locked[reused[i]])
  {
    hide WellFormed, Verify, Preserves;
    forall i | 0 <= i < |reused| ensures Verified(host, b, locked[reused[i]]) {
      VerifiedPersists(host, a, b, locked[reused[i]]);
    }
  }

  lemma CoveredVerified(host: Host, d: Dir, locked: map<Bytes, Spec>, plan: Plan)
    requires WellFormed(d) && Covers(locked, plan) && AllVerified(host, d, plan.artifacts) && Verified(host, d, plan.derived)
    requires forall i :: 0 <= i < |plan.reused| ==> plan.reused[i] in locked && Verified(host, d, locked[plan.reused[i]])
    ensures AllLocked(host, d, locked)
  {
    hide WellFormed, Verify, Distinct;
    forall id | id in locked ensures Verified(host, d, locked[id]) {
      assert id in Elements(Covered(plan));
      var i :| 0 <= i < |Covered(plan)| && Covered(plan)[i] == id;
      var n := |plan.artifacts|;
      if i < n {
        assert IdsOf(plan.artifacts)[i] == id;
        assert Sealed(locked, plan.artifacts[i]) && Verified(host, d, plan.artifacts[i]);
      } else if i > n {
        assert plan.reused[i - n - 1] == id;
      }
    }
  }
}
