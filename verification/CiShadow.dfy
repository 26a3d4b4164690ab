/** A lock that repeats an identifier: the plan is derived, and its routes miss bytes that its
    total counts. */
module CiShadow {
  import opened ByteStrings
  import opened Sorting
  import opened Folds
  import opened Cas
  import opened Acquire
  import opened AcquireRuns
  import opened CiAcquire

  lemma PlanCovers(lock: seq<Spec>, sources: Sources)
    requires Derivable(lock, sources)
    ensures Covers(LockMap(lock), PlanOf(lock, sources)) && PlanOf(lock, sources).totalBytes == Sum(lock, SizeOf())
  {
    hide LockMap, ByDigest, Distinct, Sort, SortSpecs, Sum, UniqueSpecs, FetchRows;
    var locked, rows := LockMap(lock), FetchRows(sources);
    var plan := PlanOf(lock, sources);
    SortSpecsIds(rows);
    SameMembers(rows, plan.artifacts);
    forall i | 0 <= i < |plan.artifacts| ensures Sealed(locked, plan.artifacts[i]) {
      assert plan.artifacts[i] in rows;
      var j :| 0 <= j < |rows| && rows[j] == plan.artifacts[i];
    }
    SameCoverage(rows, plan.artifacts, plan.derived.artifactId, IdsOf(sources.rust), plan.reused);
  }

  /** Four rows: one, another under the same identifier, and two under their own. */
  predicate ShadowingRows(shadow: Spec, release: Spec, index: Spec, keyring: Spec) {
    && shadow.artifactId == release.artifactId && release.artifactId != index.artifactId
    && keyring.artifactId != release.artifactId && keyring.artifactId != index.artifactId
    && release.sha256 != index.sha256 && release.sha256 != keyring.sha256
    && ValidSpec(release) && ValidSpec(index)
  }

  function ShadowLock(shadow: Spec, release: Spec, index: Spec, keyring: Spec): seq<Spec> { [shadow, release, index, keyring] }

  function ShadowSources(release: Spec, index: Spec, keyring: Spec): Sources {
    Sources([], release, index, release.sha256, release.size, keyring.artifactId, [])
  }

  lemma LockCons(x: Spec, rest: seq<Spec>, lock: seq<Spec>)
    requires lock == [x] + rest
    ensures forall id :: id in LockMap(lock) <==> id == x.artifactId || id in LockMap(rest)
    ensures forall id :: id in LockMap(rest) ==> LockMap(lock)[id] == LockMap(rest)[id]
    ensures x.artifactId !in LockMap(rest) ==> LockMap(lock)[x.artifactId] == x
    ensures Shadowed(lock) == (if x.artifactId in LockMap(rest) then [x] else []) + Shadowed(rest)
  {
    assert lock[1..] == rest;
  }

  lemma LastTwo(index: Spec, keyring: Spec)
    requires keyring.artifactId != index.artifactId
    ensures var locked := LockMap([index, keyring]);
      locked.Keys == {index.artifactId, keyring.artifactId} && locked[index.artifactId] == index && locked[keyring.artifactId] == keyring
    ensures Shadowed([index, keyring]) == []
  {
    hide LockMap, Shadowed;
    NoLock();
    LockCons(keyring, [], [keyring]);
    LockCons(index, [keyring], [index, keyring]);
  }

  lemma LockEntries(shadow: Spec, release: Spec, index: Spec, keyring: Spec)
    requires ShadowingRows(shadow, release, index, keyring)
    ensures var locked := LockMap([shadow, release, index, keyring]);
      && locked.Keys == {release.artifactId, index.artifactId, keyring.artifactId}
      && locked[release.artifactId] == release && locked[index.artifactId] == index && locked[keyring.artifactId] == keyring
    ensures Shadowed([shadow, release, index, keyring]) == [shadow]
  {
    hide ValidSpec, LockMap, Shadowed;
    LastTwo(index, keyring);
    var two, three := [index, keyring], [release, index, keyring];
    LockCons(release, two, three);
    assert release.artifactId in LockMap(three) && LockMap(three).Keys == {release.artifactId, index.artifactId, keyring.artifactId};
    LockCons(shadow, three, [shadow, release, index, keyring]);
  }

  lemma NoLock()
    ensures LockMap([]) == map[] && Shadowed([]) == []
  {
  }

  lemma ThreeIds(a: Bytes, b: Bytes, c: Bytes)
    requires a != b && a != c && b != c
    ensures Distinct([a, b, c]) && Elements([a, b, c]) == {a, b, c}
  {
  }

  lemma LockDigests(shadow: Spec, release: Spec, index: Spec, keyring: Spec)
    requires ShadowingRows(shadow, release, index, keyring)
    ensures var byDigest := ByDigest([shadow, release, index, keyring]);
      release.sha256 in byDigest && byDigest[release.sha256] == release.artifactId
  {
    hide ValidSpec;
    var one, two, three := [keyring], [index, keyring], [release, index, keyring];
    assert one[1..] == [] && two[1..] == one && three[1..] == two && [shadow, release, index, keyring][1..] == three;
    assert ByDigest(one) == map[keyring.sha256 := keyring.artifactId];
    assert ByDigest(two) == map[index.sha256 := index.artifactId] + ByDigest(one);
    assert ByDigest(three) == map[release.sha256 := release.artifactId] + ByDigest(two);
  }

  lemma RowsUnique(release: Spec, index: Spec)
    requires ValidSpec(release) && ValidSpec(index) && release.artifactId != index.artifactId && release.sha256 != index.sha256
    ensures UniqueSpecs([release, index]) && IdsOf([release, index]) == [release.artifactId, index.artifactId]
  {
    hide ValidSpec;
    var ids := IdsOf([release, index]);
    assert ids == [release.artifactId, index.artifactId];
  }

  lemma SourceIds(release: Spec, index: Spec, keyring: Spec)
    ensures var sources := ShadowSources(release, index, keyring);
      && FetchRows(sources) == [release, index]
      && IdsOf(FetchRows(sources)) + [sources.keyringId] + IdsOf(sources.rust) == [release.artifactId, index.artifactId, keyring.artifactId]
  {
    var sources := ShadowSources(release, index, keyring);
    assert FetchRows(sources) == [release, index];
    assert IdsOf([release, index]) == [release.artifactId, index.artifactId];
  }

  lemma BothSealed(locked: map<Bytes, Spec>, release: Spec, index: Spec)
    requires Sealed(locked, release) && Sealed(locked, index)
    ensures var rows := [release, index]; forall i :: 0 <= i < |rows| ==> Sealed(locked, rows[i])
  {
    hide Sealed;
  }

  lemma ShadowDerivable(shadow: Spec, release: Spec, index: Spec, keyring: Spec)
    requires ShadowingRows(shadow, release, index, keyring)
    ensures Derivable(ShadowLock(shadow, release, index, keyring), ShadowSources(release, index, keyring))
  {
    hide LockMap, ByDigest, UniqueSpecs, ValidSpec, Distinct, Elements, FetchRows, IdsOf;
    var lock, sources := ShadowLock(shadow, release, index, keyring), ShadowSources(release, index, keyring);
    LockEntries(shadow, release, index, keyring);
    LockDigests(shadow, release, index, keyring);
    RowsUnique(release, index);
    SourceIds(release, index, keyring);
    ThreeIds(release.artifactId, index.artifactId, keyring.artifactId);
    BothSealed(LockMap(lock), release, index);
  }

  /** The plan is derived, and its three routes miss the bytes of the row that a later one
      replaced, unless that row had none. */
  lemma ShadowedBytes(shadow: Spec, release: Spec, index: Spec, keyring: Spec)
    requires ShadowingRows(shadow, release, index, keyring)
    ensures var lock, sources := ShadowLock(shadow, release, index, keyring), ShadowSources(release, index, keyring);
      && Derivable(lock, sources)
      && var plan := PlanOf(lock, sources);
         Sum(plan.artifacts, SizeOf()) + plan.derived.size + Sum(plan.reused, SizeIn(LockMap(lock))) == plan.totalBytes <==> shadow.size == 0
  {
    hide LockMap, PlanOf, Covers, Derivable, ShadowingRows, Shadowed;
    var lock, sources := ShadowLock(shadow, release, index, keyring), ShadowSources(release, index, keyring);
    ShadowDerivable(shadow, release, index, keyring);
    PlanCovers(lock, sources);
    LockEntries(shadow, release, index, keyring);
    assert [shadow][1..] == [];
    assert Sum([shadow], SizeOf()) == shadow.size;
    PlanConservesBytes(lock, PlanOf(lock, sources));
  }

  function Digest(c: Byte): (d: Bytes)
    ensures |d| == 64 && forall i :: 0 <= i < 64 ==> d[i] == c
  {
    seq(64, _ => c)
  }

  const RELEASE: Spec := Spec([49], Digest(97), 2)
  const INDEX: Spec := Spec([50], Digest(98), 3)
  const KEYRING: Spec := Spec([51], Digest(99), 1)
  const SHADOW: Spec := Spec([49], Digest(100), 5)

  /** One such lock: the five bytes of the first row have no route. */
  lemma ShadowedBytesMissing()
    ensures var lock, sources := ShadowLock(SHADOW, RELEASE, INDEX, KEYRING), ShadowSources(RELEASE, INDEX, KEYRING);
      && Derivable(lock, sources)
      && var plan := PlanOf(lock, sources);
         Sum(plan.artifacts, SizeOf()) + plan.derived.size + Sum(plan.reused, SizeIn(LockMap(lock))) != plan.totalBytes
  {
    hide LockMap, PlanOf, Derivable, Sum;
    assert Digest(97)[0] != Digest(98)[0] && Digest(97)[0] != Digest(99)[0];
    ShadowedBytes(SHADOW, RELEASE, INDEX, KEYRING);
  }
}
