/** The resolver's result does not depend on the order of work, on the order of the index
    rows, or on index rows it did not select. */
module ResolverLaws {
  import opened ByteStrings
  import opened Sorting
  import opened Folds
  import opened Resolver
  import opened ResolverRun

  /* ----- the outcome is determined by the index and the seeds ----- */

  lemma SelectedDetermined(ix: Index, a: Closure, b: Closure, k: Bytes)
    requires RecordsChoices(ix, a.selected) && RecordsChoices(ix, b.selected)
    requires Packages(a) == Packages(b) && k in a.selected
    ensures k in b.selected && b.selected[k] == a.selected[k]
  {
    hide Choices, Recorded;
    assert a.selected[k].package in Packages(b);
    var j :| j in b.selected && b.selected[j].package == a.selected[k].package;
  }

  /** Any two outcomes that resolving may return are the same outcome. */
  lemma OutcomeUnique(ix: Index, seeds: seq<Bytes>, r: Result<Closure>, s: Result<Closure>)
    requires Resolves(ix, seeds, r) && Resolves(ix, seeds, s)
    ensures r == s
  {
    hide Choices, Closed, UsedPins, Accepted, SeedPackages, Sort, Packages, RecordsChoices, SeedsResolve;
    if r.Ok? && s.Ok? {
      assert Packages(r.value) == Packages(s.value);
      forall k | k in r.value.selected ensures k in s.value.selected && s.value.selected[k] == r.value.selected[k] {
        SelectedDetermined(ix, r.value, s.value, k);
      }
      forall k | k in s.value.selected ensures k in r.value.selected {
        SelectedDetermined(ix, s.value, r.value, k);
      }
      assert r.value.selected == s.value.selected;
    }
  }

  /** Two runs that take the pending packages in different orders return the same. */
  method TwoSchedules(ix: Index, seeds: seq<Bytes>, first: nat -> nat, second: nat -> nat)
    returns (r: Result<Closure>, s: Result<Closure>)
    ensures r == s && Resolves(ix, seeds, r)
  {
    hide Resolves;
    r := ResolveClosure(ix, seeds, first);
    s := ResolveClosure(ix, seeds, second);
    OutcomeUnique(ix, seeds, r, s);
  }

  /* ----- pools by their members ----- */

  lemma {:induction false} SelectionsDistinct(ix: Index, alt: Alternative, cs: seq<Package>, name: Bytes)
    requires Distinct(cs)
    ensures Distinct(Matching(ix, alt, cs)) && Distinct(Named(cs, name))
    decreases |cs|
  {
    hide Distinct, Matches;
    if cs == [] {
      EmptyDistinct<Package>();
    } else {
      var c, rest := cs[0], cs[1..];
      DistinctCons(cs);
      SelectionsDistinct(ix, alt, rest, name);
      MatchingMembers(ix, alt, rest, c);
      NamedMembers(rest, name, c);
      ConsDistinct(c, Matching(ix, alt, rest));
      ConsDistinct(c, Named(rest, name));
      assert [] + Matching(ix, alt, rest) == Matching(ix, alt, rest);
      assert [] + Named(rest, name) == Named(rest, name);
    }
  }

  lemma EmptyDistinct<T>()
    ensures Distinct<T>([])
  {
  }

  lemma ConsDistinct<T>(x: T, s: seq<T>)
    requires Distinct(s)
    ensures x !in s ==> Distinct([x] + s)
  {
    hide Distinct;
    DistinctCons([x] + s);
    assert ([x] + s)[1..] == s;
  }

  lemma PoolDistinct(ix: Index, alt: Alternative)
    requires Distinct(ix.candidates)
    ensures Distinct(Pool(ix, alt))
  {
    hide Distinct, Matching, Named;
    SelectionsDistinct(ix, alt, ix.candidates, alt.name);
    SelectionsDistinct(ix, alt, Matching(ix, alt, ix.candidates), alt.name);
  }

  lemma NamedDistinct(cs: seq<Package>, name: Bytes)
    requires Distinct(cs)
    ensures Distinct(Named(cs, name))
  {
    SelectionsDistinct(Index([], map[], (a, o, b) => Fail), Alternative([], Unqualified, Unconstrained, Unrestricted), cs, name);
  }

  /** A package is in the pool if it matches and either is the named package or no match is. */
  predicate DirectMatch(ix: Index, alt: Alternative) {
    exists c :: c in ix.candidates && Matches(ix, alt, c) == Ok(true) && c.name == alt.name
  }

  lemma PoolMembers(ix: Index, alt: Alternative, c: Package)
    ensures c in Pool(ix, alt) <==>
      c in ix.candidates && Matches(ix, alt, c) == Ok(true) && (DirectMatch(ix, alt) ==> c.name == alt.name)
  {
    hide Matches, Matching, Named;
    var matching := Matching(ix, alt, ix.candidates);
    var direct := Named(matching, alt.name);
    MatchingMembers(ix, alt, ix.candidates, c);
    NamedMembers(matching, alt.name, c);
    if direct != [] {
      NamedMembers(matching, alt.name, direct[0]);
      MatchingMembers(ix, alt, ix.candidates, direct[0]);
      assert direct[0] in direct;
    }
    if DirectMatch(ix, alt) {
      var d :| d in ix.candidates && Matches(ix, alt, d) == Ok(true) && d.name == alt.name;
      MatchingMembers(ix, alt, ix.candidates, d);
      NamedMembers(matching, alt.name, d);
    }
  }

  lemma Singleton<T>(s: seq<T>, x: T)
    requires Distinct(s) && x in s && forall y :: y in s ==> y == x
    ensures s == [x]
  {
    hide Distinct;
    ElementCount(s);
    assert Elements(s) == {x};
    assert s[0] in s;
  }

  /* ----- the order of the index rows ----- */

  ghost predicate SameRules(ix: Index, jx: Index) { ix.pins == jx.pins && ix.satisfies == jx.satisfies }

  ghost predicate Reordered(ix: Index, jx: Index) {
    SameRules(ix, jx) && multiset(ix.candidates) == multiset(jx.candidates)
  }

  lemma ReorderedMembers(ix: Index, jx: Index)
    requires Reordered(ix, jx)
    ensures forall c :: c in ix.candidates <==> c in jx.candidates
    ensures |ix.candidates| == |jx.candidates|
  {
    forall c ensures c in ix.candidates <==> c in jx.candidates {
      assert c in multiset(ix.candidates) <==> c in multiset(jx.candidates);
    }
    assert |ix.candidates| == |multiset(ix.candidates)| == |multiset(jx.candidates)| == |jx.candidates|;
  }

  lemma IdsDistinct(ps: seq<Package>)
    requires DistinctIds(ps)
    ensures Distinct(ps)
  {
  }

  lemma ReorderedIds(ix: Index, jx: Index)
    requires Reordered(ix, jx) && DistinctIds(ix.candidates)
    ensures DistinctIds(jx.candidates) && Distinct(ix.candidates) && Distinct(jx.candidates)
  {
    ReorderedMembers(ix, jx);
    IdsDistinct(ix.candidates);
    ElementCount(ix.candidates);
    ElementCount(jx.candidates);
    assert Elements(ix.candidates) == Elements(jx.candidates);
    forall i, j | 0 <= i < j < |jx.candidates| ensures jx.candidates[i].id != jx.candidates[j].id {
      if jx.candidates[i].id == jx.candidates[j].id {
        SameIdSamePackage(ix.candidates, jx.candidates[i], jx.candidates[j]);
      }
    }
  }

  lemma PickReordered(ix: Index, jx: Index, alt: Alternative)
    requires Reordered(ix, jx) && DistinctIds(ix.candidates)
    ensures PickFrom(ix, alt) == PickFrom(jx, alt)
  {
    hide Matches, Pool, Named, Distinct, DistinctIds;
    ReorderedMembers(ix, jx);
    ReorderedIds(ix, jx);
    assert forall c :: Matches(ix, alt, c) == Matches(jx, alt, c) by { SameMatches(ix, jx, alt); }
    var a, b := Pool(ix, alt), Pool(jx, alt);
    forall c ensures c in a <==> c in b {
      PoolMembers(ix, alt, c);
      PoolMembers(jx, alt, c);
    }
    PoolDistinct(ix, alt);
    PoolDistinct(jx, alt);
    SameElements(a, b);
    if |a| == 1 { assert b[0] in a; }
    if |a| > 1 && alt.name in ix.pins {
      var pin := ix.pins[alt.name];
      NamedDistinct(a, pin);
      NamedDistinct(b, pin);
      forall c ensures c in Named(a, pin) <==> c in Named(b, pin) {
        NamedMembers(a, pin, c);
        NamedMembers(b, pin, c);
      }
      SameElements(Named(a, pin), Named(b, pin));
      if |Named(a, pin)| == 1 { assert Named(b, pin)[0] in Named(a, pin); }
    }
  }

  lemma SameMatches(ix: Index, jx: Index, alt: Alternative)
    requires SameRules(ix, jx)
    ensures forall c :: Matches(ix, alt, c) == Matches(jx, alt, c)
  {
    hide StandsFor;
  }

  lemma {:induction false} ChooseReordered(ix: Index, jx: Index, group: seq<Alternative>, i: nat, applicable: bool)
    requires Reordered(ix, jx) && DistinctIds(ix.candidates) && i <= |group|
    ensures ChooseFrom(ix, group, i, applicable) == ChooseFrom(jx, group, i, applicable)
    decreases |group| - i
  {
    hide PickFrom, Applies, DistinctIds;
    if i < |group| {
      PickReordered(ix, jx, group[i]);
      ChooseReordered(ix, jx, group, i + 1, applicable);
      ChooseReordered(ix, jx, group, i + 1, true);
    }
  }

  lemma {:induction false} FieldReordered(ix: Index, jx: Index, field: Field, groups: seq<seq<Alternative>>, k: nat)
    requires Reordered(ix, jx) && DistinctIds(ix.candidates) && k <= |groups|
    ensures FieldChoices(ix, field, groups, k) == FieldChoices(jx, field, groups, k)
    decreases |groups| - k
  {
    hide ChooseFrom, DistinctIds;
    if k < |groups| {
      ChooseReordered(ix, jx, groups[k], 0, false);
      FieldReordered(ix, jx, field, groups, k + 1);
    }
  }

  lemma ChoicesReordered(ix: Index, jx: Index, p: Package)
    requires Reordered(ix, jx) && DistinctIds(ix.candidates)
    ensures Choices(ix, p) == Choices(jx, p)
  {
    hide FieldChoices, DistinctIds;
    if p.depends.Ok? && p.preDepends.Ok? {
      FieldReordered(ix, jx, Depends, p.depends.value, 0);
      FieldReordered(ix, jx, PreDepends, p.preDepends.value, 0);
    }
  }

  lemma SeedsReordered(ix: Index, jx: Index, seeds: seq<Bytes>)
    requires Reordered(ix, jx) && DistinctIds(ix.candidates) && SeedsResolve(ix, seeds)
    ensures SeedsResolve(jx, seeds) && SeedPackages(ix, seeds) == SeedPackages(jx, seeds)
  {
    hide Named, Distinct, DistinctIds;
    ReorderedMembers(ix, jx);
    ReorderedIds(ix, jx);
    forall i | 0 <= i < |seeds| ensures Named(jx.candidates, seeds[i]) == Named(ix.candidates, seeds[i]) {
      var a, b := Named(ix.candidates, seeds[i]), Named(jx.candidates, seeds[i]);
      NamedDistinct(jx.candidates, seeds[i]);
      forall c ensures c in a <==> c in b {
        NamedMembers(ix.candidates, seeds[i], c);
        NamedMembers(jx.candidates, seeds[i], c);
      }
      assert a == [a[0]];
      assert a[0] in a;
      Singleton(b, a[0]);
    }
  }

  /** Permuting the index rows changes neither whether resolving succeeds nor anything it
      returns. */
  lemma RowOrderIrrelevant(ix: Index, jx: Index, seeds: seq<Bytes>, r: Result<Closure>)
    requires Reordered(ix, jx) && Resolves(ix, seeds, r)
    ensures Resolves(jx, seeds, r)
  {
    hide Choices, DistinctIds, Increasing, SeedsResolve, SeedPackages, Sort, Recorded;
    if Accepted(jx, seeds) {
      ReorderedIds(jx, ix);
      SeedsReordered(jx, ix, seeds);
    }
    if Accepted(ix, seeds) {
      ReorderedIds(ix, jx);
      SeedsReordered(ix, jx, seeds);
      forall p ensures Choices(ix, p) == Choices(jx, p) { ChoicesReordered(ix, jx, p); }
      SameChoicesSameSets(ix, jx, seeds);
      if r.Ok? { RecordsTransfer(ix, jx, r.value.selected); }
    }
  }

  lemma RecordsTransfer(ix: Index, jx: Index, selected: map<Bytes, Selected>)
    requires forall p :: Choices(ix, p) == Choices(jx, p)
    requires RecordsChoices(ix, selected)
    ensures RecordsChoices(jx, selected)
  {
    hide Choices, Recorded;
  }

  lemma SameChoicesSameSets(ix: Index, jx: Index, seeds: seq<Bytes>)
    requires SeedsResolve(ix, seeds) && SeedsResolve(jx, seeds) && SeedPackages(ix, seeds) == SeedPackages(jx, seeds)
    requires forall p :: Choices(ix, p) == Choices(jx, p)
    ensures forall s :: Least(ix, seeds, s) <==> Least(jx, seeds, s)
    ensures forall s :: UsedPins(ix, s) == UsedPins(jx, s)
  {
    hide Choices, SeedPackages, SeedsResolve, PinsOf;
    forall s ensures Closed(ix, s) <==> Closed(jx, s) {
    }
    forall s ensures UsedPins(ix, s) == UsedPins(jx, s) {
    }
    hide Closed;
    forall s ensures Least(ix, seeds, s) <==> Least(jx, seeds, s) {
    }
  }

  /* ----- index rows that were not selected ----- */

  /** A smaller index under the same rules. */
  ghost predicate Within(sub: Index, ix: Index) {
    && SameRules(ix, sub) && DistinctIds(ix.candidates) && DistinctIds(sub.candidates)
    && forall c :: c in sub.candidates ==> c in ix.candidates
  }

  predicate SamePick(a: Pick, b: Pick) {
    (a.Nothing? && b.Nothing?) || (a.Picked? && b.Picked? && a.package == b.package)
  }

  lemma PoolWithin(sub: Index, ix: Index, alt: Alternative, p: Package)
    requires Within(sub, ix) && p in Pool(ix, alt) && p in sub.candidates
    ensures p in Pool(sub, alt) && forall c :: c in Pool(sub, alt) ==> c in Pool(ix, alt)
  {
    hide Matches, Pool, DistinctIds;
    SameMatches(ix, sub, alt);
    PoolMembers(ix, alt, p);
    PoolMembers(sub, alt, p);
    if DirectMatch(sub, alt) {
      var d :| d in sub.candidates && Matches(sub, alt, d) == Ok(true) && d.name == alt.name;
      assert d in ix.candidates;
      assert DirectMatch(ix, alt);
    }
    forall c | c in Pool(sub, alt) ensures c in Pool(ix, alt) {
      PoolMembers(ix, alt, c);
      PoolMembers(sub, alt, c);
    }
  }

  lemma PoolEmptyWithin(sub: Index, ix: Index, alt: Alternative)
    requires Within(sub, ix) && Pool(ix, alt) == []
    ensures Pool(sub, alt) == []
  {
    hide Matches, Pool, DistinctIds;
    SameMatches(ix, sub, alt);
    var pool := Pool(sub, alt);
    if pool != [] {
      var c := pool[0];
      PoolMembers(sub, alt, c);
      PoolMembers(ix, alt, c);
      if DirectMatch(ix, alt) {
        var d :| d in ix.candidates && Matches(ix, alt, d) == Ok(true) && d.name == alt.name;
        PoolMembers(ix, alt, d);
      }
      assert false;
    }
  }

  lemma RefusedWithin(sub: Index, ix: Index, alt: Alternative)
    requires Within(sub, ix) && Refused(sub, alt)
    ensures Refused(ix, alt)
  {
    hide Matches, DistinctIds;
    SameMatches(ix, sub, alt);
    var c :| c in sub.candidates && Matches(sub, alt, c).Fail?;
    assert c in ix.candidates && Matches(ix, alt, c).Fail?;
  }

  /** The package chosen for an alternative stays chosen when others disappear. */
  lemma PickStable(sub: Index, ix: Index, alt: Alternative)
    requires Within(sub, ix) && PickFrom(ix, alt).Ok?
    requires PickFrom(ix, alt).value.Picked? ==> PickFrom(ix, alt).value.package in sub.candidates
    ensures PickFrom(sub, alt).Ok? && SamePick(PickFrom(ix, alt).value, PickFrom(sub, alt).value)
  {
    hide Matches, Refused, Pool, Named, DistinctIds, Distinct;
    if Refused(sub, alt) { RefusedWithin(sub, ix, alt); }
    var a, b := Pool(ix, alt), Pool(sub, alt);
    if |a| == 0 {
      PoolEmptyWithin(sub, ix, alt);
    } else {
      var p := PickFrom(ix, alt).value.package;
      if alt.name in ix.pins { NamedMembers(a, ix.pins[alt.name], p); }
      IdsDistinct(sub.candidates);
      PoolDistinct(sub, alt);
      PoolWithin(sub, ix, alt, p);
      if |a| == 1 {
        Singleton(b, p);
      } else {
        PinStable(a, b, ix.pins[alt.name], p);
        if |b| == 1 { Singleton(b, p); }
      }
    }
  }

  lemma PinStable(a: seq<Package>, b: seq<Package>, pin: Bytes, p: Package)
    requires Distinct(b) && Named(a, pin) == [p] && p in b && forall c :: c in b ==> c in a
    ensures Named(b, pin) == [p]
  {
    hide Named, Distinct;
    NamedMembers(a, pin, p);
    NamedMembers(b, pin, p);
    NamedDistinct(b, pin);
    forall c | c in Named(b, pin) ensures c == p {
      NamedMembers(b, pin, c);
      NamedMembers(a, pin, c);
    }
    Singleton(Named(b, pin), p);
  }

  predicate SameDecision(a: Decision, b: Decision) {
    || (a.NotApplicable? && b.NotApplicable?)
    || (a.Chosen? && b.Chosen? && a.alternative == b.alternative && a.package == b.package)
  }

  lemma {:induction false} ChooseStable(sub: Index, ix: Index, group: seq<Alternative>, i: nat, applicable: bool)
    requires Within(sub, ix) && i <= |group| && ChooseFrom(ix, group, i, applicable).Ok?
    requires var d := ChooseFrom(ix, group, i, applicable).value; d.Chosen? ==> d.package in sub.candidates
    ensures ChooseFrom(sub, group, i, applicable).Ok?
    ensures SameDecision(ChooseFrom(ix, group, i, applicable).value, ChooseFrom(sub, group, i, applicable).value)
    decreases |group| - i
  {
    hide PickFrom, Applies, Within;
    if i < |group| {
      if !Applies(group[i]).value {
        ChooseStable(sub, ix, group, i + 1, applicable);
      } else {
        PickStable(sub, ix, group[i]);
        if PickFrom(ix, group[i]).value.Nothing? { ChooseStable(sub, ix, group, i + 1, true); }
      }
    }
  }

  /** The same decisions, whether or not a pin was needed for them. */
  predicate SameChoices(a: seq<Choice>, b: seq<Choice>) {
    |a| == |b| && forall i :: 0 <= i < |a| ==>
      a[i].field == b[i].field && a[i].group == b[i].group && a[i].alternative == b[i].alternative && a[i].package == b[i].package
  }

  predicate TargetsIn(choices: seq<Choice>, cs: seq<Package>) {
    forall i :: 0 <= i < |choices| ==> choices[i].package in cs
  }

  lemma TargetsInConcat(a: seq<Choice>, b: seq<Choice>, cs: seq<Package>)
    ensures TargetsIn(a + b, cs) <==> TargetsIn(a, cs) && TargetsIn(b, cs)
  {
    if TargetsIn(a + b, cs) {
      forall i | 0 <= i < |a| ensures a[i].package in cs { assert (a + b)[i] == a[i]; }
      forall i | 0 <= i < |b| ensures b[i].package in cs { assert (a + b)[|a| + i] == b[i]; }
    }
  }

  lemma SameChoicesConcat(a: seq<Choice>, b: seq<Choice>, c: seq<Choice>, d: seq<Choice>)
    requires SameChoices(a, c) && SameChoices(b, d)
    ensures SameChoices(a + b, c + d)
  {
  }

  lemma SameDecisionChoices(field: Field, group: seq<Alternative>, k: nat, a: Decision, b: Decision)
    requires SameDecision(a, b)
    ensures SameChoices(ChoiceOf(field, group, k, a), ChoiceOf(field, group, k, b))
  {
  }

  lemma ChosenTarget(ix: Index, field: Field, group: seq<Alternative>, k: nat, cs: seq<Package>)
    requires Choose(ix, group).Ok? && TargetsIn(ChoiceOf(field, group, k, Choose(ix, group).value), cs)
    ensures Choose(ix, group).value.Chosen? ==> Choose(ix, group).value.package in cs
  {
    hide ChooseFrom;
    ChosenIsCandidate(ix, group, 0, false);
    var choice := ChoiceOf(field, group, k, Choose(ix, group).value);
    assert choice != [] ==> choice[0].package in cs;
  }

  lemma {:induction false} FieldStable(sub: Index, ix: Index, field: Field, groups: seq<seq<Alternative>>, k: nat)
    requires Within(sub, ix) && k <= |groups| && FieldChoices(ix, field, groups, k).Ok?
    requires TargetsIn(FieldChoices(ix, field, groups, k).value, sub.candidates)
    ensures FieldChoices(sub, field, groups, k).Ok?
    ensures SameChoices(FieldChoices(ix, field, groups, k).value, FieldChoices(sub, field, groups, k).value)
    decreases |groups| - k
  {
    hide ChooseFrom, Within, TargetsIn, SameChoices, ChoiceOf, SameDecision;
    if k == |groups| {
      NoChoicesSame();
    } else {
      var d, rest := Choose(ix, groups[k]).value, FieldChoices(ix, field, groups, k + 1).value;
      var head := ChoiceOf(field, groups[k], k, d);
      TargetsInConcat(head, rest, sub.candidates);
      ChosenTarget(ix, field, groups[k], k, sub.candidates);
      ChooseStable(sub, ix, groups[k], 0, false);
      FieldStable(sub, ix, field, groups, k + 1);
      var e, rest' := Choose(sub, groups[k]).value, FieldChoices(sub, field, groups, k + 1).value;
      SameDecisionChoices(field, groups[k], k, d, e);
      SameChoicesConcat(head, rest, ChoiceOf(field, groups[k], k, e), rest');
    }
  }

  lemma NoChoicesSame()
    ensures SameChoices([], [])
  {
  }

  lemma ChoicesStable(sub: Index, ix: Index, p: Package)
    requires Within(sub, ix) && Choices(ix, p).Ok?
    requires forall q :: q in Targets(Choices(ix, p).value) ==> q in sub.candidates
    ensures Choices(sub, p).Ok? && SameChoices(Choices(ix, p).value, Choices(sub, p).value)
  {
    hide FieldChoices, Within, SameChoices;
    var a := FieldChoices(ix, Depends, p.depends.value, 0).value;
    var b := FieldChoices(ix, PreDepends, p.preDepends.value, 0).value;
    var all: seq<Choice> := a + b;
    forall i | 0 <= i < |all| ensures all[i].package in sub.candidates {
      assert Targets(all)[i] == all[i].package;
    }
    TargetsInConcat(a, b, sub.candidates);
    FieldStable(sub, ix, Depends, p.depends.value, 0);
    FieldStable(sub, ix, PreDepends, p.preDepends.value, 0);
    SameChoicesConcat(a, b, FieldChoices(sub, Depends, p.depends.value, 0).value,
                      FieldChoices(sub, PreDepends, p.preDepends.value, 0).value);
  }

  lemma SameChoicesRecord(a: seq<Choice>, b: seq<Choice>)
    requires SameChoices(a, b)
    ensures Recorded(a) == Recorded(b) && Targets(a) == Targets(b)
  {
  }

  /** Members of the closure are decided alike in the smaller index. */
  lemma MemberStable(sub: Index, ix: Index, s: set<Package>, p: Package)
    requires Within(sub, ix) && Closed(ix, s) && (forall q :: q in s ==> q in sub.candidates) && p in s
    ensures Choices(ix, p).Ok? && Choices(sub, p).Ok?
    ensures Recorded(Choices(ix, p).value) == Recorded(Choices(sub, p).value)
    ensures Targets(Choices(ix, p).value) == Targets(Choices(sub, p).value)
  {
    hide Choices, Within, SameChoices, Recorded;
    ChoicesStable(sub, ix, p);
    SameChoicesRecord(Choices(ix, p).value, Choices(sub, p).value);
  }

  lemma SeedsStable(sub: Index, ix: Index, seeds: seq<Bytes>)
    requires Within(sub, ix) && SeedsResolve(ix, seeds)
    requires forall p :: p in SeedPackages(ix, seeds) ==> p in sub.candidates
    ensures SeedsResolve(sub, seeds) && SeedPackages(sub, seeds) == SeedPackages(ix, seeds)
  {
    hide Named, Distinct, DistinctIds;
    forall i | 0 <= i < |seeds| ensures Named(sub.candidates, seeds[i]) == Named(ix.candidates, seeds[i]) {
      var a, b := Named(ix.candidates, seeds[i]), Named(sub.candidates, seeds[i]);
      assert SeedPackages(ix, seeds)[i] == a[0];
      IdsDistinct(sub.candidates);
      NamedDistinct(sub.candidates, seeds[i]);
      NamedMembers(ix.candidates, seeds[i], a[0]);
      NamedMembers(sub.candidates, seeds[i], a[0]);
      forall c | c in b ensures c == a[0] {
        NamedMembers(sub.candidates, seeds[i], c);
        NamedMembers(ix.candidates, seeds[i], c);
      }
      Singleton(b, a[0]);
    }
  }

  /** The least closed set survives in every smaller index that still holds it. */
  lemma LeastStable(sub: Index, ix: Index, seeds: seq<Bytes>, s: set<Package>)
    requires Within(sub, ix) && SeedsResolve(ix, seeds) && Least(ix, seeds, s)
    requires forall p :: p in s ==> p in sub.candidates
    ensures SeedsResolve(sub, seeds) && Least(sub, seeds, s)
  {
    hide Choices, Within, SeedPackages, SeedsResolve;
    SeedsStable(sub, ix, seeds);
    forall p | p in s ensures Choices(sub, p).Ok? && Targets(Choices(ix, p).value) == Targets(Choices(sub, p).value) {
      MemberStable(sub, ix, s, p);
    }
    forall t | Closed(sub, t) && (forall p :: p in SeedPackages(sub, seeds) ==> p in t) ensures s <= t {
      assert Closed(ix, s * t);
    }
  }

  lemma RecordsStable(sub: Index, ix: Index, c: Closure)
    requires Within(sub, ix) && Closed(ix, Packages(c)) && RecordsChoices(ix, c.selected)
    requires forall p :: p in Packages(c) ==> p in sub.candidates
    ensures RecordsChoices(sub, c.selected)
  {
    hide Choices, Within, Recorded;
    forall k | k in c.selected
      ensures Choices(sub, c.selected[k].package).Ok?
      ensures c.selected[k].resolutions == Recorded(Choices(sub, c.selected[k].package).value)
    {
      assert c.selected[k].package in Packages(c);
      MemberStable(sub, ix, Packages(c), c.selected[k].package);
    }
  }

  /** Resolving against a smaller index that still holds every selected package returns
      the identical closure -- every package, group and alternative index -- if and only
      if every pin is still needed there. */
  lemma ClosureStable(sub: Index, ix: Index, seeds: seq<Bytes>, c: Closure)
    requires Within(sub, ix) && Resolves(ix, seeds, Ok(c))
    requires forall p :: p in Packages(c) ==> p in sub.candidates
    ensures Resolves(sub, seeds, Ok(c)) <==> UsedPins(sub, Packages(c)) == sub.pins.Keys
    ensures ix.pins == map[] ==> Resolves(sub, seeds, Ok(c))
  {
    hide Choices, SeedPackages, SeedsResolve, Packages, Sort, RecordsChoices, UsedPins, Increasing, DistinctIds;
    LeastStable(sub, ix, seeds, Packages(c));
    SeedsStable(sub, ix, seeds);
    RecordsStable(sub, ix, c);
    PinsAreDeclared(sub, Packages(c));
  }

  /* ----- a pin is only ever used by its own name ----- */

  lemma {:induction false} ChosenPin(ix: Index, group: seq<Alternative>, i: nat, applicable: bool)
    requires i <= |group| && ChooseFrom(ix, group, i, applicable).Ok?
    ensures var d := ChooseFrom(ix, group, i, applicable).value;
      d.Chosen? && d.pinned ==> d.alternative < |group| && group[d.alternative].name in ix.pins
    decreases |group| - i
  {
    hide Matches, Refused, Pool, Named, Applies;
    if i < |group| && Applies(group[i]).Ok? {
      if !Applies(group[i]).value {
        ChosenPin(ix, group, i + 1, applicable);
      } else if PickFrom(ix, group[i]).value.Nothing? {
        ChosenPin(ix, group, i + 1, true);
      }
    }
  }

  lemma {:induction false} FieldPins(ix: Index, field: Field, groups: seq<seq<Alternative>>, k: nat)
    requires k <= |groups| && FieldChoices(ix, field, groups, k).Ok?
    ensures PinsOf(FieldChoices(ix, field, groups, k).value) <= ix.pins.Keys
    decreases |groups| - k
  {
    hide ChooseFrom;
    if k < |groups| {
      FieldPins(ix, field, groups, k + 1);
      ChosenPin(ix, groups[k], 0, false);
    }
  }

  lemma PinsAreDeclared(ix: Index, s: set<Package>)
    ensures UsedPins(ix, s) <= ix.pins.Keys
  {
    hide Choices;
    forall p | p in s && Choices(ix, p).Ok? ensures PinsOf(Choices(ix, p).value) <= ix.pins.Keys {
      PackagePins(ix, p);
    }
  }

  lemma PackagePins(ix: Index, p: Package)
    requires Choices(ix, p).Ok?
    ensures PinsOf(Choices(ix, p).value) <= ix.pins.Keys
  {
    hide FieldChoices;
    FieldPins(ix, Depends, p.depends.value, 0);
    FieldPins(ix, PreDepends, p.preDepends.value, 0);
  }
}
