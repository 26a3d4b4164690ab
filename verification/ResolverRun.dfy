/** The resolver's worklist, run in any order of work. */
module ResolverRun {
  import opened ByteStrings
  import opened Sorting
  import opened Resolver

  /* ----- everything chosen is a candidate ----- */

  lemma {:induction false} MatchingMembers(ix: Index, alt: Alternative, cs: seq<Package>, c: Package)
    ensures c in Matching(ix, alt, cs) <==> c in cs && Matches(ix, alt, c) == Ok(true)
    decreases |cs|
  {
    hide Matches;
    if cs != [] {
      assert cs == [cs[0]] + cs[1..];
      MatchingMembers(ix, alt, cs[1..], c);
    }
  }

  lemma {:induction false} NamedMembers(cs: seq<Package>, name: Bytes, c: Package)
    ensures c in Named(cs, name) <==> c in cs && c.name == name
    decreases |cs|
  {
    if cs != [] {
      assert cs == [cs[0]] + cs[1..];
      NamedMembers(cs[1..], name, c);
    }
  }

  lemma PickedIsCandidate(ix: Index, alt: Alternative)
    requires PickFrom(ix, alt).Ok? && PickFrom(ix, alt).value.Picked?
    ensures PickFrom(ix, alt).value.package in ix.candidates
  {
    hide Matches, Refused, Matching, Named;
    var p := PickFrom(ix, alt).value.package;
    var matching := Matching(ix, alt, ix.candidates);
    if alt.name in ix.pins { NamedMembers(Pool(ix, alt), ix.pins[alt.name], p); }
    assert p in Pool(ix, alt);
    NamedMembers(matching, alt.name, p);
    MatchingMembers(ix, alt, ix.candidates, p);
  }

  lemma {:induction false} ChosenIsCandidate(ix: Index, group: seq<Alternative>, i: nat, applicable: bool)
    requires i <= |group| && ChooseFrom(ix, group, i, applicable).Ok?
    ensures var d := ChooseFrom(ix, group, i, applicable).value;
      d.Chosen? ==> d.package in ix.candidates && d.alternative < |group|
    decreases |group| - i
  {
    hide PickFrom, Applies;
    if i < |group| && Applies(group[i]).Ok? {
      if !Applies(group[i]).value {
        ChosenIsCandidate(ix, group, i + 1, applicable);
      } else if PickFrom(ix, group[i]).value.Nothing? {
        ChosenIsCandidate(ix, group, i + 1, true);
      } else {
        PickedIsCandidate(ix, group[i]);
      }
    }
  }

  lemma {:induction false} FieldTargets(ix: Index, field: Field, groups: seq<seq<Alternative>>, k: nat)
    requires k <= |groups| && FieldChoices(ix, field, groups, k).Ok?
    ensures forall c :: c in FieldChoices(ix, field, groups, k).value ==> c.package in ix.candidates
    decreases |groups| - k
  {
    hide ChooseFrom;
    if k < |groups| {
      FieldTargets(ix, field, groups, k + 1);
      ChosenIsCandidate(ix, groups[k], 0, false);
    }
  }

  lemma TargetsAreCandidates(ix: Index, p: Package)
    requires Choices(ix, p).Ok?
    ensures forall q :: q in Targets(Choices(ix, p).value) ==> q in ix.candidates
  {
    hide FieldChoices;
    FieldTargets(ix, Depends, p.depends.value, 0);
    FieldTargets(ix, PreDepends, p.preDepends.value, 0);
  }

  /* ----- the loop invariant ----- */

  function SelectedSet(selected: map<Bytes, Selected>): set<Package> {
    set k | k in selected :: selected[k].package
  }

  /** Selected or still to be looked at. */
  function Seen(selected: map<Bytes, Selected>, pending: seq<Package>): set<Package> {
    SelectedSet(selected) + Elements(pending)
  }

  /** Every decision of a selected package has been queued. */
  predicate Queued(ix: Index, selected: map<Bytes, Selected>, seen: set<Package>) {
    forall p :: p in SelectedSet(selected) ==>
      Choices(ix, p).Ok? && forall q :: q in Targets(Choices(ix, p).value) ==> q in seen
  }

  /** Nothing was queued that some closed set with the seeds could do without. */
  ghost predicate Forced(ix: Index, start: set<Package>, seen: set<Package>) {
    forall t :: Closed(ix, t) && start <= t ==> seen <= t
  }

  ghost predicate Underway(ix: Index, start: set<Package>, selected: map<Bytes, Selected>, pending: seq<Package>, used: set<Bytes>) {
    && (forall p :: p in Seen(selected, pending) ==> p in ix.candidates)
    && RecordsChoices(ix, selected) && start <= Seen(selected, pending)
    && Queued(ix, selected, Seen(selected, pending)) && Forced(ix, start, Seen(selected, pending))
    && used == UsedPins(ix, SelectedSet(selected))
  }

  lemma SameIdSamePackage(ps: seq<Package>, p: Package, q: Package)
    requires DistinctIds(ps) && p in ps && q in ps && p.id == q.id
    ensures p == q
  {
    var i :| 0 <= i < |ps| && ps[i] == p;
    var j :| 0 <= j < |ps| && ps[j] == q;
  }

  lemma RemoveElements<T>(s: seq<T>, i: nat)
    requires i < |s|
    ensures Elements(s) == Elements(s[..i] + s[i + 1..]) + {s[i]}
  {
    var rest := s[..i] + s[i + 1..];
    forall x | x in s ensures x in rest || x == s[i] {
      var k :| 0 <= k < |s| && s[k] == x;
      if k < i { assert rest[k] == x; }
      if k > i { assert rest[k - 1] == x; }
    }
  }

  lemma Started(ix: Index, pending: seq<Package>)
    requires forall p :: p in pending ==> p in ix.candidates
    ensures Underway(ix, Elements(pending), map[], pending, {})
  {
    hide Choices, Closed;
    assert Seen(map[], pending) == Elements(pending);
  }

  /** Dropping a package that is already selected changes nothing. */
  lemma SkipStep(ix: Index, start: set<Package>, selected: map<Bytes, Selected>, pending: seq<Package>, used: set<Bytes>, i: nat)
    requires DistinctIds(ix.candidates) && Underway(ix, start, selected, pending, used)
    requires i < |pending| && pending[i].id in selected
    ensures Underway(ix, start, selected, pending[..i] + pending[i + 1..], used)
  {
    hide Choices, Closed, UsedPins, DistinctIds;
    var p := pending[i];
    RemoveElements(pending, i);
    assert selected[p.id].package in SelectedSet(selected);
    assert p in Elements(pending);
    SameIdSamePackage(ix.candidates, p, selected[p.id].package);
    assert Seen(selected, pending) == Seen(selected, pending[..i] + pending[i + 1..]);
  }

  function Select(selected: map<Bytes, Selected>, p: Package, choices: seq<Choice>): map<Bytes, Selected> {
    selected[p.id := Selected(p, Recorded(choices))]
  }

  lemma SelectSet(selected: map<Bytes, Selected>, p: Package, choices: seq<Choice>)
    requires p.id !in selected
    ensures SelectedSet(Select(selected, p, choices)) == SelectedSet(selected) + {p}
  {
    hide Recorded;
    var more := Select(selected, p, choices);
    assert more[p.id].package == p;
    forall k | k in selected ensures more[k] == selected[k] {
    }
  }

  lemma UsedPinsGrow(ix: Index, s: set<Package>, p: Package)
    requires Choices(ix, p).Ok?
    ensures UsedPins(ix, s + {p}) == UsedPins(ix, s) + PinsOf(Choices(ix, p).value)
  {
    hide Choices, PinsOf;
  }

  /** Selecting a package queues its targets and keeps the invariant. */
  lemma SelectStep(ix: Index, start: set<Package>, selected: map<Bytes, Selected>, pending: seq<Package>, used: set<Bytes>, i: nat)
    requires DistinctIds(ix.candidates) && Underway(ix, start, selected, pending, used)
    requires i < |pending| && pending[i].id !in selected && Choices(ix, pending[i]).Ok?
    ensures var choices := Choices(ix, pending[i]).value;
      Underway(ix, start, Select(selected, pending[i], choices),
               pending[..i] + pending[i + 1..] + Targets(choices), used + PinsOf(choices))
  {
    hide Choices, UsedPins, PinsOf, DistinctIds, Recorded, Closed;
    var p := pending[i];
    var choices := Choices(ix, p).value;
    var rest := pending[..i] + pending[i + 1..];
    var seen, seen' := Seen(selected, pending), Seen(Select(selected, p, choices), rest + Targets(choices));
    RemoveElements(pending, i);
    SelectSet(selected, p, choices);
    assert Elements(rest + Targets(choices)) == Elements(rest) + Elements(Targets(choices));
    assert seen' == seen + Elements(Targets(choices));
    TargetsAreCandidates(ix, p);
    UsedPinsGrow(ix, SelectedSet(selected), p);
    ForcedTargets(ix, start, seen, p);
    RecordOneMore(ix, selected, p);
  }

  lemma RecordOneMore(ix: Index, selected: map<Bytes, Selected>, p: Package)
    requires RecordsChoices(ix, selected) && Choices(ix, p).Ok?
    ensures RecordsChoices(ix, Select(selected, p, Choices(ix, p).value))
  {
    hide Choices, Recorded;
  }

  lemma ForcedTargets(ix: Index, start: set<Package>, seen: set<Package>, p: Package)
    requires Forced(ix, start, seen) && p in seen && Choices(ix, p).Ok?
    ensures Forced(ix, start, seen + Elements(Targets(Choices(ix, p).value)))
  {
    hide Choices;
    forall t | Closed(ix, t) && start <= t ensures seen + Elements(Targets(Choices(ix, p).value)) <= t {
      assert p in t;
    }
  }

  /** A queued package without a decision means no closed set holds the seeds. */
  lemma NoClosure(ix: Index, start: set<Package>, selected: map<Bytes, Selected>, pending: seq<Package>, used: set<Bytes>, i: nat)
    requires Underway(ix, start, selected, pending, used) && i < |pending| && Choices(ix, pending[i]).Fail?
    ensures forall t :: start <= t ==> !Closed(ix, t)
  {
    hide Choices, UsedPins, RecordsChoices;
    assert pending[i] in Seen(selected, pending);
  }

  lemma Finished(ix: Index, start: set<Package>, selected: map<Bytes, Selected>, used: set<Bytes>)
    requires Underway(ix, start, selected, [], used)
    ensures Closed(ix, SelectedSet(selected)) && start <= SelectedSet(selected)
    ensures forall t :: Closed(ix, t) && start <= t ==> SelectedSet(selected) <= t
    ensures RecordsChoices(ix, selected) && used == UsedPins(ix, SelectedSet(selected))
  {
    hide Choices, UsedPins;
    assert Seen(selected, []) == SelectedSet(selected);
  }

  /* ----- the run ----- */

  function IdSet(ps: seq<Package>): set<Bytes> { set p | p in ps :: p.id }

  method Seeds(ix: Index, seeds: seq<Bytes>) returns (r: Result<seq<Package>>)
    ensures r.Ok? <==> SeedsResolve(ix, seeds)
    ensures r.Ok? ==> r.value == SeedPackages(ix, seeds) && forall p :: p in r.value ==> p in ix.candidates
  {
    hide Named;
    var pending: seq<Package> := [];
    for k := 0 to |seeds|
      invariant |pending| == k
      invariant forall i :: 0 <= i < k ==> |Named(ix.candidates, seeds[i])| == 1 && pending[i] == Named(ix.candidates, seeds[i])[0]
      invariant forall i :: 0 <= i < k ==> pending[i] in ix.candidates
    {
      var direct := Named(ix.candidates, seeds[k]);
      if |direct| != 1 { return Fail; }
      NamedMembers(ix.candidates, seeds[k], direct[0]);
      pending := pending + [direct[0]];
    }
    return Ok(pending);
  }

  /** Resolve a seed set.  `schedule` says which pending package is looked at next; the
      source always takes the first, that is `schedule(n) == 0`.  The outcome is stated
      without the schedule. */
  method ResolveClosure(ix: Index, seeds: seq<Bytes>, schedule: nat -> nat) returns (r: Result<Closure>)
    ensures Resolves(ix, seeds, r)
  {
    hide Choices, UsedPins, Closed, Named, DistinctIds, Increasing, Sort, Recorded, Underway, SeedsResolve, SeedPackages;
    if seeds == [] || !Increasing(seeds) || !DistinctIds(ix.candidates) { return Fail; }
    var found := Seeds(ix, seeds);
    if found.Fail? { return Fail; }
    var pending := found.value;
    var seedIds := Ids(pending);
    var selected: map<Bytes, Selected> := map[];
    var used: set<Bytes> := {};
    ghost var start := Elements(pending);
    var step := 0;
    Started(ix, pending);
    while pending != []
      invariant Underway(ix, start, selected, pending, used)
      decreases IdSet(ix.candidates) - selected.Keys, |pending|
    {
      var i := schedule(step) % |pending|;
      step := step + 1;
      var package := pending[i];
      assert package.id in IdSet(ix.candidates) by { QueuedIsCandidate(ix, start, selected, pending, used, i); }
      if package.id in selected {
        SkipStep(ix, start, selected, pending, used, i);
        pending := pending[..i] + pending[i + 1..];
      } else {
        var choices := Choices(ix, package);
        if choices.Fail? {
          NoClosure(ix, start, selected, pending, used, i);
          NoLeast(ix, seeds, start);
          return Fail;
        }
        SelectStep(ix, start, selected, pending, used, i);
        assert package.id in IdSet(ix.candidates) - selected.Keys;
        assert Select(selected, package, choices.value).Keys == selected.Keys + {package.id};
        pending := pending[..i] + pending[i + 1..] + Targets(choices.value);
        selected := Select(selected, package, choices.value);
        used := used + PinsOf(choices.value);
      }
    }
    Finished(ix, start, selected, used);
    var closure := Closure(selected, Sort(seedIds));
    IsLeast(ix, seeds, start, closure);
    if used != ix.pins.Keys {
      OnlyLeast(ix, seeds, closure);
      return Fail;
    }
    return Ok(closure);
  }

  lemma QueuedIsCandidate(ix: Index, start: set<Package>, selected: map<Bytes, Selected>, pending: seq<Package>, used: set<Bytes>, i: nat)
    requires Underway(ix, start, selected, pending, used) && i < |pending|
    ensures pending[i] in ix.candidates
  {
    hide Choices, UsedPins, RecordsChoices, Closed;
    assert pending[i] in Seen(selected, pending);
  }

  lemma NoLeast(ix: Index, seeds: seq<Bytes>, start: set<Package>)
    requires SeedsResolve(ix, seeds) && start == Elements(SeedPackages(ix, seeds))
    requires forall t :: start <= t ==> !Closed(ix, t)
    ensures forall s :: !Least(ix, seeds, s)
  {
    hide Closed, SeedPackages;
    forall s ensures !Least(ix, seeds, s) {
      assert (forall p :: p in SeedPackages(ix, seeds) ==> p in s) <==> start <= s;
    }
  }

  lemma IsLeast(ix: Index, seeds: seq<Bytes>, start: set<Package>, c: Closure)
    requires SeedsResolve(ix, seeds) && start == Elements(SeedPackages(ix, seeds))
    requires Closed(ix, SelectedSet(c.selected)) && start <= SelectedSet(c.selected)
    requires forall t :: Closed(ix, t) && start <= t ==> SelectedSet(c.selected) <= t
    ensures Packages(c) == SelectedSet(c.selected) && Least(ix, seeds, Packages(c))
  {
    hide Closed, SeedPackages;
    forall t ensures (forall p :: p in SeedPackages(ix, seeds) ==> p in t) <==> start <= t {
    }
  }

  lemma OnlyLeast(ix: Index, seeds: seq<Bytes>, c: Closure)
    requires SeedsResolve(ix, seeds) && Least(ix, seeds, Packages(c))
    ensures forall s :: Least(ix, seeds, s) ==> s == Packages(c)
  {
    hide Closed, SeedPackages;
  }
}
