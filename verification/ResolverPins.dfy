/** A closure that does not survive the removal of a package it never selected: the pin that
    chose between two providers is no longer needed when one of them is gone. */
module ResolverPins {
  import opened ByteStrings
  import opened Sorting
  import opened Resolver
  import opened ResolverLaws

  const SEED: Bytes := [115]
  const VIRTUAL: Bytes := [118]
  const WANTED: Alternative := Alternative(VIRTUAL, Unqualified, Unconstrained, Unrestricted)

  const ROOT: Package := Package(SEED, SEED, "1", false, Ok([[WANTED]]), Ok([]), Ok([]))
  const PINNED: Package := Package([112], [112], "1", false, Ok([]), Ok([]), Ok([Provided(VIRTUAL, None)]))
  const RIVAL: Package := Package([113], [113], "1", false, Ok([]), Ok([]), Ok([Provided(VIRTUAL, None)]))

  type Comparison = (string, Op, string) -> Result<bool>

  function Both(satisfies: Comparison): Index { Index([ROOT, PINNED, RIVAL], map[VIRTUAL := [112]], satisfies) }
  function One(satisfies: Comparison): Index { Index([ROOT, PINNED], map[VIRTUAL := [112]], satisfies) }

  lemma ProviderMatches(ix: Index, p: Package)
    requires p == PINNED || p == RIVAL
    ensures Matches(ix, WANTED, p) == Ok(true)
  {
    var provided := p.provisions.value;
    assert provided[1..] == [];
    assert Occurrences(provided, VIRTUAL) == [provided[0]];
  }

  lemma RootDoesNot(ix: Index)
    ensures Matches(ix, WANTED, ROOT) == Ok(false)
  {
    assert Occurrences([], VIRTUAL) == [];
  }

  lemma Pools(satisfies: Comparison)
    ensures Pool(Both(satisfies), WANTED) == [PINNED, RIVAL] && !Refused(Both(satisfies), WANTED)
    ensures Pool(One(satisfies), WANTED) == [PINNED] && !Refused(One(satisfies), WANTED)
  {
    hide Matches;
    var ix, jx := Both(satisfies), One(satisfies);
    RootDoesNot(ix);
    ProviderMatches(ix, PINNED);
    ProviderMatches(ix, RIVAL);
    RootDoesNot(jx);
    ProviderMatches(jx, PINNED);
    var all, two := ix.candidates, jx.candidates;
    assert all[1..] == [PINNED, RIVAL] && [PINNED, RIVAL][1..] == [RIVAL] && [RIVAL][1..] == [];
    assert two[1..] == [PINNED] && [PINNED][1..] == [];
    assert Matching(ix, WANTED, [RIVAL]) == [RIVAL];
    assert Matching(ix, WANTED, [PINNED, RIVAL]) == [PINNED] + Matching(ix, WANTED, [RIVAL]);
    assert Matching(ix, WANTED, all) == [PINNED, RIVAL];
    assert Matching(jx, WANTED, [PINNED]) == [PINNED];
    assert Matching(jx, WANTED, two) == [PINNED];
    assert Named([RIVAL], VIRTUAL) == [] && Named([PINNED], VIRTUAL) == [];
    assert Named([PINNED, RIVAL], VIRTUAL) == [];
  }

  lemma Picks(satisfies: Comparison)
    ensures PickFrom(Both(satisfies), WANTED) == Ok(Picked(PINNED, true))
    ensures PickFrom(One(satisfies), WANTED) == Ok(Picked(PINNED, false))
  {
    hide Pool, Refused;
    Pools(satisfies);
    assert [PINNED, RIVAL][1..] == [RIVAL] && [RIVAL][1..] == [];
    assert Named([RIVAL], [112]) == [];
    assert Named([PINNED, RIVAL], [112]) == [PINNED] + Named([RIVAL], [112]);
  }

  lemma Decided(ix: Index, pinned: bool)
    requires PickFrom(ix, WANTED) == Ok(Picked(PINNED, pinned))
    ensures Choices(ix, ROOT) == Ok([Choice(Depends, 0, 0, PINNED, if pinned then Some(VIRTUAL) else None)])
    ensures Choices(ix, PINNED) == Ok([])
  {
    hide PickFrom;
    assert Choose(ix, [WANTED]) == Ok(Chosen(0, PINNED, pinned));
    assert FieldChoices(ix, Depends, [[WANTED]], 1) == Ok([]);
    var one := [Choice(Depends, 0, 0, PINNED, if pinned then Some(VIRTUAL) else None)];
    assert [[WANTED]][0] == [WANTED] && ChoiceOf(Depends, [WANTED], 0, Chosen(0, PINNED, pinned)) == one;
    assert one + [] == one;
    assert FieldChoices(ix, Depends, [[WANTED]], 0) == Ok(one);
    var none: seq<Choice> := [];
    assert none + none == none;
    assert FieldChoices(ix, PreDepends, [], 0) == Ok(none) && FieldChoices(ix, Depends, [], 0) == Ok(none);
  }

  lemma NamedSkips(p: Package, rest: seq<Package>, name: Bytes)
    requires p.name != name
    ensures Named([p] + rest, name) == Named(rest, name)
  {
    assert ([p] + rest)[1..] == rest;
  }

  lemma SeedNamed(rest: seq<Package>)
    requires rest == [PINNED, RIVAL] || rest == [PINNED]
    ensures Named([ROOT] + rest, SEED) == [ROOT]
  {
    assert ([ROOT] + rest)[1..] == rest;
    NamedSkips(PINNED, rest[1..], SEED);
    assert [PINNED] + rest[1..] == rest;
    if |rest| == 2 {
      NamedSkips(RIVAL, [], SEED);
      assert rest[1..] == [RIVAL] + [];
    }
  }

  lemma SeedFound(ix: Index)
    requires ix.candidates == [ROOT, PINNED, RIVAL] || ix.candidates == [ROOT, PINNED]
    ensures DistinctIds(ix.candidates) && SeedsResolve(ix, [SEED]) && SeedPackages(ix, [SEED]) == [ROOT]
  {
    hide Named;
    var cs := ix.candidates;
    var rest := if |cs| == 3 then [PINNED, RIVAL] else [PINNED];
    assert [ROOT] + rest == cs;
    SeedNamed(rest);
  }

  /** The closure of the seed: itself and the pinned provider. */
  function Selection(): Closure {
    Closure(map[SEED := Selected(ROOT, [Edge(Depends, 0, 0, [112])]), [112] := Selected(PINNED, [])], [SEED])
  }

  lemma SelectionPackages()
    ensures Packages(Selection()) == {ROOT, PINNED}
  {
    var c := Selection();
    assert SEED in c.selected && [112] in c.selected;
  }

  lemma SelectionLeast(ix: Index, pinned: bool)
    requires ix.candidates == [ROOT, PINNED, RIVAL] || ix.candidates == [ROOT, PINNED]
    requires PickFrom(ix, WANTED) == Ok(Picked(PINNED, pinned))
    ensures SeedsResolve(ix, [SEED]) && Least(ix, [SEED], {ROOT, PINNED})
    ensures UsedPins(ix, {ROOT, PINNED}) == if pinned then {VIRTUAL} else {}
  {
    hide PickFrom, Choices, SeedsResolve, SeedPackages;
    Decided(ix, pinned);
    SeedFound(ix);
    var choice := Choice(Depends, 0, 0, PINNED, if pinned then Some(VIRTUAL) else None);
    assert Targets([choice]) == [PINNED] && Targets([]) == [];
    assert Closed(ix, {ROOT, PINNED});
    forall t | Closed(ix, t) && (forall p :: p in SeedPackages(ix, [SEED]) ==> p in t) ensures {ROOT, PINNED} <= t {
      assert ROOT in SeedPackages(ix, [SEED]);
      assert PINNED in Targets([choice]);
    }
    assert choice in [choice];
    assert PinsOf([choice]) == (if pinned then {VIRTUAL} else {}) && PinsOf([]) == {};
  }

  /** With both providers the pin decides and the closure is found; without the one that was
      not selected the pin decides nothing and the same request fails. */
  lemma UnneededPin(satisfies: Comparison)
    ensures Within(One(satisfies), Both(satisfies)) && Resolves(Both(satisfies), [SEED], Ok(Selection()))
    ensures forall p :: p in Packages(Selection()) ==> p in One(satisfies).candidates
    ensures !Resolves(One(satisfies), [SEED], Ok(Selection())) && Resolves(One(satisfies), [SEED], Fail)
  {
    hide PickFrom, Choices, SeedsResolve, SeedPackages, Least, UsedPins;
    var ix, jx := Both(satisfies), One(satisfies);
    Picks(satisfies);
    SelectionLeast(ix, true);
    SelectionLeast(jx, false);
    SelectionPackages();
    SeedFound(ix);
    SeedFound(jx);
    Decided(ix, true);
    assert Recorded([Choice(Depends, 0, 0, PINNED, Some(VIRTUAL))]) == [Edge(Depends, 0, 0, [112])] && Recorded([]) == [];
    assert Ids([ROOT]) == [SEED];
    assert [SEED][1..] == [] && Sort([SEED]) == Insert(SEED, Sort([])) == [SEED];
    assert VIRTUAL in jx.pins.Keys;
    forall s | Least(jx, [SEED], s) ensures UsedPins(jx, s) != jx.pins.Keys { LeastUnique(jx, s); }
  }

  lemma LeastUnique(ix: Index, s: set<Package>)
    requires SeedsResolve(ix, [SEED]) && Least(ix, [SEED], {ROOT, PINNED}) && Least(ix, [SEED], s)
    ensures s == {ROOT, PINNED}
  {
    hide Closed, SeedPackages;
  }
}
