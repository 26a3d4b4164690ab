/** What the resolver chooses, said without lists and loops: which candidate one alternative
    stands for, and which alternative one group is decided by. */
module ResolverChoice {
  import opened ByteStrings
  import opened Resolver
  import opened ResolverRun
  import opened ResolverLaws

  /** A candidate that satisfies the alternative, and is the named package itself wherever
      one such package does. */
  predicate Eligible(ix: Index, alt: Alternative, c: Package) {
    c in ix.candidates && Matches(ix, alt, c) == Ok(true) && (DirectMatch(ix, alt) ==> c.name == alt.name)
  }

  lemma PoolEligible(ix: Index, alt: Alternative)
    ensures forall c :: c in Pool(ix, alt) <==> Eligible(ix, alt, c)
  {
    hide Pool, Matches, DirectMatch;
    forall c ensures c in Pool(ix, alt) <==> Eligible(ix, alt, c) { PoolMembers(ix, alt, c); }
  }

  lemma OnlyMember<T>(s: seq<T>, x: T)
    requires Distinct(s)
    ensures s == [x] <==> x in s && forall y :: y in s ==> y == x
  {
    if x in s && forall y :: y in s ==> y == x { Singleton(s, x); }
  }

  lemma TwoMembers<T>(s: seq<T>)
    requires Distinct(s)
    ensures |s| == 0 <==> forall x :: x !in s
    ensures |s| > 1 <==> exists x, y :: x in s && y in s && x != y
  {
    if |s| > 1 { assert s[0] in s && s[1] in s && s[0] != s[1]; }
    if |s| > 0 { assert s[0] in s; }
  }

  /** The only eligible candidate of its name. */
  ghost predicate OnlyPinned(ix: Index, alt: Alternative, p: Package) {
    && alt.name in ix.pins && p.name == ix.pins[alt.name] && Eligible(ix, alt, p)
    && forall c :: Eligible(ix, alt, c) && c.name == ix.pins[alt.name] ==> c == p
  }

  ghost predicate OnlyOne(ix: Index, alt: Alternative, p: Package) {
    Eligible(ix, alt, p) && forall c :: Eligible(ix, alt, c) ==> c == p
  }

  ghost predicate Several(ix: Index, alt: Alternative) {
    exists c, d :: Eligible(ix, alt, c) && Eligible(ix, alt, d) && c != d
  }

  /** No candidate's comparison is refused. */
  ghost predicate AllAnswer(ix: Index, alt: Alternative) {
    forall c :: c in ix.candidates ==> Matches(ix, alt, c).Ok?
  }

  /** One alternative: nothing without an eligible candidate, the eligible candidate if there
      is one, the pinned one if there are several; a refused comparison, or several without a
      pin that selects one, is an error. */
  lemma PickExact(ix: Index, alt: Alternative, p: Package)
    requires Distinct(ix.candidates)
    ensures PickFrom(ix, alt) == Ok(Nothing) <==> AllAnswer(ix, alt) && forall c :: !Eligible(ix, alt, c)
    ensures PickFrom(ix, alt) == Ok(Picked(p, false)) <==> AllAnswer(ix, alt) && OnlyOne(ix, alt, p)
    ensures PickFrom(ix, alt) == Ok(Picked(p, true)) <==> AllAnswer(ix, alt) && Several(ix, alt) && OnlyPinned(ix, alt, p)
  {
    hide Pool, Matches, DirectMatch, Eligible, Named, Distinct;
    var pool := Pool(ix, alt);
    PoolDistinct(ix, alt);
    PoolEligible(ix, alt);
    OnlyMember(pool, p);
    TwoMembers(pool);
    if alt.name in ix.pins {
      var pinned := Named(pool, ix.pins[alt.name]);
      NamedDistinct(pool, ix.pins[alt.name]);
      forall c ensures c in pinned <==> c in pool && c.name == ix.pins[alt.name] { NamedMembers(pool, ix.pins[alt.name], c); }
      OnlyMember(pinned, p);
      assert |pinned| == 1 ==> pinned == [pinned[0]];
    }
  }

  /** An alternative that is gone past: for another architecture, or with no candidate. */
  predicate GonePast(ix: Index, alt: Alternative) {
    Applies(alt) == Ok(false) || (Applies(alt) == Ok(true) && PickFrom(ix, alt) == Ok(Nothing))
  }

  lemma {:induction false} ChooseFromExact(ix: Index, group: seq<Alternative>, i: nat, applicable: bool, k: nat, p: Package, pinned: bool)
    requires i <= |group|
    ensures ChooseFrom(ix, group, i, applicable) == Ok(Chosen(k, p, pinned)) <==>
      && i <= k < |group| && (forall j :: i <= j < k ==> GonePast(ix, group[j]))
      && Applies(group[k]) == Ok(true) && PickFrom(ix, group[k]) == Ok(Picked(p, pinned))
    ensures ChooseFrom(ix, group, i, applicable) == Ok(NotApplicable) <==>
      !applicable && forall j :: i <= j < |group| ==> Applies(group[j]) == Ok(false)
    decreases |group| - i
  {
    hide PickFrom, Applies;
    if i < |group| {
      ChooseFromExact(ix, group, i + 1, applicable, k, p, pinned);
      ChooseFromExact(ix, group, i + 1, true, k, p, pinned);
    }
  }

  /** One group: decided by the first alternative that applies and has a candidate, every
      earlier one being for another architecture or without candidates; not applicable
      exactly when every alternative is for another architecture. */
  lemma ChoiceExact(ix: Index, group: seq<Alternative>, k: nat, p: Package, pinned: bool)
    ensures Choose(ix, group) == Ok(Chosen(k, p, pinned)) <==>
      && k < |group| && (forall j :: 0 <= j < k ==> GonePast(ix, group[j]))
      && Applies(group[k]) == Ok(true) && PickFrom(ix, group[k]) == Ok(Picked(p, pinned))
    ensures Choose(ix, group) == Ok(NotApplicable) <==> forall j :: 0 <= j < |group| ==> Applies(group[j]) == Ok(false)
  {
    hide PickFrom, Applies, ChooseFrom;
    ChooseFromExact(ix, group, 0, false, k, p, pinned);
  }
}
