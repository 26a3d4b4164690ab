/** The dependency resolver: alternatives, architecture restrictions, virtual providers
    and explicit pins, closed over a worklist. */
module Resolver {
  import opened ByteStrings
  import opened Sorting

  /* ----- the index ----- */

  datatype Op = Earlier | EarlierEqual | Exactly | LaterEqual | Later
  datatype Constraint = Unconstrained | Versioned(op: Op, version: string)
  datatype Qualifier = Unqualified | AnyArch | NativeArch

  datatype Term = Term(negated: bool, pattern: string)

  /** An architecture restriction; `Malformed` holds a token outside the token syntax. */
  datatype Restriction = Unrestricted | Malformed | Terms(terms: seq<Term>)

  datatype Alternative = Alternative(name: Bytes, qualifier: Qualifier, constraint: Constraint, restriction: Restriction)

  datatype Provided = Provided(name: Bytes, version: Option<string>)

  /** A dependency field is the groups it parses into, or a syntax the resolver refuses. */
  datatype Package = Package(id: Bytes, name: Bytes, version: string, multiArchAllowed: bool,
                             depends: Result<seq<seq<Alternative>>>, preDepends: Result<seq<seq<Alternative>>>,
                             provisions: Result<seq<Provided>>)

  /** Candidates, provider pins, and the version comparison, which may refuse a version. */
  datatype Index = Index(candidates: seq<Package>, pins: map<Bytes, Bytes>,
                         satisfies: (string, Op, string) -> Result<bool>)

  /* ----- one alternative against one candidate ----- */

  const TARGET_OS := "linux"
  const TARGET_ARCHITECTURE := "arm64"

  predicate PatternMatches(pattern: string) {
    || pattern == "any" || pattern == TARGET_ARCHITECTURE
    || pattern == TARGET_OS + "-any" || pattern == "any-" + TARGET_ARCHITECTURE
  }

  predicate SomeMatches(terms: seq<Term>) {
    exists i :: 0 <= i < |terms| && PatternMatches(terms[i].pattern)
  }

  predicate AllNegated(terms: seq<Term>, negated: bool) {
    forall i :: 0 <= i < |terms| ==> terms[i].negated == negated
  }

  /** Whether an alternative applies to linux/arm64.  Mixing the two forms is refused. */
  function Applies(alt: Alternative): Result<bool> {
    match alt.restriction
    case Unrestricted => Ok(true)
    case Malformed => Fail
    case Terms(terms) =>
      if terms == [] then Fail
      else if AllNegated(terms, true) then Ok(!SomeMatches(terms))
      else if AllNegated(terms, false) then Ok(SomeMatches(terms))
      else Fail
  }

  function Negate(terms: seq<Term>): (r: seq<Term>)
    ensures |r| == |terms| && forall i :: 0 <= i < |r| ==> r[i] == Term(!terms[i].negated, terms[i].pattern)
  {
    seq(|terms|, i requires 0 <= i < |terms| => Term(!terms[i].negated, terms[i].pattern))
  }

  /** Negating every term of a restriction negates whether it applies. */
  lemma NegationComplements(alt: Alternative, terms: seq<Term>)
    ensures var yes := Applies(alt.(restriction := Terms(terms)));
            var no := Applies(alt.(restriction := Terms(Negate(terms))));
      if yes.Ok? then no == Ok(!yes.value) else no.Fail?
  {
    hide PatternMatches;
    var flipped := Negate(terms);
    assert forall i :: 0 <= i < |terms| ==> flipped[i].pattern == terms[i].pattern;
    if terms != [] {
      assert terms[0].negated != flipped[0].negated;
      assert AllNegated(flipped, true) <==> AllNegated(terms, false);
      assert AllNegated(flipped, false) <==> AllNegated(terms, true);
      assert SomeMatches(terms) <==> SomeMatches(flipped);
    }
  }

  function Occurrences(provided: seq<Provided>, name: Bytes): seq<Provided> {
    if provided == [] then []
    else (if provided[0].name == name then [provided[0]] else []) + Occurrences(provided[1..], name)
  }

  /** What version of `name` a candidate stands for: its own if it is that package, else
      the one it provides.  A name provided twice is refused. */
  function StandsFor(c: Package, name: Bytes): Result<Option<Option<string>>> {
    if c.name == name then Ok(Some(Some(c.version)))
    else match c.provisions
      case Fail => Fail
      case Ok(provided) =>
        var found := Occurrences(provided, name);
        if |found| > 1 then Fail else if found == [] then Ok(None) else Ok(Some(found[0].version))
  }

  function Matches(ix: Index, alt: Alternative, c: Package): Result<bool> {
    if alt.qualifier.AnyArch? && !c.multiArchAllowed then Ok(false)
    else match StandsFor(c, alt.name)
      case Fail => Fail
      case Ok(None) => Ok(false)
      case Ok(Some(version)) =>
        match alt.constraint
        case Unconstrained => Ok(true)
        case Versioned(op, wanted) =>
          if version.None? then Ok(false) else ix.satisfies(version.value, op, wanted)
  }

  /* ----- one alternative against the index ----- */

  function Matching(ix: Index, alt: Alternative, cs: seq<Package>): seq<Package> {
    if cs == [] then []
    else (if Matches(ix, alt, cs[0]) == Ok(true) then [cs[0]] else []) + Matching(ix, alt, cs[1..])
  }

  function Named(cs: seq<Package>, name: Bytes): seq<Package> {
    if cs == [] then []
    else (if cs[0].name == name then [cs[0]] else []) + Named(cs[1..], name)
  }

  predicate Refused(ix: Index, alt: Alternative) {
    exists c :: c in ix.candidates && Matches(ix, alt, c).Fail?
  }

  /** Direct packages before providers. */
  function Pool(ix: Index, alt: Alternative): seq<Package> {
    var matching := Matching(ix, alt, ix.candidates);
    var direct := Named(matching, alt.name);
    if direct != [] then direct else matching
  }

  /** A selected package, and the pin that was needed to select it. */
  datatype Pick = Nothing | Picked(package: Package, pinned: bool)

  function PickFrom(ix: Index, alt: Alternative): Result<Pick> {
    var pool := Pool(ix, alt);
    if Refused(ix, alt) then Fail
    else if |pool| == 0 then Ok(Nothing)
    else if |pool| == 1 then Ok(Picked(pool[0], false))
    else if alt.name !in ix.pins then Fail
    else
      var pinned := Named(pool, ix.pins[alt.name]);
      if |pinned| == 1 then Ok(Picked(pinned[0], true)) else Fail
  }

  /* ----- one group ----- */

  datatype Decision = NotApplicable | Chosen(alternative: nat, package: Package, pinned: bool)

  /** The first applicable alternative that some candidate satisfies, from the `i`th on.
      A group with an applicable alternative and no candidate is unresolved. */
  function ChooseFrom(ix: Index, group: seq<Alternative>, i: nat, applicable: bool): Result<Decision>
    requires i <= |group|
    decreases |group| - i
  {
    if i == |group| then (if applicable then Fail else Ok(NotApplicable))
    else match Applies(group[i])
      case Fail => Fail
      case Ok(false) => ChooseFrom(ix, group, i + 1, applicable)
      case Ok(true) =>
        match PickFrom(ix, group[i])
        case Fail => Fail
        case Ok(Nothing) => ChooseFrom(ix, group, i + 1, true)
        case Ok(Picked(p, pinned)) => Ok(Chosen(i, p, pinned))
  }

  function Choose(ix: Index, group: seq<Alternative>): Result<Decision> { ChooseFrom(ix, group, 0, false) }

  /* ----- one package ----- */

  datatype Field = Depends | PreDepends

  datatype Choice = Choice(field: Field, group: nat, alternative: nat, package: Package, pin: Option<Bytes>)

  function ChoiceOf(field: Field, group: seq<Alternative>, k: nat, d: Decision): seq<Choice> {
    if d.Chosen? && d.alternative < |group|
    then [Choice(field, k, d.alternative, d.package, if d.pinned then Some(group[d.alternative].name) else None)]
    else []
  }

  /** The decisions for the groups of one field, from the `k`th on. */
  function FieldChoices(ix: Index, field: Field, groups: seq<seq<Alternative>>, k: nat): Result<seq<Choice>>
    requires k <= |groups|
    decreases |groups| - k
  {
    if k == |groups| then Ok([])
    else match (Choose(ix, groups[k]), FieldChoices(ix, field, groups, k + 1))
      case (Ok(d), Ok(rest)) => Ok(ChoiceOf(field, groups[k], k, d) + rest)
      case _ => Fail
  }

  function Choices(ix: Index, p: Package): Result<seq<Choice>> {
    if p.depends.Fail? || p.preDepends.Fail? then Fail
    else match (FieldChoices(ix, Depends, p.depends.value, 0), FieldChoices(ix, PreDepends, p.preDepends.value, 0))
      case (Ok(a), Ok(b)) => Ok(a + b)
      case _ => Fail
  }

  /* ----- the closure ----- */

  /** What is recorded about one group of a selected package. */
  datatype Edge = Edge(field: Field, group: nat, alternative: nat, packageId: Bytes)

  datatype Selected = Selected(package: Package, resolutions: seq<Edge>)

  function Recorded(choices: seq<Choice>): (edges: seq<Edge>)
    ensures |edges| == |choices|
  {
    seq(|choices|, i requires 0 <= i < |choices| =>
      Edge(choices[i].field, choices[i].group, choices[i].alternative, choices[i].package.id))
  }

  function Targets(choices: seq<Choice>): (ps: seq<Package>)
    ensures |ps| == |choices|
    ensures forall i :: 0 <= i < |ps| ==> ps[i] == choices[i].package
  {
    seq(|choices|, i requires 0 <= i < |choices| => choices[i].package)
  }

  function PinsOf(choices: seq<Choice>): set<Bytes> {
    set c | c in choices && c.pin.Some? :: c.pin.value
  }

  predicate DistinctIds(ps: seq<Package>) {
    forall i, j :: 0 <= i < j < |ps| ==> ps[i].id != ps[j].id
  }

  /** Each seed names exactly one candidate. */
  predicate SeedsResolve(ix: Index, seeds: seq<Bytes>) {
    forall i :: 0 <= i < |seeds| ==> |Named(ix.candidates, seeds[i])| == 1
  }

  predicate Accepted(ix: Index, seeds: seq<Bytes>) {
    seeds != [] && Increasing(seeds) && DistinctIds(ix.candidates) && SeedsResolve(ix, seeds)
  }

  function SeedPackages(ix: Index, seeds: seq<Bytes>): (ps: seq<Package>)
    requires SeedsResolve(ix, seeds)
    ensures |ps| == |seeds|
  {
    seq(|seeds|, i requires 0 <= i < |seeds| => Named(ix.candidates, seeds[i])[0])
  }

  /** Every group of every member is decided, and decided within the set. */
  predicate Closed(ix: Index, s: set<Package>) {
    forall p :: p in s ==> Choices(ix, p).Ok? && forall q :: q in Targets(Choices(ix, p).value) ==> q in s
  }

  /** The smallest closed set that holds the seeds. */
  ghost predicate Least(ix: Index, seeds: seq<Bytes>, s: set<Package>)
    requires SeedsResolve(ix, seeds)
  {
    && Closed(ix, s) && (forall p :: p in SeedPackages(ix, seeds) ==> p in s)
    && forall t :: Closed(ix, t) && (forall p :: p in SeedPackages(ix, seeds) ==> p in t) ==> s <= t
  }

  function UsedPins(ix: Index, s: set<Package>): set<Bytes> {
    set p, n | p in s && Choices(ix, p).Ok? && n in PinsOf(Choices(ix, p).value) :: n
  }

  datatype Closure = Closure(selected: map<Bytes, Selected>, seedIds: seq<Bytes>)

  function Packages(c: Closure): set<Package> { set k | k in c.selected :: c.selected[k].package }

  /** Each selected package under its own identity, with the decisions taken for it. */
  predicate RecordsChoices(ix: Index, selected: map<Bytes, Selected>) {
    forall k :: k in selected ==>
      && selected[k].package.id == k && Choices(ix, selected[k].package).Ok?
      && selected[k].resolutions == Recorded(Choices(ix, selected[k].package).value)
  }

  function Ids(ps: seq<Package>): (ids: seq<Bytes>)
    ensures |ids| == |ps|
  {
    seq(|ps|, i requires 0 <= i < |ps| => ps[i].id)
  }

  /** What resolving must return, said without naming an order of work: the least closed
      set, provided there is one and every pin was needed. */
  ghost predicate Resolves(ix: Index, seeds: seq<Bytes>, r: Result<Closure>) {
    match r
    case Ok(c) =>
      && Accepted(ix, seeds) && RecordsChoices(ix, c.selected)
      && Least(ix, seeds, Packages(c)) && UsedPins(ix, Packages(c)) == ix.pins.Keys
      && c.seedIds == Sort(Ids(SeedPackages(ix, seeds)))
    case Fail =>
      !Accepted(ix, seeds) || forall s :: Least(ix, seeds, s) ==> UsedPins(ix, s) != ix.pins.Keys
  }
}
