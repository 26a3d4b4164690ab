/** What resolving returns, said over the packages' own dependency groups: which groups lead
    where, what a closure records, and which answer there is. */
module ResolverSpec {
  import opened ByteStrings
  import opened Sorting
  import Folds
  import opened Resolver
  import opened ResolverRun
  import opened ResolverLaws

  /* ----- one alternative ----- */

  /** The patterns that stand for linux/arm64. */
  predicate NamesTarget(pattern: string) { pattern in {"any", "arm64", "linux-any", "any-arm64"} }

  /** A list of plain terms applies when one of them names the target, a list of negated terms
      when none does; a mixed, empty or malformed list is refused. */
  lemma AppliesExact(alt: Alternative)
    ensures alt.restriction.Unrestricted? ==> Applies(alt) == Ok(true)
    ensures alt.restriction.Malformed? ==> Applies(alt) == Fail
    ensures alt.restriction.Terms? ==> var terms := alt.restriction.terms;
      && (Applies(alt).Fail? <==> terms == [] || ((exists t :: t in terms && t.negated) && (exists t :: t in terms && !t.negated)))
      && (terms != [] && (forall t :: t in terms ==> !t.negated) ==>
            Applies(alt).Ok? && (Applies(alt).value <==> exists t :: t in terms && NamesTarget(t.pattern)))
      && (terms != [] && (forall t :: t in terms ==> t.negated) ==>
            Applies(alt).Ok? && (Applies(alt).value <==> forall t :: t in terms ==> !NamesTarget(t.pattern)))
  {
    if alt.restriction.Terms? {
      var terms := alt.restriction.terms;
      hide SomeMatches, NamesTarget;
      Targeted(terms);
      assert AllNegated(terms, true) <==> forall t :: t in terms ==> t.negated;
      assert AllNegated(terms, false) <==> forall t :: t in terms ==> !t.negated;
      if terms != [] { assert terms[0] in terms; }
    }
  }

  lemma Targeted(terms: seq<Term>)
    ensures SomeMatches(terms) <==> exists t :: t in terms && NamesTarget(t.pattern)
  {
    forall s: string ensures PatternMatches(s) <==> NamesTarget(s) {
      assert TARGET_OS + "-any" == "linux-any" && "any-" + TARGET_ARCHITECTURE == "any-arm64";
    }
    if SomeMatches(terms) {
      var i :| 0 <= i < |terms| && PatternMatches(terms[i].pattern);
      assert terms[i] in terms;
    }
  }

  /** The name is provided at this position and nowhere else. */
  predicate OnlyAt(provided: seq<Provided>, name: Bytes, i: nat) {
    i < |provided| && forall j :: 0 <= j < |provided| ==> (provided[j].name == name <==> j == i)
  }

  predicate Twice(provided: seq<Provided>, name: Bytes) {
    exists i, j :: 0 <= i < j < |provided| && provided[i].name == name && provided[j].name == name
  }

  predicate Provides(provided: seq<Provided>, name: Bytes) { exists i :: 0 <= i < |provided| && provided[i].name == name }

  lemma ProvidesTail(provided: seq<Provided>, name: Bytes)
    requires provided != []
    ensures Provides(provided, name) <==> provided[0].name == name || Provides(provided[1..], name)
    ensures Twice(provided, name) <==> Twice(provided[1..], name) || (provided[0].name == name && Provides(provided[1..], name))
  {
    var rest := provided[1..];
    assert forall i :: 0 < i < |provided| ==> provided[i] == rest[i - 1];
    if i :| 0 <= i < |rest| && rest[i].name == name { assert provided[i + 1].name == name; }
    if i, j :| 0 <= i < j < |rest| && rest[i].name == name && rest[j].name == name { assert provided[i + 1].name == name && provided[j + 1].name == name; }
    if i, j :| 0 <= i < j < |provided| && provided[i].name == name && provided[j].name == name {
      assert rest[j - 1].name == name;
      if i > 0 { assert rest[i - 1].name == name; }
    }
  }

  lemma {:induction false} OccurrencesMany(provided: seq<Provided>, name: Bytes)
    ensures Occurrences(provided, name) != [] <==> Provides(provided, name)
    ensures |Occurrences(provided, name)| > 1 <==> Twice(provided, name)
    decreases |provided|
  {
    if provided != [] {
      hide Provides, Twice;
      OccurrencesMany(provided[1..], name);
      ProvidesTail(provided, name);
    }
  }

  lemma {:induction false} OccurrencesOne(provided: seq<Provided>, name: Bytes, i: nat)
    requires OnlyAt(provided, name, i)
    ensures Occurrences(provided, name) == [provided[i]]
    decreases |provided|
  {
    var rest := provided[1..];
    assert forall j :: 0 < j < |provided| ==> provided[j] == rest[j - 1];
    if i == 0 { OccurrencesMany(rest, name); } else { OccurrencesOne(rest, name, i - 1); }
  }

  lemma OccurrencesExact(provided: seq<Provided>, name: Bytes)
    ensures Occurrences(provided, name) != [] <==> Provides(provided, name)
    ensures |Occurrences(provided, name)| > 1 <==> Twice(provided, name)
    ensures forall i: nat :: OnlyAt(provided, name, i) ==> Occurrences(provided, name) == [provided[i]]
    ensures |Occurrences(provided, name)| == 1 ==> exists i: nat :: OnlyAt(provided, name, i)
  {
    hide Occurrences;
    OccurrencesMany(provided, name);
    forall i: nat | OnlyAt(provided, name, i) ensures Occurrences(provided, name) == [provided[i]] { OccurrencesOne(provided, name, i); }
    if |Occurrences(provided, name)| == 1 {
      var i: nat :| i < |provided| && provided[i].name == name;
      assert OnlyAt(provided, name, i);
    }
  }

  /** The version a package is looked at with satisfies the constraint. */
  ghost predicate VersionFits(ix: Index, constraint: Constraint, version: Option<string>) {
    constraint.Unconstrained? || (version.Some? && ix.satisfies(version.value, constraint.op, constraint.version) == Ok(true))
  }

  ghost predicate VersionRefused(ix: Index, constraint: Constraint, version: Option<string>) {
    constraint.Versioned? && version.Some? && ix.satisfies(version.value, constraint.op, constraint.version).Fail?
  }

  ghost predicate ProvidesFit(ix: Index, alt: Alternative, provided: seq<Provided>) {
    exists i: nat :: OnlyAt(provided, alt.name, i) && VersionFits(ix, alt.constraint, provided[i].version)
  }

  ghost predicate ProvidesRefused(ix: Index, alt: Alternative, provided: seq<Provided>) {
    exists i: nat :: OnlyAt(provided, alt.name, i) && VersionRefused(ix, alt.constraint, provided[i].version)
  }

  /** A candidate satisfies an alternative exactly when it may stand in for a foreign
      architecture if asked to, and is the named package at its own version, or provides the
      name once at a version, that the constraint admits.  It is an error exactly when the
      provisions are refused or repeat the name, or the comparison is refused. */
  lemma MatchesExact(ix: Index, alt: Alternative, c: Package)
    ensures Matches(ix, alt, c) == Ok(true) <==>
      && (alt.qualifier == AnyArch ==> c.multiArchAllowed)
      && (if c.name == alt.name then VersionFits(ix, alt.constraint, Some(c.version))
          else c.provisions.Ok? && ProvidesFit(ix, alt, c.provisions.value))
    ensures Matches(ix, alt, c).Fail? <==>
      && (alt.qualifier == AnyArch ==> c.multiArchAllowed)
      && (if c.name == alt.name then VersionRefused(ix, alt.constraint, Some(c.version))
          else c.provisions.Fail? || Twice(c.provisions.value, alt.name)
               || ProvidesRefused(ix, alt, c.provisions.value))
  {
    if c.name != alt.name && c.provisions.Ok? {
      hide Occurrences, OnlyAt, Twice;
      var provided := c.provisions.value;
      OccurrencesExact(provided, alt.name);
      var found := Occurrences(provided, alt.name);
      if |found| == 1 {
        var i: nat :| OnlyAt(provided, alt.name, i);
        OnlyInside(provided, alt.name, i);
        assert found == [provided[i]];
      }
    }
  }

  lemma OnlyInside(provided: seq<Provided>, name: Bytes, i: nat)
    requires OnlyAt(provided, name, i)
    ensures i < |provided|
  {
  }

  /* ----- one package ----- */

  /** Both fields were understood and every group of both is decided. */
  predicate Settled(ix: Index, p: Package) {
    && p.depends.Ok? && p.preDepends.Ok?
    && (forall g :: g in p.depends.value ==> Choose(ix, g).Ok?) && (forall g :: g in p.preDepends.value ==> Choose(ix, g).Ok?)
  }

  /** The group is decided by this alternative, for this package, with or without a pin. */
  predicate Leads(ix: Index, g: seq<Alternative>, alternative: nat, q: Package, pinned: bool) {
    Choose(ix, g) == Ok(Chosen(alternative, q, pinned))
  }

  /** One decision of one group of one of the two fields. */
  predicate DecidedBy(ix: Index, p: Package, c: Choice)
    requires p.depends.Ok? && p.preDepends.Ok?
  {
    var groups := if c.field == Depends then p.depends.value else p.preDepends.value;
    && c.group < |groups| && c.alternative < |groups[c.group]|
    && Leads(ix, groups[c.group], c.alternative, c.package, c.pin.Some?)
    && (c.pin.Some? ==> c.pin.value == groups[c.group][c.alternative].name)
  }

  /** Depends before Pre-Depends, and each in the order of its groups. */
  predicate Before(a: Field, i: nat, b: Field, j: nat) { (a == Depends && b == PreDepends) || (a == b && i < j) }

  lemma {:induction false} FieldExact(ix: Index, field: Field, groups: seq<seq<Alternative>>, k: nat)
    requires k <= |groups|
    ensures FieldChoices(ix, field, groups, k).Ok? <==> forall j :: k <= j < |groups| ==> Choose(ix, groups[j]).Ok?
    ensures FieldChoices(ix, field, groups, k).Ok? ==> var cs := FieldChoices(ix, field, groups, k).value;
      && (forall i, j :: 0 <= i < j < |cs| ==> cs[i].group < cs[j].group)
      && (forall c :: c in cs <==> FromGroup(ix, field, groups, k, c))
    decreases |groups| - k
  {
    hide Choose;
    if k < |groups| {
      FieldExact(ix, field, groups, k + 1);
      if Choose(ix, groups[k]).Ok? && FieldChoices(ix, field, groups, k + 1).Ok? {
        FieldStep(ix, field, groups, k);
      }
    }
  }

  predicate FromGroup(ix: Index, field: Field, groups: seq<seq<Alternative>>, k: nat, c: Choice) {
    && c.field == field && k <= c.group < |groups| && c.alternative < |groups[c.group]|
    && Leads(ix, groups[c.group], c.alternative, c.package, c.pin.Some?)
    && (c.pin.Some? ==> c.pin.value == groups[c.group][c.alternative].name)
  }

  lemma FieldStep(ix: Index, field: Field, groups: seq<seq<Alternative>>, k: nat)
    requires k < |groups| && Choose(ix, groups[k]).Ok? && FieldChoices(ix, field, groups, k + 1).Ok?
    requires var cs := FieldChoices(ix, field, groups, k + 1).value;
      (forall i, j :: 0 <= i < j < |cs| ==> cs[i].group < cs[j].group) && (forall c :: c in cs <==> FromGroup(ix, field, groups, k + 1, c))
    ensures FieldChoices(ix, field, groups, k).Ok?
    ensures var cs := FieldChoices(ix, field, groups, k).value;
      (forall i, j :: 0 <= i < j < |cs| ==> cs[i].group < cs[j].group) && (forall c :: c in cs <==> FromGroup(ix, field, groups, k, c))
  {
    var d := Choose(ix, groups[k]).value;
    ChosenIsCandidate(ix, groups[k], 0, false);
    hide Choose;
    var head, rest := ChoiceOf(field, groups[k], k, d), FieldChoices(ix, field, groups, k + 1).value;
    var cs := FieldChoices(ix, field, groups, k).value;
    assert cs == head + rest;
    forall c ensures c in head <==> FromGroup(ix, field, groups, k, c) && c.group == k { HeadChoice(ix, field, groups, k, d, c); }
    forall c ensures FromGroup(ix, field, groups, k, c) <==> FromGroup(ix, field, groups, k + 1, c) || (FromGroup(ix, field, groups, k, c) && c.group == k) {
      FromNext(ix, field, groups, k, c);
    }
    hide FromGroup, ChoiceOf;
    forall c ensures c in cs <==> FromGroup(ix, field, groups, k, c) { assert c in cs <==> c in head || c in rest; }
    assert |head| <= 1 by { OneChoice(field, groups[k], k, d); }
    forall c | c in rest ensures c.group > k { LaterGroup(ix, field, groups, k + 1, c); }
    InOrder(head, rest, k);
  }

  lemma OneChoice(field: Field, group: seq<Alternative>, k: nat, d: Decision)
    ensures |ChoiceOf(field, group, k, d)| <= 1
  {
  }

  lemma LaterGroup(ix: Index, field: Field, groups: seq<seq<Alternative>>, k: nat, c: Choice)
    requires FromGroup(ix, field, groups, k, c)
    ensures c.group >= k
  {
  }

  lemma FromNext(ix: Index, field: Field, groups: seq<seq<Alternative>>, k: nat, c: Choice)
    ensures FromGroup(ix, field, groups, k, c) <==> FromGroup(ix, field, groups, k + 1, c) || (FromGroup(ix, field, groups, k, c) && c.group == k)
  {
    hide Leads;
  }

  lemma InOrder(head: seq<Choice>, rest: seq<Choice>, k: nat)
    requires |head| <= 1 && (forall c :: c in head ==> c.group == k) && (forall c :: c in rest ==> c.group > k)
    requires forall i, j :: 0 <= i < j < |rest| ==> rest[i].group < rest[j].group
    ensures forall i, j :: 0 <= i < j < |head + rest| ==> (head + rest)[i].group < (head + rest)[j].group
  {
    var cs := head + rest;
    forall i, j | 0 <= i < j < |cs| ensures cs[i].group < cs[j].group {
      assert cs[j] == rest[j - |head|] && cs[j] in rest;
      if i < |head| { assert cs[i] == head[i] && cs[i] in head; } else { assert cs[i] == rest[i - |head|]; }
    }
  }

  lemma HeadChoice(ix: Index, field: Field, groups: seq<seq<Alternative>>, k: nat, d: Decision, c: Choice)
    requires k < |groups| && Choose(ix, groups[k]) == Ok(d) && (d.Chosen? ==> d.alternative < |groups[k]|)
    ensures c in ChoiceOf(field, groups[k], k, d) <==> FromGroup(ix, field, groups, k, c) && c.group == k
  {
    hide Choose;
    if d.Chosen? {
      var own := ChoiceOf(field, groups[k], k, d)[0];
      if FromGroup(ix, field, groups, k, c) && c.group == k { assert c.pin == own.pin && c == own; }
    }
  }

  /** The choices fail exactly when a field was refused or some group of either field has no
      decision.  Otherwise they are, in order, exactly the decisions of the groups of the two
      fields. */
  lemma ChoicesExact(ix: Index, p: Package)
    ensures Choices(ix, p).Ok? <==> Settled(ix, p)
    ensures Settled(ix, p) ==> var cs := Choices(ix, p).value;
      && (forall i, j :: 0 <= i < j < |cs| ==> Before(cs[i].field, cs[i].group, cs[j].field, cs[j].group))
      && (forall c :: c in cs <==> DecidedBy(ix, p, c))
  {
    hide FieldChoices, Choose;
    if p.depends.Ok? && p.preDepends.Ok? {
      FieldExact(ix, Depends, p.depends.value, 0);
      FieldExact(ix, PreDepends, p.preDepends.value, 0);
      assert (forall g :: g in p.depends.value ==> Choose(ix, g).Ok?) <==> forall j :: 0 <= j < |p.depends.value| ==> Choose(ix, p.depends.value[j]).Ok?;
      assert (forall g :: g in p.preDepends.value ==> Choose(ix, g).Ok?)
        <==> forall j :: 0 <= j < |p.preDepends.value| ==> Choose(ix, p.preDepends.value[j]).Ok?;
      if Settled(ix, p) { BothFields(ix, p); }
    }
  }

  lemma BothFields(ix: Index, p: Package)
    requires p.depends.Ok? && p.preDepends.Ok?
    requires FieldChoices(ix, Depends, p.depends.value, 0).Ok? && FieldChoices(ix, PreDepends, p.preDepends.value, 0).Ok?
    requires var a, b := FieldChoices(ix, Depends, p.depends.value, 0).value, FieldChoices(ix, PreDepends, p.preDepends.value, 0).value;
      && (forall i, j :: 0 <= i < j < |a| ==> a[i].group < a[j].group) && (forall i, j :: 0 <= i < j < |b| ==> b[i].group < b[j].group)
      && (forall c :: c in a <==> FromGroup(ix, Depends, p.depends.value, 0, c))
      && (forall c :: c in b <==> FromGroup(ix, PreDepends, p.preDepends.value, 0, c))
    ensures Choices(ix, p).Ok?
    ensures var cs := Choices(ix, p).value;
      && (forall i, j :: 0 <= i < j < |cs| ==> Before(cs[i].field, cs[i].group, cs[j].field, cs[j].group))
      && (forall c :: c in cs <==> DecidedBy(ix, p, c))
  {
    hide FieldChoices, Choose;
    var a, b := FieldChoices(ix, Depends, p.depends.value, 0).value, FieldChoices(ix, PreDepends, p.preDepends.value, 0).value;
    var cs := Choices(ix, p).value;
    assert cs == a + b;
    forall i | 0 <= i < |cs| ensures cs[i].field == if i < |a| then Depends else PreDepends {
      if i < |a| { assert cs[i] in a; } else { assert cs[i] == b[i - |a|] && cs[i] in b; }
    }
    forall c ensures c in cs <==> DecidedBy(ix, p, c) { assert c in cs <==> c in a || c in b; }
  }

  /* ----- closed sets, records and pins over the groups ----- */

  /** Every decision of a group of either field stays within the set. */
  ghost predicate LeadsWithin(ix: Index, p: Package, s: set<Package>)
    requires p.depends.Ok? && p.preDepends.Ok?
  {
    && (forall g, a: nat, q, pinned :: g in p.depends.value && Leads(ix, g, a, q, pinned) ==> q in s)
    && (forall g, a: nat, q, pinned :: g in p.preDepends.value && Leads(ix, g, a, q, pinned) ==> q in s)
  }

  /** Every group of both fields of every member is decided, and decided within the set. */
  ghost predicate ClosedGroups(ix: Index, s: set<Package>) { forall p :: p in s ==> Settled(ix, p) && LeadsWithin(ix, p, s) }

  lemma TargetsExact(ix: Index, p: Package, s: set<Package>)
    requires Settled(ix, p) && Choices(ix, p).Ok?
    ensures (forall q :: q in Targets(Choices(ix, p).value) ==> q in s) <==> LeadsWithin(ix, p, s)
  {
    hide Choices, Choose;
    ChoicesExact(ix, p);
    var cs := Choices(ix, p).value;
    if forall q :: q in Targets(cs) ==> q in s {
      forall g, a: nat, q, pinned | g in p.depends.value && Leads(ix, g, a, q, pinned) ensures q in s {
        var k :| 0 <= k < |p.depends.value| && p.depends.value[k] == g;
        LedTo(ix, p, Depends, k, a, q, pinned);
      }
      forall g, a: nat, q, pinned | g in p.preDepends.value && Leads(ix, g, a, q, pinned) ensures q in s {
        var k :| 0 <= k < |p.preDepends.value| && p.preDepends.value[k] == g;
        LedTo(ix, p, PreDepends, k, a, q, pinned);
      }
    } else {
      var i :| 0 <= i < |cs| && cs[i].package !in s;
      assert cs[i] in cs && DecidedBy(ix, p, cs[i]);
    }
  }

  lemma LedTo(ix: Index, p: Package, field: Field, k: nat, a: nat, q: Package, pinned: bool)
    requires Settled(ix, p) && Choices(ix, p).Ok?
    requires var groups := if field == Depends then p.depends.value else p.preDepends.value; k < |groups| && Leads(ix, groups[k], a, q, pinned)
    ensures q in Targets(Choices(ix, p).value)
  {
    hide Choices;
    var groups := if field == Depends then p.depends.value else p.preDepends.value;
    ChosenIsCandidate(ix, groups[k], 0, false);
    hide Choose;
    ChoicesExact(ix, p);
    var c := Choice(field, k, a, q, if pinned then Some(groups[k][a].name) else None);
    assert DecidedBy(ix, p, c);
    var cs := Choices(ix, p).value;
    var i :| 0 <= i < |cs| && cs[i] == c;
    assert Targets(cs)[i] == q;
  }

  lemma ClosedExact(ix: Index, s: set<Package>)
    ensures Closed(ix, s) <==> ClosedGroups(ix, s)
  {
    hide Choices, Choose, LeadsWithin;
    forall p ensures Choices(ix, p).Ok? <==> Settled(ix, p) { ChoicesExact(ix, p); }
    forall p | Settled(ix, p) ensures (forall q :: q in Targets(Choices(ix, p).value) ==> q in s) <==> LeadsWithin(ix, p, s) {
      TargetsExact(ix, p, s);
    }
  }

  /** One edge: a group of a field, the alternative that decided it, and the identity it led to. */
  ghost predicate EdgeFrom(ix: Index, p: Package, e: Edge, q: Package, pinned: bool)
    requires p.depends.Ok? && p.preDepends.Ok?
  {
    var groups := if e.field == Depends then p.depends.value else p.preDepends.value;
    e.group < |groups| && Leads(ix, groups[e.group], e.alternative, q, pinned) && e.packageId == q.id
  }

  predicate OrderedEdges(edges: seq<Edge>) {
    forall i, j :: 0 <= i < j < |edges| ==> Before(edges[i].field, edges[i].group, edges[j].field, edges[j].group)
  }

  /** What is recorded for a package: one edge for each group that led somewhere, in order. */
  ghost predicate RecordsGroups(ix: Index, p: Package, edges: seq<Edge>) {
    && Settled(ix, p) && OrderedEdges(edges)
    && forall e :: e in edges <==> exists q, pinned :: EdgeFrom(ix, p, e, q, pinned)
  }

  lemma RecordedGroups(ix: Index, p: Package)
    requires Choices(ix, p).Ok?
    ensures RecordsGroups(ix, p, Recorded(Choices(ix, p).value))
  {
    hide Choices, Choose;
    ChoicesExact(ix, p);
    var cs := Choices(ix, p).value;
    var edges := Recorded(cs);
    forall e ensures e in edges <==> exists q, pinned :: EdgeFrom(ix, p, e, q, pinned) {
      if e in edges {
        var i :| 0 <= i < |edges| && edges[i] == e;
        assert cs[i] in cs;
        assert EdgeFrom(ix, p, e, cs[i].package, cs[i].pin.Some?);
      }
      if q, pinned :| EdgeFrom(ix, p, e, q, pinned) { EdgeRecorded(ix, p, e, q, pinned); }
    }
  }

  lemma EdgeRecorded(ix: Index, p: Package, e: Edge, q: Package, pinned: bool)
    requires Settled(ix, p) && Choices(ix, p).Ok? && EdgeFrom(ix, p, e, q, pinned)
    ensures e in Recorded(Choices(ix, p).value)
  {
    hide Choices;
    var groups := if e.field == Depends then p.depends.value else p.preDepends.value;
    ChosenIsCandidate(ix, groups[e.group], 0, false);
    hide Choose;
    ChoicesExact(ix, p);
    var c := Choice(e.field, e.group, e.alternative, q, if pinned then Some(groups[e.group][e.alternative].name) else None);
    assert DecidedBy(ix, p, c);
    var cs := Choices(ix, p).value;
    var i :| 0 <= i < |cs| && cs[i] == c;
    assert Recorded(cs)[i] == e;
  }

  lemma {:induction false} OrderedUnique(a: seq<Edge>, b: seq<Edge>)
    requires OrderedEdges(a) && OrderedEdges(b) && forall e :: e in a <==> e in b
    ensures a == b
    decreases |a|
  {
    HasFirst(a);
    HasFirst(b);
    if a != [] {
      assert a[0] in b && b[0] in a;
      var i :| 0 <= i < |b| && b[i] == a[0];
      var j :| 0 <= j < |a| && a[j] == b[0];
      assert a[0] == b[0];
      assert a == [a[0]] + a[1..] && b == [b[0]] + b[1..];
      FirstOnly(a);
      FirstOnly(b);
      forall e ensures e in a[1..] <==> e in b[1..] {
        assert e in a <==> e == a[0] || e in a[1..];
        assert e in b <==> e == b[0] || e in b[1..];
      }
      OrderedUnique(a[1..], b[1..]);
    }
  }

  lemma HasFirst(a: seq<Edge>)
    ensures a != [] ==> a[0] in a
    ensures a == [] <==> forall e :: e !in a
  {
    if a != [] { assert a[0] in a; }
  }

  lemma FirstOnly(a: seq<Edge>)
    requires a != [] && OrderedEdges(a)
    ensures OrderedEdges(a[1..]) && a[0] !in a[1..]
  {
  }

  /** The record of a package is determined by its groups. */
  lemma RecordExact(ix: Index, p: Package, edges: seq<Edge>)
    ensures (Choices(ix, p).Ok? && edges == Recorded(Choices(ix, p).value)) <==> RecordsGroups(ix, p, edges)
  {
    hide Choices, Recorded, EdgeFrom, Choose;
    ChoicesExact(ix, p);
    if Choices(ix, p).Ok? {
      RecordedGroups(ix, p);
      if RecordsGroups(ix, p, edges) { OrderedUnique(edges, Recorded(Choices(ix, p).value)); }
    }
  }

  /** Some group of the package was decided by the pin for this name. */
  ghost predicate PinNeeded(ix: Index, p: Package, n: Bytes) {
    && p.depends.Ok? && p.preDepends.Ok?
    && exists g: seq<Alternative>, a: nat, q :: (g in p.depends.value || g in p.preDepends.value) && Leads(ix, g, a, q, true) && a < |g| && g[a].name == n
  }

  lemma PinsExact(ix: Index, p: Package, n: Bytes)
    requires Choices(ix, p).Ok?
    ensures n in PinsOf(Choices(ix, p).value) <==> PinNeeded(ix, p, n)
  {
    hide Choices, Choose;
    ChoicesExact(ix, p);
    var cs := Choices(ix, p).value;
    if n in PinsOf(cs) {
      var c :| c in cs && c.pin.Some? && c.pin.value == n;
      var groups := if c.field == Depends then p.depends.value else p.preDepends.value;
      assert groups[c.group] in groups;
      assert Leads(ix, groups[c.group], c.alternative, c.package, true);
    }
    if PinNeeded(ix, p, n) {
      var g: seq<Alternative>, a: nat, q :| (g in p.depends.value || g in p.preDepends.value) && Leads(ix, g, a, q, true) && a < |g| && g[a].name == n;
      var field := if g in p.depends.value then Depends else PreDepends;
      var groups := if field == Depends then p.depends.value else p.preDepends.value;
      var k :| 0 <= k < |groups| && groups[k] == g;
      var c := Choice(field, k, a, q, Some(n));
      assert DecidedBy(ix, p, c);
    }
  }

  lemma UsedPinsExact(ix: Index, s: set<Package>, n: Bytes)
    requires Closed(ix, s)
    ensures n in UsedPins(ix, s) <==> exists p :: p in s && PinNeeded(ix, p, n)
  {
    hide Choices, PinsOf, PinNeeded;
    forall p | p in s ensures n in PinsOf(Choices(ix, p).value) <==> PinNeeded(ix, p, n) { PinsExact(ix, p, n); }
  }

  /* ----- the seeds ----- */

  /** The only candidate of that name. */
  ghost predicate SeedOf(ix: Index, name: Bytes, p: Package) {
    p in ix.candidates && p.name == name && forall q :: q in ix.candidates && q.name == name ==> q == p
  }

  lemma SeedExact(ix: Index, name: Bytes, p: Package)
    requires DistinctIds(ix.candidates)
    ensures Named(ix.candidates, name) == [p] <==> SeedOf(ix, name, p)
    ensures |Named(ix.candidates, name)| == 1 ==> SeedOf(ix, name, Named(ix.candidates, name)[0])
  {
    hide Named, DistinctIds, Distinct;
    IdsDistinct(ix.candidates);
    NamedDistinct(ix.candidates, name);
    var found := Named(ix.candidates, name);
    forall q ensures q in found <==> q in ix.candidates && q.name == name { NamedMembers(ix.candidates, name, q); }
    if SeedOf(ix, name, p) { Singleton(found, p); }
    if |found| == 1 { assert found[0] in found && found == [found[0]]; }
  }

  /** Seeds are asked for in order, without repetition, each naming one candidate. */
  ghost predicate Asked(ix: Index, seeds: seq<Bytes>) {
    seeds != [] && Increasing(seeds) && DistinctIds(ix.candidates) && forall i :: 0 <= i < |seeds| ==> NamesOne(ix, seeds[i])
  }

  ghost predicate NamesOne(ix: Index, name: Bytes) { exists p :: SeedOf(ix, name, p) }

  lemma AskedExact(ix: Index, seeds: seq<Bytes>)
    ensures Accepted(ix, seeds) <==> Asked(ix, seeds)
    ensures Accepted(ix, seeds) ==> forall i :: 0 <= i < |seeds| ==> SeedOf(ix, seeds[i], SeedPackages(ix, seeds)[i])
  {
    hide Named, DistinctIds, Increasing, SeedOf;
    if DistinctIds(ix.candidates) {
      forall i | 0 <= i < |seeds| ensures |Named(ix.candidates, seeds[i])| == 1 <==> NamesOne(ix, seeds[i]) {
        var found := Named(ix.candidates, seeds[i]);
        if |found| == 1 { SeedExact(ix, seeds[i], found[0]); }
        if p :| SeedOf(ix, seeds[i], p) { SeedExact(ix, seeds[i], p); }
      }
      forall i, p | 0 <= i < |seeds| ensures Named(ix.candidates, seeds[i]) == [p] <==> SeedOf(ix, seeds[i], p) { SeedExact(ix, seeds[i], p); }
      forall i | 0 <= i < |seeds| && |Named(ix.candidates, seeds[i])| == 1 ensures SeedOf(ix, seeds[i], Named(ix.candidates, seeds[i])[0]) {
        var found := Named(ix.candidates, seeds[i]);
        SeedExact(ix, seeds[i], found[0]);
      }
    }
  }

  ghost predicate IsSeed(ix: Index, seeds: seq<Bytes>, p: Package) { exists i :: 0 <= i < |seeds| && SeedOf(ix, seeds[i], p) }

  lemma SeedsExact(ix: Index, seeds: seq<Bytes>, p: Package)
    requires Accepted(ix, seeds)
    ensures p in SeedPackages(ix, seeds) <==> IsSeed(ix, seeds, p)
  {
    hide Named, DistinctIds, Increasing, SeedPackages;
    AskedExact(ix, seeds);
    var ps := SeedPackages(ix, seeds);
    if p in ps { var i :| 0 <= i < |ps| && ps[i] == p; }
    if i :| 0 <= i < |seeds| && SeedOf(ix, seeds[i], p) { assert ps[i] == p; }
  }

  /** The seeds' identities, in byte order. */
  ghost predicate SeedIds(ix: Index, seeds: seq<Bytes>, ids: seq<Bytes>) {
    Increasing(ids) && forall x :: x in ids <==> exists p :: IsSeed(ix, seeds, p) && p.id == x
  }

  lemma SeedIdsExact(ix: Index, seeds: seq<Bytes>, ids: seq<Bytes>)
    requires Accepted(ix, seeds)
    ensures ids == Sort(Ids(SeedPackages(ix, seeds))) <==> SeedIds(ix, seeds, ids)
  {
    hide Named, SeedPackages, Sort, IsSeed, Increasing, Distinct, DistinctIds;
    var ps := SeedPackages(ix, seeds);
    var own := Ids(ps);
    SeedIdsDistinct(ix, seeds);
    SortSorts(own);
    forall x ensures x in Sort(own) <==> x in own { assert x in multiset(Sort(own)) <==> x in multiset(own); }
    assert |Sort(own)| == |multiset(Sort(own))| == |multiset(own)| == |own|;
    assert Elements(Sort(own)) == Elements(own);
    ElementCount(own);
    ElementCount(Sort(own));
    SortedDistinct(Sort(own));
    forall x ensures x in own <==> exists p :: IsSeed(ix, seeds, p) && p.id == x { OwnId(ix, seeds, x); }
    if SeedIds(ix, seeds, ids) { SameIncreasing(ids, Sort(own)); }
  }

  lemma OwnId(ix: Index, seeds: seq<Bytes>, x: Bytes)
    requires Accepted(ix, seeds)
    ensures x in Ids(SeedPackages(ix, seeds)) <==> exists p :: IsSeed(ix, seeds, p) && p.id == x
  {
    hide IsSeed, SeedPackages, DistinctIds, Increasing, Named;
    var ps := SeedPackages(ix, seeds);
    if x in Ids(ps) {
      var i :| 0 <= i < |ps| && Ids(ps)[i] == x;
      SeedsExact(ix, seeds, ps[i]);
    }
    if p :| IsSeed(ix, seeds, p) && p.id == x {
      SeedsExact(ix, seeds, p);
      var i :| 0 <= i < |ps| && ps[i] == p;
      assert Ids(ps)[i] == x;
    }
  }

  lemma SeedIdsDistinct(ix: Index, seeds: seq<Bytes>)
    requires Accepted(ix, seeds)
    ensures Distinct(Ids(SeedPackages(ix, seeds)))
  {
    hide Named, SeedPackages, DistinctIds;
    AskedExact(ix, seeds);
    IncreasingDistinct(seeds);
    var ps := SeedPackages(ix, seeds);
    forall i, j | 0 <= i < j < |ps| ensures Ids(ps)[i] != Ids(ps)[j] {
      if ps[i].id == ps[j].id { SameIdSamePackage(ix.candidates, ps[i], ps[j]); }
    }
  }

  lemma SameIncreasing(a: seq<Bytes>, b: seq<Bytes>)
    requires Increasing(a) && Increasing(b) && forall x :: x in a <==> x in b
    ensures a == b
  {
    hide Increasing, Distinct, Sort;
    SortedDistinct(a);
    SortedDistinct(b);
    Folds.SameElements(a, b);
    SortPermutation(a, b);
    SortFixpoint(a);
    SortFixpoint(b);
  }

  /* ----- the answer ----- */

  /** The answer to a request: each selected package under its identity with the record of
      its groups, together the smallest set that holds the seeds and is closed under what the
      groups of both fields lead to; every pin, and no other name, decided some group. */
  ghost predicate Answers(ix: Index, seeds: seq<Bytes>, c: Closure) {
    var s := set k | k in c.selected :: c.selected[k].package;
    && Asked(ix, seeds) && SeedIds(ix, seeds, c.seedIds)
    && (forall k :: k in c.selected ==> c.selected[k].package.id == k && RecordsGroups(ix, c.selected[k].package, c.selected[k].resolutions))
    && ClosedGroups(ix, s) && (forall p :: IsSeed(ix, seeds, p) ==> p in s)
    && (forall t :: ClosedGroups(ix, t) && (forall p :: IsSeed(ix, seeds, p) ==> p in t) ==> s <= t)
    && (forall n :: n in ix.pins <==> exists p :: p in s && PinNeeded(ix, p, n))
  }

  lemma AnswersExact(ix: Index, seeds: seq<Bytes>, c: Closure)
    ensures Resolves(ix, seeds, Ok(c)) <==> Answers(ix, seeds, c)
  {
    hide Choices, Recorded, SeedPackages, Accepted, Asked, SeedIds, IsSeed, Sort, RecordsGroups, PinNeeded, ClosedGroups, Closed, UsedPins, Named, SeedsResolve;
    AskedExact(ix, seeds);
    if Accepted(ix, seeds) {
      AcceptedSeeds(ix, seeds);
      SeedIdsExact(ix, seeds, c.seedIds);
      forall k | k in c.selected
        ensures (Choices(ix, c.selected[k].package).Ok? && c.selected[k].resolutions == Recorded(Choices(ix, c.selected[k].package).value))
                <==> RecordsGroups(ix, c.selected[k].package, c.selected[k].resolutions)
      {
        RecordExact(ix, c.selected[k].package, c.selected[k].resolutions);
      }
      assert RecordsChoices(ix, c.selected) <==>
        forall k :: k in c.selected ==> c.selected[k].package.id == k && RecordsGroups(ix, c.selected[k].package, c.selected[k].resolutions);
      LeastExact(ix, seeds, Packages(c));
      if Closed(ix, Packages(c)) {
        forall n ensures n in UsedPins(ix, Packages(c)) <==> exists p :: p in Packages(c) && PinNeeded(ix, p, n) { UsedPinsExact(ix, Packages(c), n); }
        assert UsedPins(ix, Packages(c)) == ix.pins.Keys <==> forall n :: n in ix.pins <==> exists p :: p in Packages(c) && PinNeeded(ix, p, n);
      }
    }
  }

  lemma AcceptedSeeds(ix: Index, seeds: seq<Bytes>)
    requires Accepted(ix, seeds)
    ensures SeedsResolve(ix, seeds)
  {
    hide DistinctIds, Increasing;
  }

  lemma LeastExact(ix: Index, seeds: seq<Bytes>, s: set<Package>)
    requires Accepted(ix, seeds) && SeedsResolve(ix, seeds)
    ensures Least(ix, seeds, s) <==>
      && ClosedGroups(ix, s) && (forall p :: IsSeed(ix, seeds, p) ==> p in s)
      && (forall t :: ClosedGroups(ix, t) && (forall p :: IsSeed(ix, seeds, p) ==> p in t) ==> s <= t)
    ensures Closed(ix, s) <==> ClosedGroups(ix, s)
  {
    hide Closed, ClosedGroups, IsSeed, SeedPackages, Accepted, SeedsResolve;
    forall t ensures Closed(ix, t) <==> ClosedGroups(ix, t) { ClosedExact(ix, t); }
    forall p ensures p in SeedPackages(ix, seeds) <==> IsSeed(ix, seeds, p) { SeedsExact(ix, seeds, p); }
  }

  /** Whatever resolving returns is the one answer, and it fails exactly when there is none. */
  lemma ResolvesExact(ix: Index, seeds: seq<Bytes>, r: Result<Closure>)
    requires Resolves(ix, seeds, r)
    ensures r.Ok? ==> Answers(ix, seeds, r.value)
    ensures forall c :: Answers(ix, seeds, c) ==> r == Ok(c)
  {
    hide Resolves, Answers;
    if r.Ok? { AnswersExact(ix, seeds, r.value); }
    forall c | Answers(ix, seeds, c) ensures r == Ok(c) {
      AnswersExact(ix, seeds, c);
      OutcomeUnique(ix, seeds, r, Ok(c));
    }
  }
}
