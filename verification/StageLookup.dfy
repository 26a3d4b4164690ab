/** Lookup is blind to times, survives growth of the tree, and finds what was just placed. */
module StageLookup {
  import opened ByteStrings
  import opened Paths
  import opened Initrd
  import opened StagePlan
  import opened StageDisk

  predicate SameButTime(a: Node, b: Node) { a.(mtime := 0) == b.(mtime := 0) }

  predicate Similar(a: Nodes, b: Nodes) { a.Keys == b.Keys && forall w :: w in a ==> w in b && SameButTime(a[w], b[w]) }

  lemma {:induction false} FindSimilar(host: Host, a: Nodes, b: Nodes, cur: Where, comps: seq<Bytes>, follow: bool, fuel: nat)
    requires Similar(a, b)
    ensures Find(host, a, cur, comps, follow, fuel) == Find(host, b, cur, comps, follow, fuel)
    decreases fuel, |comps|
  {
    hide Split, Permits;
    assert Enterable(host, a, cur) <==> Enterable(host, b, cur) by { EnterSimilar(host, a, b, cur); }
    if comps != [] && Enterable(host, a, cur) {
      var c, rest := comps[0], comps[1..];
      var next := cur + [c];
      assert next in a <==> next in b;
      if c == [] || c == DOT {
        FindSimilar(host, a, b, cur, rest, follow, fuel);
      } else if c == DOTDOT {
        FindSimilar(host, a, b, Up(cur), rest, follow, fuel);
      } else if next in a && a[next].kind.Symlink? && (rest != [] || follow) {
        if fuel > 0 {
          FindSimilar(host, a, b, if Absolute(a[next].content) then [] else cur, Split(a[next].content) + rest, follow, fuel - 1);
        }
      } else if rest != [] && next in a && a[next].kind.Directory? {
        FindSimilar(host, a, b, next, rest, follow, fuel);
      }
    }
  }

  lemma EnterSimilar(host: Host, a: Nodes, b: Nodes, w: Where)
    requires Similar(a, b)
    ensures Enterable(host, a, w) <==> Enterable(host, b, w)
    ensures CanPlace(host, a, w) <==> CanPlace(host, b, w)
    ensures w in a ==> w in b && (Writable(host, a[w]) <==> Writable(host, b[w])) && (Owned(host, a[w]) <==> Owned(host, b[w]))
  {
    assert forall x :: x in a ==> SameButTime(a[x], b[x]);
  }

  /** `b` has everything `a` has: the same kinds, the same link targets, and no directory
      shut that was open. */
  predicate Grown(host: Host, a: Nodes, b: Nodes) {
    forall w :: w in a ==>
      && w in b && b[w].kind == a[w].kind && (a[w].kind.Symlink? ==> b[w].content == a[w].content)
      && (Enterable(host, a, w) ==> Enterable(host, b, w))
  }

  /** What was found and is there is found again. */
  lemma {:induction false} FindGrown(host: Host, a: Nodes, b: Nodes, cur: Where, comps: seq<Bytes>, follow: bool, fuel: nat)
    requires Grown(host, a, b) && Find(host, a, cur, comps, follow, fuel).Ok? && Find(host, a, cur, comps, follow, fuel).value in a
    ensures Find(host, b, cur, comps, follow, fuel) == Find(host, a, cur, comps, follow, fuel)
    decreases fuel, |comps|
  {
    hide Split, Permits;
    if comps != [] {
      assert Enterable(host, b, cur);
      var c, rest := comps[0], comps[1..];
      var next := cur + [c];
      if c == [] || c == DOT {
        FindGrown(host, a, b, cur, rest, follow, fuel);
      } else if c == DOTDOT {
        FindGrown(host, a, b, Up(cur), rest, follow, fuel);
      } else if next in a && a[next].kind.Symlink? && (rest != [] || follow) {
        FindGrown(host, a, b, if Absolute(a[next].content) then [] else cur, Split(a[next].content) + rest, follow, fuel - 1);
      } else if rest != [] {
        FindGrown(host, a, b, next, rest, follow, fuel);
      }
    }
  }

  /** What was found free is found again once something that needs no following is there. */
  lemma {:induction false} FindPlaced(host: Host, a: Nodes, b: Nodes, cur: Where, comps: seq<Bytes>, follow: bool, fuel: nat, again: bool, w: Where)
    requires Find(host, a, cur, comps, follow, fuel) == Ok(w) && w !in a && w in b
    requires Grown(host, a, b) && (again ==> !b[w].kind.Symlink?) && cur in a
    requires follow ==> again
    requires forall x :: x in a ==> Up(x) in a
    ensures Find(host, b, cur, comps, again, fuel) == Ok(w)
    decreases fuel, |comps|
  {
    hide Split, Permits;
    if comps != [] {
      assert Enterable(host, b, cur);
      var c, rest := comps[0], comps[1..];
      var next := cur + [c];
      if c == [] || c == DOT {
        FindPlaced(host, a, b, cur, rest, follow, fuel, again, w);
      } else if c == DOTDOT {
        FindPlaced(host, a, b, Up(cur), rest, follow, fuel, again, w);
      } else if next in a && a[next].kind.Symlink? && (rest != [] || follow) {
        FindPlaced(host, a, b, if Absolute(a[next].content) then [] else cur, Split(a[next].content) + rest, follow, fuel - 1, again, w);
      } else if rest != [] {
        FindPlaced(host, a, b, next, rest, follow, fuel, again, w);
      }
    }
  }

  predicate EndsPlainly(comps: seq<Bytes>) { comps != [] && PlainName(comps[|comps| - 1]) }

  /** Without following a link at the end, lookup stops at the same place or at that link. */
  lemma {:induction false} FindSeat(host: Host, nodes: Nodes, cur: Where, comps: seq<Bytes>, fuel: nat)
    requires EndsPlainly(comps) && Find(host, nodes, cur, comps, true, fuel).Ok?
    ensures var seat := Find(host, nodes, cur, comps, false, fuel);
      seat.Ok? && (seat == Find(host, nodes, cur, comps, true, fuel) || (seat.value in nodes && nodes[seat.value].kind.Symlink?))
    decreases fuel, |comps|
  {
    hide Split, Permits;
    var c, rest := comps[0], comps[1..];
    var next := cur + [c];
    assert rest != [] ==> rest[|rest| - 1] == comps[|comps| - 1];
    if c == [] || c == DOT {
      FindSeat(host, nodes, cur, rest, fuel);
    } else if c == DOTDOT {
      FindSeat(host, nodes, Up(cur), rest, fuel);
    } else if next in nodes && nodes[next].kind.Symlink? {
      if rest != [] {
        var more := Split(nodes[next].content) + rest;
        assert more[|more| - 1] == comps[|comps| - 1];
        FindSeat(host, nodes, if Absolute(nodes[next].content) then [] else cur, more, fuel - 1);
      }
    } else if rest != [] {
      FindSeat(host, nodes, next, rest, fuel);
    }
  }

  /* ----- the passes are blind to times as well ----- */

  lemma SpotSimilar(host: Host, a: Nodes, b: Nodes, base: Where, e: Entry, follow: bool)
    requires Similar(a, b)
    ensures Spot(host, a, base, e, follow) == Spot(host, b, base, e, follow)
  {
    hide Find, Split, Similar;
    FindSimilar(host, a, b, base, Split(e.name), follow, host.linkLimit);
  }

  ghost predicate BothSimilar(a: Result<Nodes>, b: Result<Nodes>) {
    (a.Ok? <==> b.Ok?) && (a.Ok? && b.Ok? ==> Similar(a.value, b.value))
  }

  lemma PlaceSimilar(a: Nodes, b: Nodes, w: Where, m: Node, n: Node, t: int, u: int)
    requires Similar(a, b) && Up(w) in a && SameButTime(m, n)
    ensures Up(w) in b && Similar(Place(a, w, m, t), Place(b, w, n, u))
  {
    assert SameButTime(a[Up(w)], b[Up(w)]);
  }

  lemma UpdateSimilar(a: Nodes, b: Nodes, w: Where, m: Node, n: Node)
    requires Similar(a, b) && SameButTime(m, n)
    ensures Similar(a[w := m], b[w := n])
  {
  }

  lemma BuildSimilar(host: Host, a: Nodes, b: Nodes, base: Where, e: Entry, t: int, u: int)
    requires Similar(a, b)
    ensures BothSimilar(Build(host, a, base, e, t), Build(host, b, base, e, u))
  {
    hide Spot, Place, CanPlace, Permits;
    SpotSimilar(host, a, b, base, e, e.kind.File?);
    var w := Spot(host, a, base, e, e.kind.File?);
    if w.Ok? {
      EnterSimilar(host, a, b, w.value);
      if w.value !in a {
        if CanPlace(host, a, w.value) {
          PlaceDefined(host, a, w.value);
          PlaceSimilar(a, b, w.value, BuiltNode(host, e), BuiltNode(host, e), t, u);
        }
      } else {
        assert SameButTime(a[w.value], b[w.value]);
        UpdateSimilar(a, b, w.value, a[w.value].(content := e.data, mode := BUILD_FILE_MODE, mtime := t),
                      b[w.value].(content := e.data, mode := BUILD_FILE_MODE, mtime := u));
      }
    }
  }

  lemma ApplySimilar(host: Host, a: Nodes, b: Nodes, w: Result<Where>, change: Node -> Node)
    requires Similar(a, b) && forall m, n :: SameButTime(m, n) ==> SameButTime(change(m), change(n))
    ensures BothSimilar(Apply(host, a, w, change), Apply(host, b, w, change))
  {
    hide Permits;
    if w.Ok? && w.value in a {
      EnterSimilar(host, a, b, w.value);
      assert SameButTime(a[w.value], b[w.value]);
      UpdateSimilar(a, b, w.value, change(a[w.value]), change(b[w.value]));
    }
  }

  lemma FinishSimilar(host: Host, a: Nodes, b: Nodes, base: Where, e: Entry)
    requires Similar(a, b)
    ensures BothSimilar(WithMode(host, a, base, e), WithMode(host, b, base, e))
    ensures BothSimilar(WithOwner(host, a, base, e), WithOwner(host, b, base, e))
    ensures BothSimilar(WithTime(host, a, base, e), WithTime(host, b, base, e))
  {
    hide Spot, Apply;
    SpotSimilar(host, a, b, base, e, true);
    SpotSimilar(host, a, b, base, e, false);
    ApplySimilar(host, a, b, Spot(host, a, base, e, true), SetMode(e.mode % 0x1000));
    ApplySimilar(host, a, b, Spot(host, a, base, e, false), SetOwner());
    ApplySimilar(host, a, b, Spot(host, a, base, e, false), SetTime());
  }

  lemma SimilarSelf(a: Nodes)
    ensures Similar(a, a)
  {
  }
}
