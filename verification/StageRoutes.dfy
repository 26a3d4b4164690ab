/** Lookup on the disk against the textual climb: where no link is met it arrives where the
    text of the path says, and a link is replaced by the text of its target. */
module StageRoutes {
  import opened ByteStrings
  import opened Paths
  import opened Links
  import opened StageDisk

  /** Nothing is there, or something other than a link. */
  predicate NoLinkAt(nodes: Nodes, w: Where) { w in nodes ==> !nodes[w].kind.Symlink? }

  /** Read as text, part `k` of the path leads from a directory that may be searched to a
      place that is no link, and not above `/`. */
  predicate ClearAt(host: Host, nodes: Nodes, cur: Where, comps: seq<Bytes>, k: nat)
    requires k < |comps|
  {
    && Climb(cur, comps[..k]).Ok? && Enterable(host, nodes, Climb(cur, comps[..k]).value)
    && Climb(cur, comps[..k + 1]).Ok? && NoLinkAt(nodes, Climb(cur, comps[..k + 1]).value)
  }

  predicate Clear(host: Host, nodes: Nodes, cur: Where, comps: seq<Bytes>) {
    forall k: nat :: k < |comps| ==> ClearAt(host, nodes, cur, comps, k)
  }

  /** Where one part of a path leads. */
  function After(cur: Where, c: Bytes): Where {
    if c == [] || c == DOT then cur else if c == DOTDOT then Up(cur) else cur + [c]
  }

  lemma ClimbFirst(cur: Where, comps: seq<Bytes>, k: nat)
    requires 0 < k <= |comps|
    ensures Climb(cur, comps[..k]) == if comps[0] == DOTDOT && cur == [] then Fail else Climb(After(cur, comps[0]), comps[1..][..k - 1])
  {
    assert comps[..k][0] == comps[0] && comps[..k][1..] == comps[1..][..k - 1];
  }

  lemma ClearFirst(host: Host, nodes: Nodes, cur: Where, comps: seq<Bytes>)
    requires comps != [] && Clear(host, nodes, cur, comps)
    ensures !(comps[0] == DOTDOT && cur == []) && Enterable(host, nodes, cur) && NoLinkAt(nodes, After(cur, comps[0]))
    ensures Clear(host, nodes, After(cur, comps[0]), comps[1..])
    ensures Climb(cur, comps) == Climb(After(cur, comps[0]), comps[1..])
    ensures |comps| > 1 ==> Enterable(host, nodes, After(cur, comps[0]))
  {
    hide Enterable, NoLinkAt, After;
    var c, rest := comps[0], comps[1..];
    assert comps[..0] == [];
    ClimbFirst(cur, comps, 1);
    assert rest[..0] == [];
    assert ClearAt(host, nodes, cur, comps, 0);
    forall k: nat | k < |rest| ensures ClearAt(host, nodes, After(cur, c), rest, k) {
      ClimbFirst(cur, comps, k + 1);
      ClimbFirst(cur, comps, k + 2);
      assert ClearAt(host, nodes, cur, comps, k + 1);
    }
    ClimbFirst(cur, comps, |comps|);
    assert comps[..|comps|] == comps && rest[..|rest|] == rest;
    if |comps| > 1 { assert ClearAt(host, nodes, After(cur, c), rest, 0); }
  }

  /** Past a clear stretch lookup goes on from where the text leads. */
  lemma {:induction false} LookupPasses(host: Host, nodes: Nodes, cur: Where, pre: seq<Bytes>, rest: seq<Bytes>, follow: bool, fuel: nat)
    requires Clear(host, nodes, cur, pre) && Climb(cur, pre).Ok? && rest != []
    requires var d := Climb(cur, pre).value; d in nodes && nodes[d].kind.Directory?
    ensures Find(host, nodes, cur, pre + rest, follow, fuel) == Find(host, nodes, Climb(cur, pre).value, rest, follow, fuel)
    decreases |pre|
  {
    hide Enterable, Split, Clear, Climb;
    if pre == [] {
      assert pre + rest == rest;
      ClimbNothing(cur);
    } else {
      ClearFirst(host, nodes, cur, pre);
      var tail := pre[1..];
      LookupPasses(host, nodes, After(cur, pre[0]), tail, rest, follow, fuel);
      assert (pre + rest)[0] == pre[0] && (pre + rest)[1..] == tail + rest;
      Onward(host, nodes, After(cur, pre[0]), tail);
    }
  }

  lemma ClimbNothing(cur: Where)
    ensures Climb(cur, []) == Ok(cur)
  {
  }

  lemma Onward(host: Host, nodes: Nodes, cur: Where, tail: seq<Bytes>)
    requires Clear(host, nodes, cur, tail) && Climb(cur, tail).Ok?
    requires var d := Climb(cur, tail).value; d in nodes && nodes[d].kind.Directory?
    ensures cur in nodes && nodes[cur].kind.Directory?
  {
    if tail == [] {
      ClimbNothing(cur);
    } else {
      assert tail[..0] == [];
      ClimbNothing(cur);
      assert ClearAt(host, nodes, cur, tail, 0);
    }
  }

  /** A clear path arrives where its text leads, there or not. */
  lemma {:induction false} LookupArrives(host: Host, nodes: Nodes, cur: Where, comps: seq<Bytes>, follow: bool, fuel: nat)
    requires Clear(host, nodes, cur, comps) && Climb(cur, comps).Ok?
    ensures Find(host, nodes, cur, comps, follow, fuel) == Climb(cur, comps)
    decreases |comps|
  {
    hide Split, Clear, Climb, Permits;
    if comps == [] {
      ClimbNothing(cur);
    } else {
      ClearFirst(host, nodes, cur, comps);
      LookupArrives(host, nodes, After(cur, comps[0]), comps[1..], follow, fuel);
      ClimbNothing(After(cur, comps[0]));
    }
  }

  /** A link on the way, or at the end where it is to be followed, is replaced by its target:
      from `/` if that is absolute, from the link's own directory if not. */
  lemma LookupFollows(host: Host, nodes: Nodes, cur: Where, pre: seq<Bytes>, name: Bytes, rest: seq<Bytes>, follow: bool, fuel: nat)
    requires Clear(host, nodes, cur, pre) && Climb(cur, pre).Ok? && PlainName(name) && (rest != [] || follow)
    requires var d := Climb(cur, pre).value;
      Enterable(host, nodes, d) && d + [name] in nodes && nodes[d + [name]].kind.Symlink?
    ensures var d := Climb(cur, pre).value; var target := nodes[d + [name]].content;
      Find(host, nodes, cur, pre + [name] + rest, follow, fuel) ==
      if fuel == 0 then Fail
      else Find(host, nodes, if target != [] && target[0] == 47 then [] else d, Split(target) + rest, follow, fuel - 1)
  {
    hide Split, Clear, Climb, Permits;
    LookupPasses(host, nodes, cur, pre, [name] + rest, follow, fuel);
    assert pre + [name] + rest == pre + ([name] + rest);
    assert ([name] + rest)[0] == name && ([name] + rest)[1..] == rest;
  }
}
