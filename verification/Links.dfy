/** Two resolvers of symlink targets: one pops a stack and refuses to climb above the root,
    the other normalizes the joined path and tests how it begins. */
module Links {
  import opened ByteStrings
  import opened Paths

  /* ----- path strings ----- */

  /** One past the last slash, or 0. */
  function AfterLastSlash(p: Bytes): (i: nat)
    ensures i <= |p|
  {
    if p == [] then 0 else if p[|p| - 1] == SLASH then |p| else AfterLastSlash(p[..|p| - 1])
  }

  predicate OnlySlashes(p: Bytes) { forall i :: 0 <= i < |p| ==> p[i] == SLASH }

  function StripRight(p: Bytes): Bytes {
    if p != [] && p[|p| - 1] == SLASH then StripRight(p[..|p| - 1]) else p
  }

  function StripLeft(p: Bytes): Bytes
    decreases |p|
  {
    if p != [] && p[0] == SLASH then StripLeft(p[1..]) else p
  }

  /** `dirname`: everything up to the last slash, without the slashes that end it. */
  function Dirname(p: Bytes): Bytes {
    var head := p[..AfterLastSlash(p)];
    if OnlySlashes(head) then head else StripRight(head)
  }

  /** `join` of a directory and a target that is not absolute. */
  function JoinPath(dir: Bytes, target: Bytes): Bytes {
    if dir == [] || dir[|dir| - 1] == SLASH then dir + target else dir + [SLASH] + target
  }

  /* ----- normalizing ----- */

  /** One component of `normpath`; `..` is kept where there is nothing to go up from. */
  function NormStep(comps: seq<Bytes>, part: Bytes, rooted: bool): seq<Bytes> {
    if part == [] || part == DOT then comps
    else if part != DOTDOT || (!rooted && comps == []) || (comps != [] && comps[|comps| - 1] == DOTDOT) then comps + [part]
    else if comps != [] then comps[..|comps| - 1]
    else comps
  }

  function NormFold(comps: seq<Bytes>, parts: seq<Bytes>, rooted: bool): seq<Bytes>
    decreases |parts|
  {
    if parts == [] then comps else NormFold(NormStep(comps, parts[0], rooted), parts[1..], rooted)
  }

  function LeadingSlashes(p: Bytes): nat {
    if p == [] || p[0] != SLASH then 0
    else if |p| >= 2 && p[1] == SLASH && !(|p| >= 3 && p[2] == SLASH) then 2
    else 1
  }

  function Slashes(n: nat): (s: Bytes)
    ensures |s| == n && forall i :: 0 <= i < n ==> s[i] == SLASH
  {
    seq(n, _ => SLASH)
  }

  function Normpath(p: Bytes): Bytes {
    if p == [] then DOT
    else
      var n := LeadingSlashes(p);
      var q := Slashes(n) + Join(NormFold([], Split(p), n > 0));
      if q == [] then DOT else q
  }

  /** The textual resolver: an absolute target counts from the tree's top, any other from the
      link's own directory. */
  function ResolvedLink(path: Bytes, target: Bytes): Bytes {
    if target != [] && target[0] == SLASH then Normpath(StripLeft(target))
    else Normpath(JoinPath(Dirname(path), target))
  }

  predicate StartsWith(s: Bytes, prefix: Bytes) { |prefix| <= |s| && s[..|prefix|] == prefix }

  /** The escape test of the staging measurement. */
  predicate Escapes(path: Bytes, target: Bytes) { StartsWith(ResolvedLink(path, target), DOTDOT) }

  /* ----- the stack ----- */

  function NonEmpty(parts: seq<Bytes>): seq<Bytes> {
    if parts == [] then [] else (if parts[0] == [] then [] else [parts[0]]) + NonEmpty(parts[1..])
  }

  /** The stack after these parts, or a refusal to climb above the root. */
  function Climb(stack: seq<Bytes>, parts: seq<Bytes>): Result<seq<Bytes>>
    decreases |parts|
  {
    if parts == [] then Ok(stack)
    else if parts[0] == [] || parts[0] == DOT then Climb(stack, parts[1..])
    else if parts[0] != DOTDOT then Climb(stack + [parts[0]], parts[1..])
    else if stack == [] then Fail
    else Climb(stack[..|stack| - 1], parts[1..])
  }

  function BaseStack(linkPath: Bytes, target: Bytes): seq<Bytes> {
    if target != [] && target[0] == SLASH then [] else NonEmpty(Split(Dirname(linkPath)))
  }

  method ResolveLink(linkPath: Bytes, target: Bytes) returns (r: Result<Bytes>)
    ensures r.Ok? <==> linkPath != [] && linkPath[0] == SLASH && Climb(BaseStack(linkPath, target), Split(target)).Ok?
    ensures r.Ok? ==> r.value == [SLASH] + Join(Climb(BaseStack(linkPath, target), Split(target)).value)
  {
    hide Split, Dirname, NonEmpty, Join;
    if linkPath == [] || linkPath[0] != SLASH { return Fail; }
    var stack := BaseStack(linkPath, target);
    var parts := Split(target);
    assert parts[0..] == parts;
    for k := 0 to |parts|
      invariant Climb(stack, parts[k..]) == Climb(BaseStack(linkPath, target), parts)
    {
      var part := parts[k];
      assert parts[k..][1..] == parts[k + 1..];
      if part == [] || part == DOT {
      } else if part == DOTDOT {
        if stack == [] { return Fail; }
        stack := stack[..|stack| - 1];
      } else {
        stack := stack + [part];
      }
    }
    return Ok([SLASH] + Join(stack));
  }

  /* ----- the two machines run in step ----- */

  function Ups(k: nat): (s: seq<Bytes>)
    ensures |s| == k && forall i :: 0 <= i < k ==> s[i] == DOTDOT
  {
    seq(k, _ => DOTDOT)
  }

  lemma UpsSnoc(k: nat)
    ensures Ups(k) + [DOTDOT] == Ups(k + 1)
  {
  }

  /** With `k` leading `..` and a plain stack above them, one more component keeps that
      shape; `k` grows exactly when the stack resolver would refuse. */
  lemma StepShape(k: nat, stack: seq<Bytes>, part: Bytes)
    requires Plain(stack) && SLASH !in part
    ensures NormStep(Ups(k) + stack, part, false) ==
      (if part == [] || part == DOT then Ups(k) + stack
       else if part != DOTDOT then Ups(k) + (stack + [part])
       else if stack == [] then Ups(k + 1)
       else Ups(k) + stack[..|stack| - 1])
  {
    var comps := Ups(k) + stack;
    if part == DOTDOT {
      if stack == [] {
        assert comps == Ups(k);
        UpsSnoc(k);
      } else {
        assert comps[|comps| - 1] == stack[|stack| - 1];
        assert PlainName(stack[|stack| - 1]);
        assert comps[..|comps| - 1] == Ups(k) + stack[..|stack| - 1];
      }
    } else if part != [] && part != DOT {
      assert comps + [part] == Ups(k) + (stack + [part]);
    }
  }

  /** Over any components the normal form is leading `..` and a plain rest.  There are none
      exactly when the stack resolver does not refuse, and then the rest is its stack. */
  lemma {:induction false} FoldShape(k: nat, stack: seq<Bytes>, parts: seq<Bytes>) returns (k': nat, stack': seq<Bytes>)
    requires Plain(stack) && SlashFree(parts)
    ensures NormFold(Ups(k) + stack, parts, false) == Ups(k') + stack' && Plain(stack') && k' >= k
    ensures k == 0 ==> (k' == 0 <==> Climb(stack, parts).Ok?)
    ensures k == 0 && k' == 0 ==> Climb(stack, parts) == Ok(stack')
    decreases |parts|
  {
    hide PlainName, NormStep;
    if parts == [] {
      k', stack' := k, stack;
    } else {
      var part := parts[0];
      StepShape(k, stack, part);
      if part == [] || part == DOT {
        k', stack' := FoldShape(k, stack, parts[1..]);
      } else if part != DOTDOT {
        PlainSnoc(stack, part);
        k', stack' := FoldShape(k, stack + [part], parts[1..]);
      } else if stack == [] {
        k', stack' := FoldShape(k + 1, [], parts[1..]);
        assert Ups(k + 1) + [] == Ups(k + 1);
      } else {
        PlainInit(stack);
        k', stack' := FoldShape(k, stack[..|stack| - 1], parts[1..]);
      }
    }
  }

  lemma PlainSnoc(stack: seq<Bytes>, part: Bytes)
    requires Plain(stack) && part != [] && part != DOT && part != DOTDOT && SLASH !in part
    ensures Plain(stack + [part])
  {
  }

  lemma PlainInit(stack: seq<Bytes>)
    requires Plain(stack) && stack != []
    ensures Plain(stack[..|stack| - 1])
  {
    hide PlainName;
  }

  lemma {:induction false} FoldConcat(comps: seq<Bytes>, a: seq<Bytes>, b: seq<Bytes>, rooted: bool)
    ensures NormFold(comps, a + b, rooted) == NormFold(NormFold(comps, a, rooted), b, rooted)
    decreases |a|
  {
    hide NormStep;
    if a == [] {
      assert a + b == b;
    } else {
      FoldConcat(NormStep(comps, a[0], rooted), a[1..], b, rooted);
      assert (a + b)[1..] == a[1..] + b;
    }
  }

  /** A plain path is already normal. */
  lemma {:induction false} FoldPlain(comps: seq<Bytes>, parts: seq<Bytes>)
    requires Plain(parts)
    ensures NormFold(comps, parts, false) == comps + parts
    decreases |parts|
  {
    if parts == [] {
      assert comps + parts == comps;
    } else {
      assert PlainName(parts[0]);
      FoldPlain(comps + [parts[0]], parts[1..]);
      assert comps + parts == comps + [parts[0]] + parts[1..];
    }
  }

  /* ----- directory names of plain paths ----- */

  lemma {:induction false} LastSlashAfter(p: Bytes, name: Bytes)
    requires SLASH !in name
    ensures AfterLastSlash(p + name) == AfterLastSlash(p)
    decreases |name|
  {
    if name == [] {
      assert p + name == p;
    } else {
      assert name[|name| - 1] in name;
      LastSlashAfter(p, name[..|name| - 1]);
      assert (p + name)[..|p + name| - 1] == p + name[..|name| - 1];
    }
  }

  lemma StripRightOne(p: Bytes)
    requires p == [] || p[|p| - 1] != SLASH
    ensures StripRight(p + [SLASH]) == p
  {
    assert (p + [SLASH])[..|p|] == p;
  }

  /** A joined plain path starts and ends with something other than a slash. */
  lemma {:induction false} JoinEnds(parts: seq<Bytes>)
    requires Plain(parts) && parts != []
    ensures var s := Join(parts); s != [] && s[0] != SLASH && s[|s| - 1] != SLASH && s[0] == parts[0][0]
    decreases |parts|
  {
    assert PlainName(parts[0]);
    assert parts[0][0] in parts[0] && parts[0][|parts[0]| - 1] in parts[0];
    if |parts| > 1 { JoinEnds(parts[1..]); }
  }

  lemma LastSlashHere(p: Bytes)
    ensures AfterLastSlash(p + [SLASH]) == |p| + 1
  {
  }

  /** The directory of a path whose directory part does not end in a slash. */
  lemma DirnameSplit(head: Bytes, name: Bytes)
    requires head != [] && head[|head| - 1] != SLASH && SLASH !in name
    ensures Dirname(head + [SLASH] + name) == head
  {
    hide AfterLastSlash, StripRight;
    var top := head + [SLASH];
    LastSlashAfter(top, name);
    LastSlashHere(head);
    assert (top + name)[..|top|] == top;
    assert top[|head| - 1] != SLASH;
    StripRightOne(head);
  }

  lemma DirnameName(name: Bytes)
    requires SLASH !in name
    ensures Dirname(name) == [] && Dirname([SLASH] + name) == [SLASH]
  {
    hide StripRight;
    LastSlashAfter([], name);
    assert [] + name == name;
    LastSlashAfter([SLASH], name);
    LastSlashHere([]);
    assert [] + [SLASH] == [SLASH];
    assert ([SLASH] + name)[..1] == [SLASH];
  }

  lemma LastPart(parts: seq<Bytes>)
    requires Plain(parts) && parts != []
    ensures SLASH !in parts[|parts| - 1] && parts == parts[..|parts| - 1] + [parts[|parts| - 1]]
  {
    assert PlainName(parts[|parts| - 1]);
  }

  lemma JoinNoneOrOne(name: Bytes)
    ensures Join([]) == [] && Join([name]) == name
  {
  }

  lemma DirnameRelative(parts: seq<Bytes>)
    requires Plain(parts) && parts != []
    ensures Dirname(Join(parts)) == Join(parts[..|parts| - 1])
  {
    hide Dirname, Join, PlainName;
    var dir, name := parts[..|parts| - 1], parts[|parts| - 1];
    LastPart(parts);
    if dir == [] {
      DirnameName(name);
      JoinNoneOrOne(name);
      assert parts == [name];
    } else {
      PlainInit(parts);
      JoinSnoc(dir, name);
      JoinEnds(dir);
      DirnameSplit(Join(dir), name);
    }
  }

  lemma RootParts()
    ensures NonEmpty(Split([SLASH])) == []
  {
    var two: seq<Bytes> := [[], []];
    assert [SLASH][1..] == [] && Split([SLASH]) == two;
    assert two[1..] == [[]] && two[1..][1..] == [];
  }

  lemma RootedParts(dir: seq<Bytes>)
    requires Plain(dir) && dir != []
    ensures NonEmpty(Split([SLASH] + Join(dir))) == dir
  {
    hide Join;
    PlainSlashFree(dir);
    SplitJoin(dir);
    NonEmptyPlain(dir);
    assert ([SLASH] + Join(dir))[1..] == Join(dir);
    assert ([[]] + dir)[1..] == dir;
  }

  lemma PlainSlashFree(parts: seq<Bytes>)
    requires Plain(parts)
    ensures SlashFree(parts)
  {
    forall i | 0 <= i < |parts| ensures SLASH !in parts[i] { assert PlainName(parts[i]); }
  }

  lemma DirnameAbsolute(parts: seq<Bytes>)
    requires Plain(parts) && parts != []
    ensures NonEmpty(Split(Dirname([SLASH] + Join(parts)))) == parts[..|parts| - 1]
  {
    hide Dirname, Split, NonEmpty, Join, PlainName;
    var dir, name := parts[..|parts| - 1], parts[|parts| - 1];
    LastPart(parts);
    if dir == [] {
      DirnameName(name);
      JoinNoneOrOne(name);
      assert parts == [name];
      RootParts();
    } else {
      PlainInit(parts);
      JoinSnoc(dir, name);
      JoinEnds(dir);
      var head := [SLASH] + Join(dir);
      assert [SLASH] + Join(parts) == head + [SLASH] + name;
      DirnameSplit(head, name);
      RootedParts(dir);
    }
  }

  lemma {:induction false} NonEmptyPlain(parts: seq<Bytes>)
    requires Plain(parts)
    ensures NonEmpty(parts) == parts
    decreases |parts|
  {
    if parts != [] {
      assert PlainName(parts[0]);
      NonEmptyPlain(parts[1..]);
      assert parts == [parts[0]] + parts[1..];
    }
  }

  /* ----- the normal form of a link ----- */

  lemma {:induction false} StripLeftFold(target: Bytes)
    ensures NormFold([], Split(StripLeft(target)), false) == NormFold([], Split(target), false)
    decreases |target|
  {
    if target != [] && target[0] == SLASH {
      StripLeftFold(target[1..]);
      assert ([[]] + Split(target[1..]))[1..] == Split(target[1..]);
    }
  }

  lemma {:induction false} StripLeftStarts(target: Bytes)
    ensures StripLeft(target) == [] || StripLeft(target)[0] != SLASH
    decreases |target|
  {
    if target != [] && target[0] == SLASH { StripLeftStarts(target[1..]); }
  }

  /** Normalizing a path that does not start with a slash. */
  lemma NormpathRelative(p: Bytes)
    requires p == [] || p[0] != SLASH
    ensures var comps := NormFold([], Split(p), false);
      Normpath(p) == if Join(comps) == [] then DOT else Join(comps)
  {
    hide NormFold, Join;
    if p == [] {
      EmptyNormal();
    } else {
      assert Slashes(0) + Join(NormFold([], Split(p), false)) == Join(NormFold([], Split(p), false));
    }
  }

  /** The stack after these parts of an absolute path; `..` stays at the root. */
  function RootClimb(stack: seq<Bytes>, parts: seq<Bytes>): seq<Bytes>
    decreases |parts|
  {
    if parts == [] then stack
    else if parts[0] == [] || parts[0] == DOT then RootClimb(stack, parts[1..])
    else if parts[0] == DOTDOT then RootClimb(if stack == [] then [] else stack[..|stack| - 1], parts[1..])
    else RootClimb(stack + [parts[0]], parts[1..])
  }

  lemma {:induction false} FoldRooted(stack: seq<Bytes>, parts: seq<Bytes>)
    requires DOTDOT !in stack
    ensures NormFold(stack, parts, true) == RootClimb(stack, parts)
    decreases |parts|
  {
    if parts != [] {
      assert stack != [] ==> stack[|stack| - 1] in stack;
      var next := NormStep(stack, parts[0], true);
      assert DOTDOT !in next;
      FoldRooted(next, parts[1..]);
    }
  }

  /** Normalizing a path that starts with a slash: it climbs from the root, and keeps one
      slash, or two if it starts with exactly two. */
  lemma NormpathRooted(p: Bytes)
    requires p != [] && p[0] == SLASH
    ensures var exactlyTwo := |p| >= 2 && p[1] == SLASH && (|p| == 2 || p[2] != SLASH);
      Normpath(p) == (if exactlyTwo then [SLASH, SLASH] else [SLASH]) + Join(RootClimb([], Split(p)))
  {
    hide Join, Split, NormFold, RootClimb, Slashes;
    FoldRooted([], Split(p));
    assert Slashes(1) == [SLASH] && Slashes(2) == [SLASH, SLASH];
    var n := LeadingSlashes(p);
    assert (Slashes(n) + Join(RootClimb([], Split(p))))[0] == SLASH;
  }

  lemma EmptyNormal()
    ensures Join(NormFold([], Split([]), false)) == []
  {
    var one: seq<Bytes> := [[]];
    assert one[1..] == [];
  }

  /** What both resolvers work on: the link's directory, then the target. */
  function Base(parts: seq<Bytes>, target: Bytes): seq<Bytes>
    requires parts != []
  {
    if target != [] && target[0] == SLASH then [] else parts[..|parts| - 1]
  }

  lemma LinkNormal(parts: seq<Bytes>, target: Bytes)
    requires Plain(parts) && parts != []
    ensures var comps := NormFold(Base(parts, target), Split(target), false);
      ResolvedLink(Join(parts), target) == if Join(comps) == [] then DOT else Join(comps)
  {
    hide NormFold, Join, Normpath, PlainName;
    if target != [] && target[0] == SLASH {
      StripLeftFold(target);
      StripLeftStarts(target);
      NormpathRelative(StripLeft(target));
    } else {
      var dir := parts[..|parts| - 1];
      DirnameRelative(parts);
      JoinedParts(dir, target);
      NormpathRelative(JoinPath(Join(dir), target));
    }
  }

  lemma JoinedParts(dir: seq<Bytes>, target: Bytes)
    requires Plain(dir) && (target == [] || target[0] != SLASH)
    ensures var p := JoinPath(Join(dir), target);
      && (p == [] || p[0] != SLASH)
      && NormFold([], Split(p), false) == NormFold(dir, Split(target), false)
  {
    hide NormStep, PlainName;
    if dir == [] {
      assert Join(dir) + target == target;
    } else {
      JoinEnds(dir);
      PlainSlashFree(dir);
      SplitPrefix(dir, target);
      FoldConcat([], dir, Split(target), false);
      FoldPlain([], dir);
      assert [] + dir == dir;
    }
  }

  lemma {:induction false} SplitPrefix(dir: seq<Bytes>, target: Bytes)
    requires dir != [] && SlashFree(dir)
    ensures Split(Join(dir) + [SLASH] + target) == dir + Split(target)
    decreases |dir|
  {
    hide Split;
    var head, rest := dir[0], dir[1..];
    assert dir == [head] + rest;
    if rest == [] {
      SplitCons(head, target);
    } else {
      SplitPrefix(rest, target);
      var tail := Join(rest) + [SLASH] + target;
      SplitCons(head, tail);
      assert Join(dir) + [SLASH] + target == head + [SLASH] + tail;
    }
  }

  /* ----- agreement ----- */

  lemma {:induction false} JoinBegins(comps: seq<Bytes>)
    requires comps != [] && SLASH !in comps[0] && comps[0] != [] && comps[0] != DOT
    ensures Join(comps) != [] && (StartsWith(Join(comps), DOTDOT) <==> StartsWith(comps[0], DOTDOT))
  {
    var s := Join(comps);
    assert s[..|comps[0]|] == comps[0];
    if |comps[0]| == 1 {
      assert s[0] == comps[0][0] && comps[0] == [comps[0][0]];
    } else {
      assert s[..2] == comps[0][..2];
    }
  }

  lemma UpsBegin(k: nat, stack: seq<Bytes>)
    requires k > 0
    ensures Join(Ups(k) + stack) != [] && StartsWith(Join(Ups(k) + stack), DOTDOT)
  {
    assert (Ups(k) + stack)[0] == DOTDOT;
    JoinBegins(Ups(k) + stack);
  }

  lemma PlainBegin(stack: seq<Bytes>)
    requires Plain(stack) && stack != []
    ensures Join(stack) != [] && (StartsWith(Join(stack), DOTDOT) <==> StartsWith(stack[0], DOTDOT))
  {
    assert PlainName(stack[0]);
    JoinBegins(stack);
  }

  /** For every normalized link path and every target: the stack resolver refuses, or
      returns a normalized absolute path that is the other resolver's result with a leading
      slash; and the escape test reports an escape exactly when the stack resolver refuses
      or that path's first component begins with two dots. */
  lemma ResolversAgree(parts: seq<Bytes>, target: Bytes)
    requires Plain(parts) && parts != []
    ensures var stack := Climb(BaseStack([SLASH] + Join(parts), target), Split(target));
      && (stack.Ok? ==> Plain(stack.value))
      && (stack.Ok? ==> ResolvedLink(Join(parts), target) == if stack.value == [] then DOT else Join(stack.value))
      && (Escapes(Join(parts), target) <==>
            stack.Fail? || (stack.value != [] && StartsWith(stack.value[0], DOTDOT)))
  {
    hide NormFold, Join, PlainName, ResolvedLink, Climb;
    var base := Base(parts, target);
    DirnameAbsolute(parts);
    PlainInit(parts);
    SplitSlashFree(target);
    LinkNormal(parts, target);
    var k, stack := FoldShape(0, base, Split(target));
    assert Ups(0) + base == base;
    assert BaseStack([SLASH] + Join(parts), target) == base;
    if k > 0 {
      UpsBegin(k, stack);
    } else {
      assert Ups(0) + stack == stack;
      if stack != [] { PlainBegin(stack); } else { JoinNoneOrOne([]); }
    }
  }

  /** No component begins with two dots except `..` itself. */
  predicate NoDottedNames(parts: seq<Bytes>) {
    forall i :: 0 <= i < |parts| && StartsWith(parts[i], DOTDOT) ==> parts[i] == DOTDOT
  }

  lemma {:induction false} ClimbKeepsNames(stack: seq<Bytes>, parts: seq<Bytes>)
    requires NoDottedNames(stack) && NoDottedNames(parts) && Climb(stack, parts).Ok?
    ensures NoDottedNames(Climb(stack, parts).value)
    decreases |parts|
  {
    hide StartsWith;
    if parts != [] {
      var tail := parts[1..];
      assert NoDottedNames(tail) by { assert forall i :: 0 <= i < |tail| ==> tail[i] == parts[i + 1]; }
      if parts[0] == [] || parts[0] == DOT {
        ClimbKeepsNames(stack, tail);
      } else if parts[0] != DOTDOT {
        ClimbKeepsNames(stack + [parts[0]], tail);
      } else {
        ClimbKeepsNames(stack[..|stack| - 1], tail);
      }
    }
  }

  /** Where no name begins with two dots, refusing and escaping are the same thing. */
  lemma RefusalIsEscape(parts: seq<Bytes>, target: Bytes)
    requires Plain(parts) && parts != [] && NoDottedNames(parts) && NoDottedNames(Split(target))
    ensures Climb(BaseStack([SLASH] + Join(parts), target), Split(target)).Fail? <==> Escapes(Join(parts), target)
  {
    hide Join, ResolvedLink, StartsWith, PlainName, Split, Climb;
    ResolversAgree(parts, target);
    DirnameAbsolute(parts);
    var base := BaseStack([SLASH] + Join(parts), target);
    assert base == Base(parts, target);
    assert NoDottedNames(base);
    var stack := Climb(base, Split(target));
    if stack.Ok? {
      ClimbKeepsNames(base, Split(target));
      if stack.value != [] { DotDotIsNotPlain(stack.value); }
    }
  }

  lemma DotDotIsNotPlain(stack: seq<Bytes>)
    requires Plain(stack) && stack != []
    ensures stack[0] != DOTDOT
  {
    assert PlainName(stack[0]);
  }

  /** A file called `..b` at the root: the stack resolver finds it, the escape test calls it
      an escape. */
  lemma DottedNameDisagrees()
    ensures var target: Bytes := [46, 46, 98]; var stack := Climb(BaseStack([SLASH] + Join([[97]]), target), Split(target));
      stack == Ok([target]) && Escapes(Join([[97]]), target)
  {
    var target: Bytes := [46, 46, 98];
    var parts: seq<Bytes> := [[97]];
    hide Join, ResolvedLink;
    assert PlainName(parts[0]);
    ResolversAgree(parts, target);
    DirnameAbsolute(parts);
    SplitOne(target);
    assert [target][1..] == [];
    assert [] + [target] == [target];
  }
}
