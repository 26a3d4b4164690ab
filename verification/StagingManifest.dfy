/** The table's measurement against the walk's: what passes, and which paths a tree that passes
    can have. */
module StagingManifest {
  import opened ByteStrings
  import opened Paths
  import opened Sorting
  import opened Folds
  import opened Links
  import opened Staging
  import opened StagingWalk
  import opened StagingShapes
  import opened StagingTrees

  /* ----- the two measurements together ----- */

  /** Each quantity of the two reports compared in turn. */
  method MeasurementsAgree(computed: Totals, walked: Totals) returns (ok: bool)
    ensures ok <==> computed == walked
  {
    if computed.entries != walked.entries { return false; }
    if computed.byKind != walked.byKind { return false; }
    if computed.payloadBytes != walked.payloadBytes { return false; }
    if computed.largestBytes != walked.largestBytes { return false; }
    if computed.largestPath != walked.largestPath { return false; }
    if computed.manifest != walked.manifest { return false; }
    if computed.caseFolded != walked.caseFolded { return false; }
    if computed.duplicates != walked.duplicates { return false; }
    return computed.escapes == walked.escapes;
  }

  /** One report is the measure of both trees. */
  ghost predicate SameMeasure(host: Host, a: Tree, b: Tree) {
    exists t :: IsMeasure(host, a, t) && IsMeasure(host, b, t)
  }

  lemma MeasureUnique(host: Host, tree: Tree, s: Totals, t: Totals)
    requires IsMeasure(host, tree, s) && IsMeasure(host, tree, t)
    ensures s == t
  {
    hide Measures, Enumerates;
    var a :| Enumerates(tree, a) && Measures(host, tree, a, s);
    var b :| Enumerates(tree, b) && Measures(host, tree, b, t);
    TotalsAgree(host, tree, a, s, b, t);
  }

  /** The table measured, the written tree walked, the reports compared.  It passes exactly
      when the tree holds nothing special and the two have one measure, whatever order the
      table's keys and the directories come in; so the table's own tree passes.  A tree that
      passes has the table's paths, if the report pins them down and the digest tells the two
      manifests apart. */
  method Measure(host: Host, table: Tree, order: seq<Bytes>, tree: Tree, scan: Bytes -> seq<Bytes>) returns (r: Result<Totals>)
    requires Enumerates(table, order) && NoSpecial(table) && Rooted(tree) && Lists(tree, scan)
    ensures r.Ok? <==> NoSpecial(tree) && SameMeasure(host, table, tree)
    ensures r.Ok? ==> IsMeasure(host, table, r.value) && IsMeasure(host, tree, r.value)
    ensures tree == table ==> r.Ok?
    ensures r.Ok? && Pinned(host, r.value, Sort(order)) && TellsApart(host, table, tree) ==> tree.Keys == table.Keys
  {
    hide Measures, Enumerates, NoSpecial, Rooted, Lists, Pinned, TellsApart, Sort;
    var computed := BuilderTotals(host, table, order);
    var walked, visited := Traverse(host, tree, scan);
    assert IsMeasure(host, table, computed);
    if walked.Fail? { return Fail; }
    assert IsMeasure(host, tree, walked.value);
    if tree == table { MeasureUnique(host, table, computed, walked.value); }
    var ok := MeasurementsAgree(computed, walked.value);
    if !ok {
      forall t | IsMeasure(host, table, t) ensures !IsMeasure(host, tree, t) {
        MeasureUnique(host, table, t, computed);
        if IsMeasure(host, tree, t) { MeasureUnique(host, tree, t, walked.value); }
      }
      return Fail;
    }
    if Pinned(host, computed, Sort(order)) && TellsApart(host, table, tree) {
      TellsText(host, table, order, tree, computed);
      PinnedTree(host, table, order, computed, tree);
    }
    return Ok(walked.value);
  }

  predicate OneLine(paths: seq<Bytes>) { forall i :: 0 <= i < |paths| ==> NEWLINE !in paths[i] }

  /** No two path lists of these two trees share a digest without being the same text. */
  ghost predicate TellsApart(host: Host, table: Tree, tree: Tree) {
    forall a, b :: Enumerates(table, a) && Enumerates(tree, b) && Manifest(host, a) == Manifest(host, b) ==> Lines(Sort(a)) == Lines(Sort(b))
  }

  lemma TellsText(host: Host, table: Tree, order: seq<Bytes>, tree: Tree, t: Totals)
    requires TellsApart(host, table, tree) && Enumerates(table, order) && Measures(host, table, order, t)
    ensures forall paths :: Enumerates(tree, paths) && Manifest(host, paths) == t.manifest ==> Lines(Sort(paths)) == Lines(Sort(order))
  {
    hide Enumerates, Measures, Manifest, Lines, Sort;
    ManifestOf(host, table, order, t);
  }

  /* ----- lists and their text ----- */

  /** Lists of the same length with the same text are the same, if one of them has no newline
      in a path or they have one path. */
  lemma {:induction false} SameTextSameList(a: seq<Bytes>, b: seq<Bytes>)
    requires |a| == |b| && Lines(a) == Lines(b) && (|a| <= 1 || OneLine(a))
    ensures a == b
    decreases |a|
  {
    if |a| == 1 {
      assert a == [a[0]] && b == [b[0]] && a[1..] == [] && b[1..] == [];
      assert a[0] == Lines(a)[..|Lines(a)| - 1] == b[0];
    } else if |a| > 1 {
      FirstLine(a, b);
      assert a[1..] == b[1..] by {
        assert Lines(a[1..]) == Lines(b[1..]);
        assert OneLine(a[1..]);
        SameTextSameList(a[1..], b[1..]);
      }
      assert a == [a[0]] + a[1..] && b == [b[0]] + b[1..];
    }
  }

  /** With no newline in the first list, the first paths agree: a longer one in the other
      list would leave too few lines for the rest of it. */
  lemma FirstLine(a: seq<Bytes>, b: seq<Bytes>)
    requires |a| == |b| > 1 && Lines(a) == Lines(b) && OneLine(a)
    ensures a[0] == b[0] && Lines(a[1..]) == Lines(b[1..])
  {
    NewlinesOf(a);
    NewlinesOf(b);
    InnerNone(a);
    assert Inner(b) == 0;
    InnerZero(b);
    LineEnds(a[0], Lines(a[1..]), b[0], Lines(b[1..]));
  }

  function Newlines(s: Bytes): nat { if s == [] then 0 else (if s[0] == NEWLINE then 1 else 0) + Newlines(s[1..]) }

  /** Newlines inside the paths. */
  function Inner(paths: seq<Bytes>): nat { if paths == [] then 0 else Newlines(paths[0]) + Inner(paths[1..]) }

  lemma {:induction false} NewlinesConcat(s: Bytes, t: Bytes)
    ensures Newlines(s + t) == Newlines(s) + Newlines(t)
    decreases |s|
  {
    if s == [] {
      assert s + t == t;
    } else {
      NewlinesConcat(s[1..], t);
      assert (s + t)[1..] == s[1..] + t;
    }
  }

  lemma {:induction false} NewlinesOf(paths: seq<Bytes>)
    ensures Newlines(Lines(paths)) == |paths| + Inner(paths)
    decreases |paths|
  {
    if paths != [] {
      NewlinesOf(paths[1..]);
      NewlinesConcat(paths[0], [NEWLINE]);
      NewlinesConcat(paths[0] + [NEWLINE], Lines(paths[1..]));
      assert [NEWLINE][1..] == [];
    }
  }

  lemma {:induction false} NoNewlines(s: Bytes)
    ensures Newlines(s) == 0 <==> NEWLINE !in s
    decreases |s|
  {
    if s != [] {
      NoNewlines(s[1..]);
      assert s == [s[0]] + s[1..];
    }
  }

  lemma {:induction false} InnerNone(paths: seq<Bytes>)
    requires OneLine(paths)
    ensures Inner(paths) == 0
    decreases |paths|
  {
    if paths != [] {
      NoNewlines(paths[0]);
      InnerNone(paths[1..]);
    }
  }

  lemma {:induction false} InnerZero(paths: seq<Bytes>)
    requires Inner(paths) == 0
    ensures OneLine(paths)
    decreases |paths|
  {
    if paths != [] {
      NoNewlines(paths[0]);
      InnerZero(paths[1..]);
      assert paths == [paths[0]] + paths[1..];
    }
  }

  lemma FirstNewline(x: Bytes, xs: Bytes)
    requires NEWLINE !in x
    ensures var s := x + [NEWLINE] + xs; s[|x|] == NEWLINE && forall i :: 0 <= i < |x| ==> s[i] != NEWLINE
  {
  }

  lemma LineEnds(x: Bytes, xs: Bytes, y: Bytes, ys: Bytes)
    requires NEWLINE !in x && NEWLINE !in y && x + [NEWLINE] + xs == y + [NEWLINE] + ys
    ensures x == y && xs == ys
  {
    var s, t := x + [NEWLINE] + xs, y + [NEWLINE] + ys;
    FirstNewline(x, xs);
    FirstNewline(y, ys);
    assert |x| == |y|;
    assert s[..|x|] == x && t[..|y|] == y;
    assert s[|x| + 1..] == xs && t[|y| + 1..] == ys;
  }

  lemma TwoLines(x: Bytes, y: Bytes)
    ensures Lines([x, y]) == x + [NEWLINE] + y + [NEWLINE]
  {
    assert [x, y][1..] == [y] && [y][1..] == [];
    assert Lines([y]) == y + [NEWLINE] + Lines([y][1..]) == y + [NEWLINE];
    assert Lines([x, y]) == x + [NEWLINE] + Lines([x, y][1..]);
  }

  /** Without newlines, or with one path, every list is pinned, whatever else is reported. */
  lemma OneLinePinned(host: Host, t: Totals, a: seq<Bytes>)
    requires |a| <= 1 || OneLine(a)
    ensures Sole(a) && Pinned(host, t, a)
  {
    hide Lines, Cuts, OneLine, Pinned, Increasing;
    forall b | b in Cuts(Lines(a), |a|) ensures b == a {
      CutsExact(Lines(a), |a|, b);
      SameTextSameList(a, b);
    }
    SolePinned(host, t, a);
  }

  lemma SolePinned(host: Host, t: Totals, a: seq<Bytes>)
    requires Sole(a)
    ensures Pinned(host, t, a)
  {
    hide Lines, Cuts, Possible, Increasing;
    forall b | b in Cuts(Lines(a), |a|) && Possible(host, t, b) ensures b == a { PossibleSorted(host, t, b); }
  }

  /** A newline need not matter: `a\n` and `b` can only be confused with `a` and `\nb`, which
      are not in order. */
  lemma NewlineHarmless(host: Host, t: Totals)
    ensures var a: seq<Bytes> := [[97, 10], [98]]; !OneLine(a) && Sole(a) && Pinned(host, t, a)
  {
    hide Lines, Cuts, Pinned, Less;
    var a: seq<Bytes> := [[97, 10], [98]];
    assert NEWLINE in a[0];
    TwoLines(a[0], a[1]);
    forall b | b in Cuts(Lines(a), |a|) && Increasing(b) ensures b == a {
      CutsExact(Lines(a), |a|, b);
      TwoLines(b[0], b[1]);
      assert b == [b[0], b[1]];
      TwoCuts(b[0], b[1]);
    }
    SolePinned(host, t, a);
  }

  lemma TwoCuts(x: Bytes, y: Bytes)
    requires x + [NEWLINE] + y + [NEWLINE] == [97, 10, 10, 98, 10] && Less(x, y)
    ensures x == [97, 10] && y == [98]
  {
    var text: Bytes := [97, 10, 10, 98, 10];
    assert text[..|x|] == x && text[|x|] == NEWLINE && text[|x| + 1..4] == y;
    assert |x| == 1 || |x| == 2;
  }

  /* ----- two trees that one measurement cannot tell apart ----- */

  const LEFT: Tree := map[[97, 10, 98] := Regular(0), [99] := Regular(0)]
  const RIGHT: Tree := map[[97] := Regular(0), [98, 10, 99] := Regular(0)]

  function RightScan(): Bytes -> seq<Bytes> { d => if d == [] then [[97], [98, 10, 99]] else [] }

  lemma SumPair(p: Bytes, q: Bytes, f: Bytes -> int)
    ensures Sum([p, q], f) == f(p) + f(q)
  {
    assert [p, q] == [p] + [q];
    SumSnoc([p], q, f);
    assert [p] == [] + [p];
    SumSnoc([], p, f);
  }

  lemma TwoFiles(host: Host, tree: Tree, p: Bytes, q: Bytes)
    requires tree == map[p := Regular(0), q := Regular(0)] && p != q && host.fold(p) != host.fold(q)
    ensures Enumerates(tree, [p, q])
    ensures Measures(host, tree, [p, q], Totals(2, map[File := 2], 0, 0, [], Manifest(host, [p, q]), 0, 0, 0))
  {
    hide Manifest, Escapes, Less, Sum;
    var paths := [p, q];
    assert Elements(paths) == tree.Keys;
    forall k ensures Sum(paths, IsKind(tree, k)) == if k == File then 2 else 0 { SumPair(p, q, IsKind(tree, k)); }
    assert KindCounts(tree, paths) == map[File := 2];
    SumPair(p, q, FileSize(tree));
    SumPair(p, q, Leaves(tree));
    assert Folded(host, paths) == {host.fold(p), host.fold(q)};
  }

  lemma SameLeftRight()
    ensures Lines([[97, 10, 98], [99]]) == Lines([[97], [98, 10, 99]])
  {
    hide Lines;
    TwoLines([97, 10, 98], [99]);
    TwoLines([97], [98, 10, 99]);
  }

  lemma LeftRightManifest(host: Host)
    ensures Manifest(host, [[97, 10, 98], [99]]) == Manifest(host, [[97], [98, 10, 99]])
  {
    hide Sort, Lines;
    SortedPair([97, 10, 98], [99]);
    SortedPair([97], [98, 10, 99]);
    SameLeftRight();
  }

  lemma SortedPair(p: Bytes, q: Bytes)
    requires p != [] && q != [] && p[0] < q[0]
    ensures Sort([p, q]) == [p, q]
  {
    assert [p, q][1..] == [q] && [q][1..] == [];
    assert Sort([q]) == Insert(q, Sort([q][1..])) == [q];
    assert !Less(q, p);
    assert Sort([p, q]) == Insert(p, Sort([p, q][1..]));
  }

  /** The table lists `a\nb` and `c`, the tree holds `a` and `b\nc`, and the measurement
      passes, with any digest and a case folding that changes nothing: the table's list is not
      pinned. */
  method NewlineTreesPass(hash: Bytes -> Bytes) returns (r: Result<Totals>)
    ensures r.Ok? && LEFT.Keys != RIGHT.Keys && !Pinned(Host(hash, s => s), r.value, [[97, 10, 98], [99]])
    ensures IsMeasure(Host(hash, s => s), LEFT, r.value) && IsMeasure(Host(hash, s => s), RIGHT, r.value)
  {
    hide Manifest, Measures, Enumerates, IsMeasure, SameMeasure, Pinned, Sort;
    var host := Host(hash, s => s);
    var left: seq<Bytes> := [[97, 10, 98], [99]];
    assert [99] in LEFT && [99] !in RIGHT;
    BothMeasured(host);
    RightRooted();
    r := Measure(host, LEFT, left, RIGHT, RightScan());
    LeftUnpinned(host, r.value);
  }

  lemma LeftUnpinned(host: Host, t: Totals)
    requires IsMeasure(host, RIGHT, t) && Rooted(RIGHT) && NoSpecial(RIGHT)
    ensures !Pinned(host, t, [[97, 10, 98], [99]])
  {
    hide Measures, Enumerates, Rooted, NoSpecial, Sort, Lines, Possible, Cuts, Increasing;
    var a: seq<Bytes> := [[97, 10, 98], [99]];
    var b: seq<Bytes> := [[97], [98, 10, 99]];
    var paths :| Enumerates(RIGHT, paths) && Measures(host, RIGHT, paths, t);
    ShapeNeeded(host, RIGHT, paths, t);
    RightSorted();
    SortedUniqueKeys(RIGHT, paths, b);
    SameLeftRight();
    CutsExact(Lines(a), |a|, b);
    assert a[1] != b[1];
  }

  lemma RightSorted()
    ensures var b: seq<Bytes> := [[97], [98, 10, 99]]; Increasing(b) && RIGHT.Keys == Elements(b)
  {
  }

  lemma BothMeasured(host: Host)
    requires host.fold([97, 10, 98]) != host.fold([99]) && host.fold([97]) != host.fold([98, 10, 99])
    ensures Enumerates(LEFT, [[97, 10, 98], [99]]) && SameMeasure(host, LEFT, RIGHT)
  {
    hide Manifest, Measures, Enumerates;
    var a: seq<Bytes> := [[97, 10, 98], [99]];
    var b: seq<Bytes> := [[97], [98, 10, 99]];
    TwoFiles(host, LEFT, a[0], a[1]);
    TwoFiles(host, RIGHT, b[0], b[1]);
    LeftRightManifest(host);
    var t := Totals(2, map[File := 2], 0, 0, [], Manifest(host, a), 0, 0, 0);
    assert IsMeasure(host, LEFT, t) && IsMeasure(host, RIGHT, t);
  }

  lemma RightRooted()
    ensures Rooted(RIGHT) && Lists(RIGHT, RightScan()) && NoSpecial(LEFT) && NoSpecial(RIGHT)
  {
    hide Dirname, Normalized;
    var b: seq<Bytes> := [[97], [98, 10, 99]];
    forall i | 0 <= i < 2 ensures Normalized(b[i]) && Dirname(b[i]) == [] && PlainName(b[i]) {
      SplitOne(b[i]);
      NormalizedIsPlain(b[i]);
      DirnameName(b[i]);
    }
    forall p | p in RIGHT ensures Normalized(p) && IsDirectory(RIGHT, Dirname(p)) { assert p == b[0] || p == b[1]; }
    forall n ensures n in b <==> PlainName(n) && ChildPath([], n) in RIGHT { assert n in RIGHT <==> n == b[0] || n == b[1]; }
    assert ListsOne(RIGHT, [], b);
  }
}
