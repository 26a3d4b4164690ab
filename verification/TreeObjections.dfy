/** Each objection to a pair of trees, spelled out on the trees' own paths and fields. */
module TreeObjections {
  import opened ByteStrings
  import opened Paths
  import opened TreeDiff

  /** A required directory's path that the later tree has and the earlier one has not. */
  predicate Arrived(before: Tree, after: Tree, wanted: map<Bytes, nat>, p: Bytes) {
    p in after && p !in before && p != [] && p[0] == 47 && p[1..] in wanted
  }

  predicate IsDirectory(entry: Fields) { "kind" in entry && entry["kind"] == KindOf(Directory) }

  predicate OwnedBy(entry: Fields, uid: int, gid: int) {
    "uid" in entry && entry["uid"] == Number(uid) && "gid" in entry && entry["gid"] == Number(gid)
  }

  /** When an objection is due. */
  predicate Due(before: Tree, after: Tree, wanted: map<Bytes, nat>, linksAgree: bool, reason: Reason) {
    match reason
    case Absent(p) => p in before && p !in after
    case Differs(p) => p in before && p in after && before[p] != after[p]
    case Unexpected(p) => p in after && p !in before && !(p != [] && p[0] == 47 && p[1..] in wanted)
    case NotAdded(p) => p != [] && p[0] == 47 && p[1..] in wanted && (p in after ==> p in before)
    case NotDirectory(p) => Arrived(before, after, wanted, p) && !IsDirectory(after[p])
    case WrongMode(p) =>
      && Arrived(before, after, wanted, p) && IsDirectory(after[p])
      && !("mode" in after[p] && after[p]["mode"] == Number(wanted[p[1..]]))
    case NotRootOwned(p) =>
      Arrived(before, after, wanted, p) && IsDirectory(after[p]) && !OwnedBy(after[p], 0, 0)
    case HasAttributes(p) =>
      && Arrived(before, after, wanted, p) && IsDirectory(after[p]) && "xattrs" in after[p]
      && after[p]["xattrs"] != Attributes(map[]) && after[p]["xattrs"] != Number(0) && after[p]["xattrs"] != Text([])
    case LinkGroupsDiffer => !linksAgree
  }

  lemma RootedParts(p: Bytes, w: Bytes)
    ensures p == Rooted(w) <==> p != [] && p[0] == 47 && p[1..] == w
  {
  }

  /** A required entry's objections, each by its own field. */
  lemma EntryObjections(path: Bytes, entry: Fields, mode: nat, reason: Reason)
    ensures reason in AddedDirectoryReasons(path, entry, mode) <==>
      match reason
      case NotDirectory(p) => p == path && !IsDirectory(entry)
      case WrongMode(p) => p == path && IsDirectory(entry) && !("mode" in entry && entry["mode"] == Number(mode))
      case NotRootOwned(p) => p == path && IsDirectory(entry) && !OwnedBy(entry, 0, 0)
      case HasAttributes(p) =>
        && p == path && IsDirectory(entry) && "xattrs" in entry && entry["xattrs"] != Attributes(map[])
        && entry["xattrs"] != Number(0) && entry["xattrs"] != Text([])
      case _ => false
  {
    hide HasXattrs;
    AttributesEither(entry);
  }

  /** The objections that come from a required directory's entry. */
  lemma ArrivedObjections(before: Tree, after: Tree, wanted: map<Bytes, nat>, reason: Reason)
    ensures reason in RequiredReasons(DiffTrees(before, after), wanted, wanted.Keys) <==>
      && !reason.LinkGroupsDiffer? && Arrived(before, after, wanted, reason.path)
      && reason in AddedDirectoryReasons(reason.path, after[reason.path], wanted[reason.path[1..]])
  {
    hide AddedDirectoryReasons, ChangedFields;
    var diff := DiffTrees(before, after);
    if reason in RequiredReasons(diff, wanted, wanted.Keys) {
      var w :| w in wanted && Rooted(w) in diff.added && reason in AddedDirectoryReasons(Rooted(w), diff.added[Rooted(w)], wanted[w]);
      EntryObjections(Rooted(w), diff.added[Rooted(w)], wanted[w], reason);
      RootedParts(Rooted(w), w);
    }
    if !reason.LinkGroupsDiffer? && Arrived(before, after, wanted, reason.path) {
      var w := reason.path[1..];
      RootedParts(reason.path, w);
      assert w in wanted.Keys && Rooted(w) in diff.added && diff.added[Rooted(w)] == after[reason.path];
    }
  }

  /** The verdict's objections are the ones that are due, each for its own reason, and no
      other. */
  lemma ObjectionsExact(before: Tree, after: Tree, wanted: map<Bytes, nat>, linksAgree: bool, reason: Reason)
    ensures reason in Reasons(DiffTrees(before, after), wanted, linksAgree) <==> Due(before, after, wanted, linksAgree, reason)
  {
    hide AddedDirectoryReasons, Reasons, RequiredReasons, DiffTrees, Arrived, IsDirectory, OwnedBy, ExtraPaths, UnaddedNames;
    var diff := DiffTrees(before, after);
    ReasonsByPart(diff, wanted, linksAgree);
    ArrivedObjections(before, after, wanted, reason);
    if !reason.LinkGroupsDiffer? && Arrived(before, after, wanted, reason.path) {
      ArrivedIs(before, after, wanted, reason.path);
      EntryObjections(reason.path, after[reason.path], wanted[reason.path[1..]], reason);
    }
    if !reason.LinkGroupsDiffer? { PathObjections(before, after, wanted, reason.path); }
  }

  /** The objections that come from the paths alone. */
  lemma PathObjections(before: Tree, after: Tree, wanted: map<Bytes, nat>, p: Bytes)
    ensures var diff := DiffTrees(before, after);
      && (p in diff.removed <==> p in before && p !in after)
      && (p in diff.changed <==> p in before && p in after && before[p] != after[p])
      && (p in ExtraPaths(diff, wanted) <==> p in after && p !in before && !(p != [] && p[0] == 47 && p[1..] in wanted))
      && ((exists w :: w in UnaddedNames(diff, wanted) && p == Rooted(w)) <==>
            p != [] && p[0] == 47 && p[1..] in wanted && (p in after ==> p in before))
  {
    hide ChangedFields;
    var diff := DiffTrees(before, after);
    if p in before && p in after { UnchangedFields(before[p], after[p]); }
    if p != [] { RootedParts(p, p[1..]); }
    forall w | w in UnaddedNames(diff, wanted) && p == Rooted(w) ensures p != [] && p[0] == 47 && p[1..] == w { RootedParts(p, w); }
  }

  lemma ArrivedIs(before: Tree, after: Tree, wanted: map<Bytes, nat>, p: Bytes)
    requires Arrived(before, after, wanted, p)
    ensures p in after && p !in before && p != [] && p[0] == 47 && p[1..] in wanted
  {
  }

  /** The verdict passes exactly when no objection is due; then a required directory's
      attributes, where a reader recorded any, are the empty map. */
  lemma PassExact(before: Tree, after: Tree, wanted: map<Bytes, nat>, linksAgree: bool)
    ensures Reasons(DiffTrees(before, after), wanted, linksAgree) == {} <==>
            forall reason :: !Due(before, after, wanted, linksAgree, reason)
    ensures Reasons(DiffTrees(before, after), wanted, linksAgree) == {} ==>
            forall w :: w in wanted ==>
              && [47] + w in after && IsDirectory(after[[47] + w])
              && ("xattrs" in after[[47] + w] && after[[47] + w]["xattrs"].Attributes? ==> after[[47] + w]["xattrs"].a == map[])
  {
    hide Reasons, Due, DiffTrees;
    forall reason ensures reason in Reasons(DiffTrees(before, after), wanted, linksAgree) <==> Due(before, after, wanted, linksAgree, reason) {
      ObjectionsExact(before, after, wanted, linksAgree, reason);
    }
    VerdictExact(before, after, wanted, linksAgree);
    if Reasons(DiffTrees(before, after), wanted, linksAgree) == {} {
      forall w | w in wanted
        ensures [47] + w in after && IsDirectory(after[[47] + w])
        ensures "xattrs" in after[[47] + w] && after[[47] + w]["xattrs"].Attributes? ==> after[[47] + w]["xattrs"].a == map[]
      {
        assert Rooted(w) == [47] + w && RequiredEntry(after[Rooted(w)], wanted[w]);
      }
    }
  }
}
