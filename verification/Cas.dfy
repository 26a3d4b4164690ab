/** The content-addressed store as a directory of names and files: what it means for an
    artifact to be present and verified, and which changes can disturb that. */
module Cas {
  import opened ByteStrings

  /** Names in the store's one directory. */
  datatype Name = Object(digest: Bytes) | Temporary(digest: Bytes, token: nat)

  datatype Inode = Inode(content: Bytes, regular: bool, mode: nat, owner: nat)

  /** Names point at files by number; `next` is above every number in use. */
  datatype Dir = Dir(names: map<Name, nat>, inodes: map<nat, Inode>, next: nat)

  /** The digest function, left abstract, and the user the acquirer runs as. */
  datatype Host = Host(hash: Bytes -> Bytes, uid: nat)

  datatype Spec = Spec(artifactId: Bytes, sha256: Bytes, size: nat)

  const PRIVATE_MODE: nat := 0x180   // rw for the owner only

  predicate WellFormed(d: Dir) {
    forall n :: n in d.names ==> d.names[n] in d.inodes && d.names[n] < d.next
  }

  function NamesOf(d: Dir, ino: nat): set<Name> { set n | n in d.names && d.names[n] == ino }

  /** The check made on every artifact before it is relied on: absent, verified, or a
      refusal if something of that name is not the artifact. */
  function Verify(host: Host, d: Dir, spec: Spec): Result<bool>
    requires WellFormed(d)
  {
    if Object(spec.sha256) !in d.names then Ok(false)
    else
      var ino := d.names[Object(spec.sha256)];
      var file := d.inodes[ino];
      if !file.regular || file.mode != PRIVATE_MODE || file.owner != host.uid || |NamesOf(d, ino)| != 1 then Fail
      else if |file.content| != spec.size || host.hash(file.content) != spec.sha256 then Fail
      else Ok(true)
  }

  predicate Verified(host: Host, d: Dir, spec: Spec)
    requires WellFormed(d)
  {
    Verify(host, d, spec) == Ok(true)
  }

  /** The name leads to a regular file of mode 0600, the user's own and with no other name,
      of that size and that digest. */
  predicate Genuine(host: Host, d: Dir, spec: Spec)
    requires WellFormed(d)
  {
    var n := Object(spec.sha256);
    && n in d.names
    && (forall m :: m in d.names && d.names[m] == d.names[n] ==> m == n)
    && var file := d.inodes[d.names[n]];
      && file.regular && file.mode == 384 && file.owner == host.uid
      && |file.content| == spec.size && host.hash(file.content) == spec.sha256
  }

  /** The check answers absent exactly when the name is free, and verified exactly when
      what is there is genuine; anything else is refused. */
  lemma VerifyExact(host: Host, d: Dir, spec: Spec)
    requires WellFormed(d)
    ensures Verify(host, d, spec) == Ok(false) <==> Object(spec.sha256) !in d.names
    ensures Verify(host, d, spec) == Ok(true) <==> Genuine(host, d, spec)
  {
    var n := Object(spec.sha256);
    if n in d.names {
      var named := NamesOf(d, d.names[n]);
      assert n in named;
      if |named| == 1 {
        OneName(named, n);
        assert forall m :: m in d.names && d.names[m] == d.names[n] ==> m in named;
      } else {
        assert named != {n};
        var m :| m in named && m != n;
      }
    }
  }

  /** Every visible object hashes to its own name. */
  predicate Honest(host: Host, d: Dir)
    requires WellFormed(d)
  {
    forall n :: n in d.names && n.Object? ==> host.hash(d.inodes[d.names[n]].content) == n.digest
  }

  /** What a reader of the store can see: the file behind each object. */
  function Visible(d: Dir): map<Bytes, Inode>
    requires WellFormed(d)
  {
    map n | n in d.names && n.Object? :: n.digest := d.inodes[d.names[n]]
  }

  /* ----- changes that disturb nothing ----- */

  /** No object is removed, renamed or altered, and no earlier file gains a name. */
  predicate Preserves(a: Dir, b: Dir) {
    && a.next <= b.next
    && (forall n :: n in a.names && n.Object? ==> n in b.names && b.names[n] == a.names[n])
    && (forall n :: n in b.names && b.names[n] < a.next ==> n in a.names && a.names[n] == b.names[n])
    && (forall i :: i in a.inodes && i < a.next ==> i in b.inodes && b.inodes[i] == a.inodes[i])
  }

  /** In addition no name disappears, and every new name belongs to one digest. */
  predicate Adds(a: Dir, b: Dir, digest: Bytes) {
    && Preserves(a, b)
    && (forall n :: n in a.names ==> n in b.names && b.names[n] == a.names[n])
    && (forall n :: n in b.names && n !in a.names ==> n.digest == digest)
  }

  lemma PreservesReflexive(a: Dir)
    ensures Preserves(a, a)
  {
  }

  lemma PreservesTransitive(a: Dir, b: Dir, c: Dir)
    requires Preserves(a, b) && Preserves(b, c)
    ensures Preserves(a, c)
  {
  }

  lemma PreservesVisible(a: Dir, b: Dir)
    requires WellFormed(a) && WellFormed(b) && Preserves(a, b)
    ensures forall d :: d in Visible(a) ==> d in Visible(b) && Visible(b)[d] == Visible(a)[d]
  {
    forall d | d in Visible(a) ensures d in Visible(b) && Visible(b)[d] == Visible(a)[d] {
      assert Object(d) in a.names && Object(d) in b.names;
    }
  }

  lemma SameVisible(a: Dir, b: Dir)
    requires WellFormed(a) && WellFormed(b)
    requires forall n: Name :: n.Object? ==> (n in a.names <==> n in b.names)
    requires forall n: Name :: n.Object? && n in a.names && n in b.names ==> a.inodes[a.names[n]] == b.inodes[b.names[n]]
    ensures Visible(a) == Visible(b)
  {
    hide WellFormed;
    forall d | d in Visible(a) ensures d in Visible(b) && Visible(b)[d] == Visible(a)[d] {
      assert Object(d) in a.names && Object(d) in b.names;
    }
    forall d | d in Visible(b) ensures d in Visible(a) {
      assert Object(d) in a.names;
    }
  }

  /** A verified artifact stays verified. */
  lemma VerifiedPersists(host: Host, a: Dir, b: Dir, spec: Spec)
    requires WellFormed(a) && WellFormed(b) && Preserves(a, b) && Verified(host, a, spec)
    ensures Verified(host, b, spec)
  {
    var n := Object(spec.sha256);
    var ino := a.names[n];
    OneName(NamesOf(a, ino), n);
    assert NamesOf(b, ino) == {n};
  }

  lemma OneName<T>(s: set<T>, x: T)
    requires |s| == 1 && x in s
    ensures s == {x}
  {
    var rest := s - {x};
    assert |rest| == 0;
  }

  /** The check on any other artifact answers exactly as before. */
  lemma VerifyUndisturbed(host: Host, a: Dir, b: Dir, digest: Bytes, spec: Spec)
    requires WellFormed(a) && WellFormed(b) && Adds(a, b, digest) && spec.sha256 != digest
    ensures Verify(host, b, spec) == Verify(host, a, spec)
  {
    var n := Object(spec.sha256);
    if n in a.names {
      assert NamesOf(b, a.names[n]) == NamesOf(a, a.names[n]);
    }
  }

  /* ----- the system calls ----- */

  function Create(host: Host, d: Dir, t: Name): Dir {
    Dir(d.names[t := d.next], d.inodes[d.next := Inode([], true, PRIVATE_MODE, host.uid)], d.next + 1)
  }

  function Append(d: Dir, t: Name, data: Bytes): Dir
    requires WellFormed(d) && t in d.names
  {
    var file := d.inodes[d.names[t]];
    d.(inodes := d.inodes[d.names[t] := file.(content := file.content + data)])
  }

  function Link(d: Dir, t: Name, n: Name): Dir
    requires t in d.names
  {
    d.(names := d.names[n := d.names[t]])
  }

  function Unlink(d: Dir, t: Name): Dir { d.(names := map n | n in d.names && n != t :: d.names[n]) }

  /** Another publisher's file under the same digest, and whether its own temporary name
      is still there. */
  datatype Rival = Rival(file: Inode, token: nat, lingers: bool)

  /** What the race left behind; nothing, if the object was already there. */
  function Race(d: Dir, digest: Bytes, rival: Option<Rival>): Dir {
    if rival.None? || Object(digest) in d.names then d
    else
      var named := d.names[Object(digest) := d.next];
      var t := Temporary(digest, rival.value.token);
      Dir(if rival.value.lingers && t !in d.names then named[t := d.next] else named,
          d.inodes[d.next := rival.value.file], d.next + 1)
  }

  predicate HonestRival(host: Host, digest: Bytes, rival: Option<Rival>) {
    rival.Some? ==> host.hash(rival.value.file.content) == digest
  }

  lemma RaceAdds(d: Dir, digest: Bytes, rival: Option<Rival>)
    requires WellFormed(d)
    ensures WellFormed(Race(d, digest, rival)) && Adds(d, Race(d, digest, rival), digest)
    ensures rival.Some? ==> Object(digest) in Race(d, digest, rival).names
  {
  }

  lemma RaceEffect(host: Host, d: Dir, digest: Bytes, rival: Option<Rival>)
    requires WellFormed(d)
    ensures WellFormed(Race(d, digest, rival)) && Adds(d, Race(d, digest, rival), digest)
    ensures Honest(host, d) && HonestRival(host, digest, rival) ==> Honest(host, Race(d, digest, rival))
    ensures rival.Some? ==> Object(digest) in Race(d, digest, rival).names
  {
    RaceAdds(d, digest, rival);
    hide Adds;
  }
}
