/** The effect of each namespace call, on every path at once and on every crash. */
module Steps {
  import opened Wrappers
  import opened Disk
  import opened CrashSafety

  /** Only prefixes of `path` that showed nothing have changed, and each of those now shows a directory. */
  ghost predicate Grew(was: Disk, now: Disk, path: Path) {
    forall q :: now.Look([], q) == was.Look([], q)
             || (q <= path && was.Look([], q) == Absent && now.Look([], q).Folder?)
  }

  /** The crash outcomes of every path below a directory at `path` are confined. */
  ghost predicate ConfinedBelow(was: Disk, now: Disk, path: Path) {
    forall target: Path, bytes | |path| < |target| :: Confined(was, now, target, bytes)
  }

  lemma MkdirValid(d: Disk, k: Key)
    requires d.Valid() && d.Issued(k.dir) && k !in d.entries
    ensures d.Mkdir(k).Valid()
  {
    IssueValid(d);
    var more := d.(next := d.next + 1);
    var id := k.dir + [Hop(d.next, k.name)];
    assert more.Fits(k, Dir(id));
    PutValid(more, k, Some(Dir(id)));
    assert d.Mkdir(k) == more.Put(k, Some(Dir(id)));
  }

  lemma MkdirConfines(d: Disk, k: Key)
    requires d.Valid() && d.Issued(k.dir) && k !in d.entries
    ensures ConfinedBelow(d, d.Mkdir(k), PathOfKey(k))
  {
    var now, id := d.Mkdir(k), k.dir + [Hop(d.next, k.name)];
    MkdirValid(d, k);
    ValidLayers(now);
    IssueValid(d);
    assert None in d.Choices(k);
    forall below: Key | below.dir == id ensures now.Choices(below) == {None} {
      assert Hop(d.next, k.name) in below.dir;
    }
    forall target: Path, bytes | |PathOfKey(k)| < |target| ensures Confined(d, now, target, bytes) {
      MkdirSafe(d, now, k, id, target, bytes);
    }
  }

  lemma MkdirSafe(d: Disk, now: Disk, k: Key, id: DirId, target: Path, bytes: Bytes)
    requires Layered(now) && now.synced == d.synced && None in d.Choices(k) && |k.dir| < |target| - 1
    requires forall j, e | e in now.Choices(j) :: e in d.Choices(j) || (j == k && e == Some(Dir(id)))
    requires forall below: Key | below.dir == id :: now.Choices(below) == {None}
    ensures Confined(d, now, target, bytes)
  {
    assert Hollow(d, now, target, k, Some(Dir(id)));
    StepConfines(d, now, target, bytes);
  }

  lemma MkdirGrows(d: Disk, parent: Path, k: Key)
    requires d.Valid() && d.Open([], parent) == Ok(k.dir) && k !in d.entries
    ensures Grew(d, d.Mkdir(k), parent + [k.name])
    ensures d.Mkdir(k).Open([], parent + [k.name]).Ok?
  {
    var now, id := d.Mkdir(k), k.dir + [Hop(d.next, k.name)];
    var path := parent + [k.name];
    OpenNames(d, [], parent, k.dir);
    assert PathOfKey(k) == path;
    OpenIsLook(d, [], parent, k.dir);
    forall j: Key | PathOfKey(j) <= parent ensures now.Entry(j) == d.Entry(j) {
      assert |PathOfKey(j)| <= |parent| < |PathOfKey(k)|;
    }
    LookFrame(d, now, [], parent);
    OpenIsLook(now, [], parent, k.dir);
    LookLast(d, [], parent, k.name);
    LookLast(now, [], parent, k.name);
    assert now.Look(k.dir, [k.name]) == Folder(id);
    OpenIsLook(now, [], path, id);
    forall q | !(q == path)
      ensures now.Look([], q) == d.Look([], q)
    {
      if path <= q {
        HollowBelow(d, now, parent, k, id, q);
      } else {
        LookFrame(d, now, [], q);
      }
    }
  }

  /** Nothing shows below a directory that has just been made, as nothing did before. */
  lemma HollowBelow(d: Disk, now: Disk, parent: Path, k: Key, id: DirId, q: Path)
    requires d.Valid() && d.Open([], parent) == Ok(k.dir) && k !in d.entries
    requires now == d.Mkdir(k) && id == k.dir + [Hop(d.next, k.name)]
    requires now.Open([], parent + [k.name]) == Ok(id)
    requires parent + [k.name] < q
    ensures now.Look([], q) == d.Look([], q)
  {
    var path := parent + [k.name];
    IssueValid(d);
    LookDown(d, [], parent, q[|parent|..]);
    LookDown(now, [], path, q[|path|..]);
    assert parent + q[|parent|..] == q == path + q[|path|..];
    var below := Key(id, q[|path|]);
    assert Hop(d.next, k.name) in below.dir;
    assert below !in d.entries;
  }

  lemma {:induction false} LookDown(d: Disk, at: DirId, p: Path, rest: Path)
    requires d.Open(at, p).Ok?
    ensures d.Look(at, p + rest) == d.Look(d.Open(at, p).value, rest)
    decreases |p|
  {
    if p == [] {
      assert p + rest == rest;
    } else {
      assert (p + rest)[1..] == p[1..] + rest;
      LookDown(d, d.entries[Key(at, p[0])].id, p[1..], rest);
    }
  }

  lemma ConfinedDeeper(a: Disk, b: Disk, parent: Path, path: Path)
    requires ConfinedBelow(a, b, parent) && |parent| <= |path|
    ensures ConfinedBelow(a, b, path)
  {
    forall target: Path, bytes | |path| < |target| ensures Confined(a, b, target, bytes) {
    }
  }

  lemma ConfinedChain(a: Disk, b: Disk, c: Disk, path: Path)
    requires ConfinedBelow(a, b, path) && ConfinedBelow(b, c, path)
    ensures ConfinedBelow(a, c, path)
  {
    forall target: Path, bytes | |path| < |target| ensures Confined(a, c, target, bytes) {
      assert Confined(a, b, target, bytes) && Confined(b, c, target, bytes);
    }
  }

  /** Two disks that differ at one entry, a directory on neither, show every other path alike. */
  lemma {:induction false} LookExcept(d: Disk, d': Disk, k: Key, at: DirId, q: Path)
    requires d.Valid()
    requires forall j: Key | j != k :: d'.Entry(j) == d.Entry(j)
    requires forall i: nat | i < d.next :: d'.Content(i) == d.Content(i)
    requires k in d.entries ==> !d.entries[k].Dir?
    requires k in d'.entries ==> !d'.entries[k].Dir?
    requires PathOf(at) + q != PathOfKey(k)
    ensures d'.Look(at, q) == d.Look(at, q)
    decreases |q|
  {
    if q != [] {
      var j := Key(at, q[0]);
      if j == k {
        assert |q| == 1 ==> PathOf(at) + q == PathOfKey(k);
      } else if j in d.entries {
        assert Some(d.entries[j]) in d.Choices(j);
        assert d.Fits(j, d.entries[j]);
        if d.entries[j].Dir? {
          assert PathOf(d.entries[j].id) + q[1..] == PathOf(at) + q;
          LookExcept(d, d', k, d.entries[j].id, q[1..]);
        }
      }
    }
  }

  /** Entries below `p` do not decide whether `p` opens. */
  lemma OpenKept(d: Disk, d': Disk, p: Path, id: DirId)
    requires d.Valid() && d.Open([], p) == Ok(id)
    requires forall k: Key | |k.dir| < |p| :: d'.Entry(k) == d.Entry(k)
    ensures d'.Open([], p) == Ok(id)
  {
    OpenKeptFrom(d, d', [], p, id, |p|);
  }

  lemma {:induction false} OpenKeptFrom(d: Disk, d': Disk, at: DirId, p: Path, id: DirId, depth: nat)
    requires d.Valid() && d.Open(at, p) == Ok(id) && |at| + |p| == depth
    requires forall k: Key | |k.dir| < depth :: d'.Entry(k) == d.Entry(k)
    ensures d'.Open(at, p) == Ok(id)
    decreases |p|
  {
    if p != [] {
      var k := Key(at, p[0]);
      assert Some(d.entries[k]) in d.Choices(k);
      assert d.Fits(k, d.entries[k]);
      OpenKeptFrom(d, d', d.entries[k].id, p[1..], id, depth);
    }
  }
}
