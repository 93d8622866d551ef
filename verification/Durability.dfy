/** When a file whose entry and contents are on the disk survives every crash. */
module Durability {
  import opened Wrappers
  import opened Disk
  import opened CrashSafety

  /** What the entry `name` may show once a crash has left `w` at its parent's path. */
  ghost predicate Then(d: Disk, w: View, name: string, v: View) {
    if w.Folder? then MayLeave(d, w.id, [name], v) else v == Absent
  }

  lemma {:induction false} SplitLast(d: Disk, at: DirId, parent: Path, name: string, v: View) returns (w: View)
    requires MayLeave(d, at, parent + [name], v)
    ensures MayLeave(d, at, parent, w) && Then(d, w, name, v)
    decreases |parent|
  {
    if parent == [] {
      w := Folder(at);
      assert parent + [name] == [name];
    } else {
      var path, key := parent + [name], Key(at, parent[0]);
      assert path[1..] == parent[1..] + [name];
      var e :| e in d.Choices(key) && MayShow(d, e, path, v);
      match e
      case None => w := Absent;
      case Some(Dir(i)) => w := SplitLast(d, i, parent[1..], name, v);
      case Some(File(i)) =>
        w := if |parent| == 1 then Holds(i, if i in d.synced then d.synced[i] else []) else Absent;
      case Some(Link(t)) => w := if |parent| == 1 then Symlink(t) else Absent;
      assert MayShow(d, e, parent, w);
    }
  }

  lemma {:induction false} JoinLast(d: Disk, at: DirId, parent: Path, name: string, w: View, v: View)
    requires MayLeave(d, at, parent, w) && Then(d, w, name, v)
    ensures MayLeave(d, at, parent + [name], v)
    decreases |parent|
  {
    var path := parent + [name];
    if parent == [] {
      assert path == [name];
    } else {
      assert path[1..] == parent[1..] + [name];
      var e :| e in d.Choices(Key(at, parent[0])) && MayShow(d, e, parent, w);
      if e.Some? && e.value.Dir? {
        JoinLast(d, e.value.id, parent[1..], name, w, v);
      }
      assert MayShow(d, e, path, v);
    }
  }

  /** Every outcome the shallow entries of `d` allow is allowed by `d'` too. */
  ghost predicate WiderAbove(d: Disk, d': Disk, depth: nat) {
    && (forall k: Key, e | |k.dir| < depth && e in d.Choices(k) :: e in d'.Choices(k))
    && (forall k: Key, i | |k.dir| < depth && Some(File(i)) in d.Choices(k) && i in d'.synced ::
          i in d.synced && d'.synced[i] == d.synced[i])
  }

  lemma {:induction false} Wider(d: Disk, d': Disk, at: DirId, p: Path, v: View)
    requires Layered(d) && WiderAbove(d, d', |at| + |p|) && MayLeave(d, at, p, v)
    ensures MayLeave(d', at, p, v)
    decreases |p|
  {
    if p != [] {
      var key := Key(at, p[0]);
      var e :| e in d.Choices(key) && MayShow(d, e, p, v);
      if e.Some? && e.value.Dir? {
        Wider(d, d', e.value.id, p[1..], v);
      }
      assert e in d'.Choices(key) && MayShow(d', e, p, v);
    }
  }

  /** Nothing but the name `g` may be left naming the file `ino`, and a crash is sure to leave it there. */
  ghost predicate Pinned(d: Disk, g: Key, ino: nat, bytes: Bytes) {
    && d.Choices(g) == {Some(File(ino))}
    && ino in d.synced && d.synced[ino] == bytes
    && forall k: Key | k != g && k.name == g.name :: Some(File(ino)) !in d.Choices(k)
  }

  /** Any directory but `g`'s own leaves the entry as something other than the new file. */
  lemma Elsewhere(d: Disk, dir: DirId, g: Key, ino: nat, bytes: Bytes) returns (v: View)
    requires d.Coherent() && Pinned(d, g, ino, bytes) && dir != g.dir
    ensures MayLeave(d, dir, [g.name], v) && v != Holds(ino, bytes)
  {
    var k := Key(dir, g.name);
    var e := d.Entry(k);
    assert e in d.Choices(k);
    assert e != Some(File(ino));
    v := match e {
      case None => Absent
      case Some(Dir(i)) => Folder(i)
      case Some(File(i)) => Holds(i, if i in d.synced then d.synced[i] else [])
      case Some(Link(t)) => Symlink(t)
    };
    assert MayShow(d, e, [g.name], v);
  }

  lemma Survives(was: Disk, now: Disk, parent: Path, g: Key, ino: nat, bytes: Bytes, v: View)
    requires Layered(now) && Pinned(now, g, ino, bytes) && WiderAbove(now, was, |parent|)
    requires forall w | MayLeave(was, [], parent, w) :: w == Folder(g.dir)
    requires MayLeave(now, [], parent + [g.name], v)
    ensures v == Holds(ino, bytes)
  {
    var w := SplitLast(now, [], parent, g.name, v);
    Wider(now, was, [], parent, w);
    OnlyChoice(now, g, ino, bytes, v);
  }

  lemma MayBeLost(was: Disk, now: Disk, parent: Path, g: Key, ino: nat, bytes: Bytes, w: View) returns (v: View)
    requires now.Coherent() && Layered(was) && Pinned(now, g, ino, bytes) && WiderAbove(was, now, |parent|)
    requires MayLeave(was, [], parent, w) && w != Folder(g.dir)
    ensures MayLeave(now, [], parent + [g.name], v) && v != Holds(ino, bytes)
  {
    Wider(was, now, [], parent, w);
    v := Absent;
    if w.Folder? {
      v := Elsewhere(now, w.id, g, ino, bytes);
    }
    JoinLast(now, [], parent, g.name, w, v);
  }

  /** Every crash leaves the new file at its path. */
  ghost predicate AlwaysLeft(d: Disk, path: Path, v: View) {
    forall left | MayLeave(d, [], path, left) :: left == v
  }

  /** Every entry on the way down to `p` is a directory, and has been synced since it last changed. */
  predicate SyncedAlong(d: Disk, at: DirId, p: Path)
    decreases |p|
  {
    p == [] ||
    var key := Key(at, p[0]);
    match d.Entry(key)
    case Some(Dir(i)) => d.Choices(key) == {Some(Dir(i))} && SyncedAlong(d, i, p[1..])
    case _ => false
  }

  ghost predicate OnlyFolder(d: Disk, at: DirId, p: Path, id: DirId) {
    forall left | MayLeave(d, at, p, left) :: left == Folder(id)
  }

  /** A crash leaves something at every path that starts with one of the choices of its first entry. */
  lemma SomethingLeft(d: Disk, at: DirId, p: Path, e: Option<Node>) returns (v: View)
    requires d.Coherent() && p != [] && e in d.Choices(Key(at, p[0]))
    ensures MayShow(d, e, p, v) && MayLeave(d, at, p, v) && (v.Folder? ==> e.Some? && e.value.Dir?)
  {
    match e
    case None => v := Absent;
    case Some(Dir(i)) =>
      var quiet := QuietCrash(d);
      CrashShows(d, quiet, i, p[1..]);
      v := quiet.Look(i, p[1..]);
    case Some(File(i)) => v := if |p| == 1 then Holds(i, if i in d.synced then d.synced[i] else []) else Absent;
    case Some(Link(t)) => v := if |p| == 1 then Symlink(t) else Absent;
  }

  /** A directory that may be left at a path below `at` carries `at` in its name. */
  lemma {:induction false} LeftBelow(d: Disk, at: DirId, p: Path, id: DirId)
    requires d.Valid() && MayLeave(d, at, p, Folder(id))
    ensures at <= id
    decreases |p|
  {
    if p != [] {
      var e :| e in d.Choices(Key(at, p[0])) && MayShow(d, e, p, Folder(id));
      assert e.value.Dir? && d.Fits(Key(at, p[0]), e.value);
      LeftBelow(d, e.value.id, p[1..], id);
    }
  }

  /** Where only one directory may be left, its first entry has no other choice. */
  lemma OneChoice(d: Disk, at: DirId, p: Path, id: DirId, e: Option<Node>)
    requires d.Valid() && p != [] && OnlyFolder(d, at, p, id) && e in d.Choices(Key(at, p[0]))
    ensures |id| > |at| && e == Some(Dir(id[..|at| + 1]))
  {
    var v := SomethingLeft(d, at, p, e);
    assert v == Folder(id) && d.Fits(Key(at, p[0]), e.value);
    LeftBelow(d, e.value.id, p[1..], id);
    assert e.value.id[..|e.value.id| - 1] == at && e.value.id == id[..|e.value.id|];
  }

  /** Every crash leaves the directory at its path exactly when each entry on the way has been synced. */
  lemma {:induction false} SyncedIff(d: Disk, at: DirId, p: Path, id: DirId)
    requires d.Valid()
    ensures OnlyFolder(d, at, p, id) <==> d.Open(at, p) == Ok(id) && SyncedAlong(d, at, p)
    decreases |p|
  {
    if p == [] {
      assert MayLeave(d, at, p, Folder(at));
    } else {
      var key, e := Key(at, p[0]), d.Entry(Key(at, p[0]));
      assert e in d.Choices(key);
      if OnlyFolder(d, at, p, id) {
        forall other | other in d.Choices(key) ensures other == e {
          OneChoice(d, at, p, id, other);
          OneChoice(d, at, p, id, e);
        }
        OneChoice(d, at, p, id, e);
        assert d.Choices(key) == {e};
      }
      if d.Choices(key) == {e} && e.Some? && e.value.Dir? {
        assert forall v :: MayLeave(d, at, p, v) <==> MayLeave(d, e.value.id, p[1..], v) by {
          assert forall v :: MayShow(d, e, p, v) <==> MayLeave(d, e.value.id, p[1..], v);
        }
        SyncedIff(d, e.value.id, p[1..], id);
      }
    }
  }

  /**
   After the entry and its directory are synced, every crash leaves the new file at
   its path exactly when every crash of the disk before the call would have left the
   parent path leading to that same directory. A parent that merely existed is not
   enough: its own entry may not have reached the disk.
   */
  lemma SurvivesIff(was: Disk, now: Disk, parent: Path, g: Key, ino: nat, bytes: Bytes)
    requires was.Coherent() && Layered(was) && now.Coherent() && Layered(now) && Pinned(now, g, ino, bytes)
    requires WiderAbove(was, now, |parent|)
    requires was.Open([], parent) == Ok(g.dir) ==> WiderAbove(now, was, |parent|)
    ensures AlwaysLeft(now, parent + [g.name], Holds(ino, bytes)) <==> AlwaysLeft(was, parent, Folder(g.dir))
  {
    if AlwaysLeft(was, parent, Folder(g.dir)) {
      DurableParentOpens(was, parent, g.dir);
      forall v | MayLeave(now, [], parent + [g.name], v) ensures v == Holds(ino, bytes) {
        Survives(was, now, parent, g, ino, bytes, v);
      }
    } else {
      var w :| MayLeave(was, [], parent, w) && w != Folder(g.dir);
      var v := MayBeLost(was, now, parent, g, ino, bytes, w);
    }
  }

  lemma OnlyChoice(d: Disk, g: Key, ino: nat, bytes: Bytes, v: View)
    requires Pinned(d, g, ino, bytes) && MayLeave(d, g.dir, [g.name], v)
    ensures v == Holds(ino, bytes)
  {
    var e :| e in d.Choices(g) && MayShow(d, e, [g.name], v);
  }

  lemma DurableParentOpens(d: Disk, parent: Path, dir: DirId)
    requires d.Coherent() && AlwaysLeft(d, parent, Folder(dir))
    ensures d.Open([], parent) == Ok(dir)
  {
    var quiet := QuietCrash(d);
    CrashShows(d, quiet, [], parent);
    OpenIsLook(quiet, [], parent, dir);
    SameOpen(d, quiet, [], parent);
  }

  lemma {:induction false} SameOpen(d: Disk, d': Disk, at: DirId, p: Path)
    requires d.entries == d'.entries
    ensures d.Open(at, p) == d'.Open(at, p)
    decreases |p|
  {
    if p != [] && Key(at, p[0]) in d.entries && d.entries[Key(at, p[0])].Dir? {
      SameOpen(d, d', d.entries[Key(at, p[0])].id, p[1..]);
    }
  }
}
