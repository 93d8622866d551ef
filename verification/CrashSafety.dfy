/**
 What one filesystem call may do to a path without widening the crash outcomes there.

 `SafeStep` looks at single entries only; `StepConfines` turns it into a statement
 about whole paths after a crash.
 */
module CrashSafety {
  import opened Wrappers
  import opened Disk

  /** A crash of `now` leaves at `p` what a crash of `was` could have left, or a file holding `bytes`. */
  ghost predicate Confined(was: Disk, now: Disk, p: Path, bytes: Bytes) {
    forall v :: MayLeave(now, [], p, v) ==> MayLeave(was, [], p, v) || (v.Holds? && v.bytes == bytes)
  }

  predicate OnPath(k: Key, p: Path) {
    |k.dir| < |p| && k.name == p[|k.dir|]
  }

  /** The new choice is a directory that nothing is in, where there could be nothing before. */
  ghost predicate Hollow(was: Disk, now: Disk, p: Path, k: Key, e: Option<Node>) {
    && |k.dir| < |p| - 1 && None in was.Choices(k)
    && e.Some? && e.value.Dir?
    && forall below: Key | below.dir == e.value.id :: now.Choices(below) == {None}
  }

  /** The new choice is a file whose contents are already on the disk, at the end of the path. */
  ghost predicate Lands(now: Disk, p: Path, k: Key, e: Option<Node>, bytes: Bytes) {
    && |k.dir| == |p| - 1
    && e.Some? && e.value.File?
    && e.value.ino in now.synced && now.synced[e.value.ino] == bytes
  }

  ghost predicate SafeStep(was: Disk, now: Disk, p: Path, bytes: Bytes) {
    && (forall k, e | OnPath(k, p) && e in now.Choices(k) ::
          e in was.Choices(k) || Hollow(was, now, p, k, e) || Lands(now, p, k, e, bytes))
    && (forall i | i in was.synced :: i in now.synced && now.synced[i] == was.synced[i])
  }

  /** Directories lie one level below the directory that lists them. */
  ghost predicate Layered(d: Disk) {
    forall k, i | Some(Dir(i)) in d.Choices(k) :: |i| == |k.dir| + 1
  }

  /** Every file an entry may be left naming has been issued. */
  ghost predicate Numbered(d: Disk) {
    forall k, i: nat | Some(File(i)) in d.Choices(k) :: i < d.next
  }

  lemma ValidLayers(d: Disk)
    requires d.Valid()
    ensures Layered(d) && d.Coherent() && Numbered(d)
  {
    forall k, i: nat | Some(File(i)) in d.Choices(k) ensures i < d.next {
      assert d.Fits(k, File(i));
    }
  }

  lemma {:induction false} SafeWalk(was: Disk, now: Disk, p: Path, bytes: Bytes, at: DirId, q: Path, v: View)
    requires Layered(now) && SafeStep(was, now, p, bytes)
    requires |at| <= |p| && q == p[|at|..]
    requires MayLeave(now, at, q, v)
    ensures MayLeave(was, at, q, v) || (v.Holds? && v.bytes == bytes)
    decreases |q|
  {
    if q != [] {
      var key := Key(at, q[0]);
      var e :| e in now.Choices(key) && MayShow(now, e, q, v);
      assert OnPath(key, p);
      if Lands(now, p, key, e, bytes) {
        assert v.bytes == bytes;
      } else if e in was.Choices(key) {
        if e.Some? && e.value.Dir? {
          assert q[1..] == p[|e.value.id|..];
          SafeWalk(was, now, p, bytes, e.value.id, q[1..], v);
        }
        assert (v.Holds? && v.bytes == bytes) || MayShow(was, e, q, v);
      } else {
        HollowWalk(was, now, p, key, e, q, v);
      }
    }
  }

  lemma HollowWalk(was: Disk, now: Disk, p: Path, key: Key, e: Option<Node>, q: Path, v: View)
    requires |key.dir| <= |p| && q == p[|key.dir|..] && q != [] && key.name == q[0]
    requires Hollow(was, now, p, key, e) && MayShow(now, e, q, v)
    ensures MayLeave(was, key.dir, q, v)
  {
    var below := Key(e.value.id, q[1..][0]);
    assert MayLeave(now, below.dir, q[1..], v);
    var inside :| inside in now.Choices(below) && MayShow(now, inside, q[1..], v);
    assert MayShow(was, None, q, v);
  }

  /** A step that is safe entry by entry confines every crash outcome of the path. */
  lemma StepConfines(was: Disk, now: Disk, p: Path, bytes: Bytes)
    requires Layered(now) && SafeStep(was, now, p, bytes)
    ensures Confined(was, now, p, bytes)
  {
    forall v | MayLeave(now, [], p, v)
      ensures MayLeave(was, [], p, v) || (v.Holds? && v.bytes == bytes)
    {
      SafeWalk(was, now, p, bytes, [], p, v);
    }
  }

  /** What `Confined` says of real crashes. */
  lemma ConfinedCrash(was: Disk, now: Disk, p: Path, bytes: Bytes, after: Disk)
    requires was.Valid() && Confined(was, now, p, bytes) && Crash(now, after)
    ensures var v := after.Look([], p);
            || (v.Holds? && v.bytes == bytes)
            || exists before :: Crash(was, before) && before.Look([], p) == v
  {
    var v := after.Look([], p);
    CrashShows(now, after, [], p);
    CrashViews(was, p, v);
  }
}
