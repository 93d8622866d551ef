/** `write_atomic_verified`: the staged, synced, renamed and re-read file write. */
module VerifiedWrite {
  import opened Wrappers
  import opened Sets
  import opened Disk
  import opened CrashSafety
  import opened Steps
  import opened Durability
  import opened FileSystems
  import opened TempNames

  /** How the write ends; `Panicked` is the id source running out. */
  datatype Outcome = Done | IoFailed(error: IoError) | RecoveryRequired | Panicked

  datatype Draw = Took(name: string, ino: nat) | Skipped | Refused(error: IoError) | Exhausted

  function Parent(path: Path): Path
    requires path != []
  {
    path[..|path| - 1]
  }

  function Name(path: Path): string
    requires path != []
  {
    path[|path| - 1]
  }

  /** `Path::with_extension`, which leaves a path without a file name alone. */
  function TemporaryName(path: Path, prefix: nat, sequence: nat): string
    requires path != []
  {
    if Name(path) == ".." then ".." else Candidate(Name(path), prefix, sequence)
  }

  /** `name` is one the source draws for `path` from `first` up to `last`. */
  ghost predicate Drawn(path: Path, prefix: nat, name: string, first: nat, last: nat)
    requires path != []
  {
    exists n: nat :: first <= n < last && name == TemporaryName(path, prefix, n)
  }

  /** The entries beside the target that carry a name the source could draw. */
  ghost function Taken(d: Disk, path: Path, prefix: nat): set<Key>
    requires path != []
  {
    set k | k in d.entries && PathOf(k.dir) == Parent(path) && Drawn(path, prefix, k.name, 0, MAX_U64)
  }

  /** One draw: the name is free and taken now, or it is taken already and left alone, or the loop ends. */
  method DrawOnce(fs: FileSystem, ids: IdSource, path: Path) returns (r: Draw, ghost k: Key)
    requires fs.Valid() && path != []
    modifies fs`disk, fs`seen, ids
    ensures fs.Valid()
    ensures ids.next == if r.Exhausted? then old(ids.next) else old(ids.next) + 1
    ensures r.Took? || r.Skipped? ==>
      && old(fs.disk).Reach(Parent(path), fs.follows) == Ok(k.dir) && old(ids.next) < MAX_U64
      && k.name == TemporaryName(path, ids.prefix, old(ids.next)) && Component(k.name)
    ensures r.Took? ==>
      && r.name == k.name && k !in old(fs.disk).entries && r.ino == old(fs.disk).next
      && fs.disk == old(fs.disk).Create(k) && fs.seen == old(fs.seen) + {fs.disk}
    ensures r.Skipped? ==> k in fs.disk.entries
    ensures !r.Took? ==> fs.disk == old(fs.disk) && fs.seen == old(fs.seen)
  {
    k := Key([], "");
    var id := ids.Unique();
    if id.None? {
      return Exhausted, k;
    }
    var name := TemporaryName(path, ids.prefix, id.value);
    var temporary := Parent(path) + [name];
    assert Split(temporary).Ok? ==> Split(temporary).value == (Parent(path), name);
    var made := fs.CreateFile(temporary);
    match made
    case Ok(ino) =>
      r, k := Took(name, ino), Key(old(fs.disk).Reach(Parent(path), fs.follows).value, name);
    case Err(AlreadyExists) =>
      r, k := Skipped, Key(fs.disk.Reach(Parent(path), fs.follows).value, name);
    case Err(e) =>
      r := Refused(e);
  }

  /** The free name taken by a draw from `first` up to `last`, beside the target. */
  ghost predicate TookFree(was: Disk, now: Disk, follows: bool, path: Path, prefix: nat, r: Draw, t: Key,
                           first: nat, last: nat)
    requires path != []
  {
    && r.Took? && t.name == r.name != Name(path) && was.Reach(Parent(path), follows) == Ok(t.dir)
    && t !in was.entries && r.ino == was.next && now == was.Create(t)
    && Drawn(path, prefix, t.name, first, last)
  }

  /** The naming loop: it passes over every taken name untouched and ends after at most one more draw. */
  method DrawTemporary(fs: FileSystem, ids: IdSource, path: Path) returns (r: Draw, ghost t: Key)
    requires fs.Valid() && path != []
    modifies fs`disk, fs`seen, ids
    ensures fs.Valid() && !r.Skipped?
    ensures ids.next - old(ids.next) <= |Taken(old(fs.disk), old(fs.disk).Landing(path, fs.follows), ids.prefix)| + 1
    ensures r.Took? ==> TookFree(old(fs.disk), fs.disk, fs.follows, path, ids.prefix, r, t, old(ids.next), ids.next)
    ensures fs.seen == old(fs.seen) + {fs.disk}
    ensures !r.Took? ==> fs.disk == old(fs.disk)
  {
    ghost var place := fs.disk.Landing(path, fs.follows);
    ghost var taken, skipped: set<Key> := Taken(fs.disk, place, ids.prefix), {};
    r, t := Skipped, Key([], "");
    while r.Skipped?
      invariant fs.Valid() && skipped <= taken && |skipped| <= |taken|
      invariant r.Skipped? ==> ids.next == old(ids.next) + |skipped|
      invariant ids.next <= old(ids.next) + |skipped| + 1
      invariant r.Skipped? ==> forall k | k in skipped :: Drawn(place, ids.prefix, k.name, old(ids.next), ids.next)
      invariant r.Took? ==> TookFree(old(fs.disk), fs.disk, fs.follows, path, ids.prefix, r, t, old(ids.next), ids.next)
      invariant fs.seen == old(fs.seen) + {fs.disk}
      invariant !r.Took? ==> fs.disk == old(fs.disk)
      decreases |taken| - |skipped|, r.Skipped?
    {
      ghost var first, n := old(ids.next), ids.next;
      r, t := DrawOnce(fs, ids, path);
      if r.Skipped? {
        SkippedIsNew(fs.disk, place, ids.prefix, n, first, skipped, t);
        skipped := skipped + {t};
      }
      if r.Took? {
        NotTarget(path, ids.prefix, n);
      }
      SubsetSize(skipped, taken);
    }
  }

  lemma NotTarget(path: Path, prefix: nat, n: nat)
    requires path != [] && Component(TemporaryName(path, prefix, n))
    ensures TemporaryName(path, prefix, n) != Name(path)
  {
    CandidateIsNotTarget(Name(path), prefix, n);
  }

  lemma SkippedIsNew(d: Disk, path: Path, prefix: nat, n: nat, first: nat, skipped: set<Key>, k: Key)
    requires d.Valid() && path != [] && n < MAX_U64
    requires d.Open([], Parent(path)) == Ok(k.dir) && k in d.entries && k.name == TemporaryName(path, prefix, n)
    requires Component(k.name) && first <= n
    requires forall j | j in skipped :: Drawn(path, prefix, j.name, first, n)
    ensures k !in skipped && k in Taken(d, path, prefix)
    ensures forall j | j in skipped + {k} :: Drawn(path, prefix, j.name, first, n + 1)
  {
    OpenNames(d, [], Parent(path), k.dir);
    assert PathOf([]) + Parent(path) == Parent(path);
    assert Drawn(path, prefix, k.name, 0, MAX_U64);
    if k in skipped {
      var m: nat :| first <= m < n && k.name == TemporaryName(path, prefix, m);
      CandidatesDiffer(Name(path), prefix, m, n);
      assert false;
    }
    forall j | j in skipped ensures Drawn(path, prefix, j.name, first, n + 1) {
      var m: nat :| first <= m < n && j.name == TemporaryName(path, prefix, m);
    }
  }

  // ----- the states between the first draw and the last sync

  /** `d0` with a new file listed at `t`: its contents, and those of them that are on the disk. */
  function Staged(d0: Disk, t: Key, content: Bytes, kept: Option<Bytes>): Disk {
    d0.Create(t).(data := d0.data[d0.next := content],
                  synced := if kept.Some? then d0.synced[d0.next := kept.value] else d0.synced)
  }

  /** The same once the temporary is removed again. */
  function Discarded(d0: Disk, t: Key, content: Bytes, kept: Option<Bytes>): Disk {
    Staged(d0, t, content, kept).Put(t, None)
  }

  /** The synced temporary renamed over `g`. */
  function Renamed(d0: Disk, t: Key, g: Key, bytes: Bytes): Disk {
    Staged(d0, t, bytes, Some(bytes)).Move(t, g)
  }

  /** Some contents of the temporary, listed or not. */
  ghost predicate Beside(d0: Disk, d: Disk, t: Key) {
    exists content, kept :: d == Staged(d0, t, content, kept) || d == Discarded(d0, t, content, kept)
  }

  ghost predicate Published(d0: Disk, d: Disk, t: Key, g: Key, bytes: Bytes) {
    d == Renamed(d0, t, g, bytes) || d == Renamed(d0, t, g, bytes).Settle(g.dir)
  }

  lemma StoreStaged(d0: Disk, t: Key, was: Bytes, now: Bytes)
    requires d0.Valid()
    ensures Staged(d0, t, was, None).Store(d0.next, now) == Staged(d0, t, now, None)
    ensures Staged(d0, t, now, None).Sync(d0.next) == Staged(d0, t, now, Some(now))
  {
    assert d0.data[d0.next := was][d0.next := now] == d0.data[d0.next := now];
    assert d0.synced - {d0.next} == d0.synced;
  }

  lemma StagedValid(d0: Disk, t: Key, content: Bytes, kept: Option<Bytes>)
    requires d0.Valid() && d0.Issued(t.dir) && t !in d0.entries
    ensures Staged(d0, t, content, kept).Valid() && Discarded(d0, t, content, kept).Valid()
  {
    CreateValid(d0, t);
    SameNames(d0.Create(t), Staged(d0, t, content, kept));
    PutValid(Staged(d0, t, content, kept), t, None);
  }

  lemma PublishedValid(d0: Disk, t: Key, g: Key, bytes: Bytes)
    requires d0.Valid() && d0.Issued(t.dir) && t !in d0.entries && t.dir == g.dir
    ensures Renamed(d0, t, g, bytes).Valid() && Renamed(d0, t, g, bytes).Settle(g.dir).Valid()
  {
    var staged := Staged(d0, t, bytes, Some(bytes));
    StagedValid(d0, t, bytes, Some(bytes));
    assert forall h | h in t.dir :: h.serial < d0.next;
    MoveValid(staged, t, g);
    SettleValid(Renamed(d0, t, g, bytes), g.dir);
  }

  // ----- how each state differs from `d0`

  /** Only `t` may list or be left listing something new; older files are as they were. */
  ghost predicate DiffersAt(d0: Disk, d: Disk, t: Key) {
    && (forall k | k != t :: d.Entry(k) == d0.Entry(k) && d.Choices(k) == d0.Choices(k))
    && (t in d.entries ==> d.entries[t].File?)
    && (forall i: nat | i < d0.next :: d.Content(i) == d0.Content(i) && d.Kept(i) == d0.Kept(i))
  }

  /** Only `g` differs from `d0`, and it names the synced new file. */
  ghost predicate Replaces(d0: Disk, d: Disk, t: Key, g: Key, bytes: Bytes) {
    && (forall k | k != t && k != g :: d.Entry(k) == d0.Entry(k) && d.Choices(k) <= d0.Choices(k))
    && (forall k: Key | |k.dir| < |g.dir| :: d.Choices(k) == d0.Choices(k))
    && d.Entry(t) == None && d.Entry(g) == Some(File(d0.next))
    && d.Choices(g) <= d0.Choices(g) + {Some(File(d0.next))}
    && d.Content(d0.next) == bytes && d.Kept(d0.next) == Some(bytes)
    && (forall i: nat | i < d0.next :: d.Content(i) == d0.Content(i) && d.Kept(i) == d0.Kept(i))
  }

  lemma StagedDiffers(d0: Disk, t: Key, content: Bytes, kept: Option<Bytes>)
    ensures DiffersAt(d0, Staged(d0, t, content, kept), t)
  {
  }

  lemma RemovedDiffers(d0: Disk, s: Disk, t: Key)
    requires DiffersAt(d0, s, t)
    ensures DiffersAt(d0, s.Put(t, None), t)
  {
  }

  lemma BesideDiffers(d0: Disk, d: Disk, t: Key)
    requires Beside(d0, d, t)
    ensures DiffersAt(d0, d, t)
  {
    var content, kept :| d == Staged(d0, t, content, kept) || d == Discarded(d0, t, content, kept);
    StagedDiffers(d0, t, content, kept);
    RemovedDiffers(d0, Staged(d0, t, content, kept), t);
  }

  lemma {:induction false} RenamedReplaces(d0: Disk, t: Key, g: Key, bytes: Bytes)
    requires t.dir == g.dir && t != g
    ensures Replaces(d0, Renamed(d0, t, g, bytes), t, g, bytes)
  {
    MoveEntries(Staged(d0, t, bytes, Some(bytes)), t, g);
  }

  lemma {:induction false} SettledReplaces(d0: Disk, s: Disk, t: Key, g: Key, bytes: Bytes)
    requires d0.Coherent() && Replaces(d0, s, t, g, bytes) && t.dir == g.dir
    ensures Replaces(d0, s.Settle(g.dir), t, g, bytes)
    ensures s.Settle(g.dir).Choices(g) == {Some(File(d0.next))}
  {
    var d := s.Settle(g.dir);
    assert forall k :: d.Choices(k) == if k.dir == g.dir then {s.Entry(k)} else s.Choices(k);
  }

  lemma PublishedReplaces(d0: Disk, d: Disk, t: Key, g: Key, bytes: Bytes)
    requires d0.Coherent() && Published(d0, d, t, g, bytes) && t.dir == g.dir && t != g
    ensures Replaces(d0, d, t, g, bytes)
  {
    RenamedReplaces(d0, t, g, bytes);
    SettledReplaces(d0, Renamed(d0, t, g, bytes), t, g, bytes);
  }

  lemma MoveEntries(s: Disk, t: Key, g: Key)
    requires t in s.entries && t != g
    ensures var d := s.Move(t, g);
            && d.Entry(t) == None && d.Entry(g) == s.Entry(t)
            && (forall k | k != t && k != g :: d.Entry(k) == s.Entry(k) && d.Choices(k) == s.Choices(k))
            && d.Choices(g) == s.Choices(g) + {s.Entry(t)}
  {
  }

  // ----- crashes

  lemma KeptSynced(was: Disk, now: Disk)
    requires was.Valid() && forall i: nat | i < was.next :: now.Kept(i) == was.Kept(i)
    ensures forall i | i in was.synced :: i in now.synced && now.synced[i] == was.synced[i]
  {
    forall i | i in was.synced ensures i in now.synced && now.synced[i] == was.synced[i] {
      assert now.Kept(i) == was.Kept(i);
    }
  }

  lemma BesideConfined(d0: Disk, d: Disk, t: Key, path: Path, bytes: Bytes)
    requires d0.Valid() && Layered(d) && DiffersAt(d0, d, t) && !OnPath(t, path)
    ensures Confined(d0, d, path, bytes)
  {
    KeptSynced(d0, d);
    StepConfines(d0, d, path, bytes);
  }

  lemma PublishedConfined(d0: Disk, d: Disk, t: Key, g: Key, path: Path, bytes: Bytes)
    requires d0.Valid() && Layered(d) && Replaces(d0, d, t, g, bytes) && !OnPath(t, path) && |g.dir| == |path| - 1
    ensures Confined(d0, d, path, bytes)
  {
    KeptSynced(d0, d);
    StepConfines(d0, d, path, bytes);
  }

  // ----- what the process sees

  lemma BesideLooks(d0: Disk, d: Disk, t: Key, q: Path)
    requires d0.Valid() && DiffersAt(d0, d, t) && t !in d0.entries && q != PathOfKey(t)
    ensures d.Look([], q) == d0.Look([], q)
  {
    assert PathOf([]) + q == q;
    LookExcept(d0, d, t, [], q);
  }

  lemma PublishedLooks(d0: Disk, d: Disk, t: Key, g: Key, bytes: Bytes, q: Path)
    requires d0.Valid() && Replaces(d0, d, t, g, bytes) && t !in d0.entries && q != PathOfKey(g)
    requires g in d0.entries ==> !d0.entries[g].Dir?
    ensures d.Look([], q) == d0.Look([], q)
  {
    assert PathOf([]) + q == q;
    LookExcept(d0, d, g, [], q);
  }

  lemma PublishedTarget(d0: Disk, d: Disk, t: Key, g: Key, bytes: Bytes, parent: Path)
    requires d0.Valid() && Replaces(d0, d, t, g, bytes) && t.dir == g.dir && d0.Open([], parent) == Ok(g.dir)
    ensures d.Open([], parent) == Ok(g.dir)
    ensures d.Look([], parent + [g.name]) == Holds(d0.next, bytes)
    ensures d.Look([], parent + [t.name]) == Absent
  {
    OpenNames(d0, [], parent, g.dir);
    assert |g.dir| == |PathOf(g.dir)| == |parent|;
    OpenKept(d0, d, parent, g.dir);
    LookLast(d, [], parent, g.name);
    LookLast(d, [], parent, t.name);
  }

  lemma BesideOpens(d0: Disk, d: Disk, t: Key, parent: Path)
    requires d0.Valid() && DiffersAt(d0, d, t) && d0.Open([], parent) == Ok(t.dir)
    ensures d.Open([], parent) == Ok(t.dir)
  {
    OpenNames(d0, [], parent, t.dir);
    assert |t.dir| == |PathOf(t.dir)| == |parent|;
    OpenKept(d0, d, parent, t.dir);
  }

  // ----- the protocol

  /** The parents are there, and `t` is a free name beside the target `g`. */
  ghost predicate Ready(d0: Disk, path: Path, t: Key) {
    && d0.Valid() && path != [] && d0.Open([], Parent(path)) == Ok(t.dir) && t !in d0.entries && t.name != Name(path)
  }

  lemma ReadyFacts(d0: Disk, path: Path, t: Key)
    requires Ready(d0, path, t)
    ensures d0.Issued(t.dir) && |t.dir| == |path| - 1
    ensures PathOfKey(t) == Parent(path) + [t.name] && PathOfKey(Key(t.dir, Name(path))) == path
    ensures path == Parent(path) + [Name(path)]
  {
    OpenNames(d0, [], Parent(path), t.dir);
    assert |t.dir| == |PathOf(t.dir)|;
  }

  /** The write to `path` lands at `place`, beside the free name `t`. */
  ghost predicate Leads(d0: Disk, follows: bool, path: Path, place: Path, t: Key) {
    path != [] && place == d0.Landing(path, follows) && Ready(d0, place, t)
  }

  /** A file beside the target does not change where its directory is reached. */
  lemma BesideReaches(d0: Disk, d: Disk, follows: bool, path: Path, place: Path, t: Key)
    requires Leads(d0, follows, path, place, t) && DiffersAt(d0, d, t)
    ensures d.Reach(Parent(path), follows) == Ok(t.dir)
  {
    ReadyFacts(d0, place, t);
    BesideOpens(d0, d, t, Parent(place));
    LookLast(d0, [], Parent(place), t.name);
    LookLast(d, [], Parent(place), t.name);
    forall q | q != PathOfKey(t) ensures d.Look([], q) == d0.Look([], q) {
      BesideLooks(d0, d, t, q);
    }
    ResolveSame(d0, d, PathOfKey(t), Parent(path), MAX_HOPS);
  }

  /** After the rename the directory is reached as before, or not at all: the target may have been the link to it. */
  lemma PublishedReaches(d0: Disk, d: Disk, follows: bool, path: Path, place: Path, t: Key, bytes: Bytes)
    requires Leads(d0, follows, path, place, t) && PutInPlace(d0, d, place, t, bytes)
    ensures d.Reach(Parent(path), follows).Ok? ==>
      d.Reach(Parent(path), follows) == Ok(t.dir) && d.Landing(path, follows) == place
  {
    var g := Key(t.dir, Name(place));
    ReadyFacts(d0, place, t);
    PublishedReplaces(d0, d, t, g, bytes);
    PublishedTarget(d0, d, t, g, bytes, Parent(place));
    forall q | q != place ensures d.Look([], q) == d0.Look([], q) {
      PublishedLooks(d0, d, t, g, bytes, q);
    }
    ResolveCut(d0, d, place, Parent(path), MAX_HOPS);
    if d.Reach(Parent(path), follows).Ok? {
      OpenIsLook(d, [], d.Real(Parent(path), follows), d.Reach(Parent(path), follows).value);
    }
  }

  /** Write and sync the temporary. */
  method Stage(fs: FileSystem, ino: nat, bytes: Bytes, ghost d0: Disk, ghost t: Key)
    returns (r: Result<(), IoError>, ghost content: Bytes)
    requires fs.Valid() && d0.Valid() && ino == d0.next && fs.disk == Staged(d0, t, [], None)
    modifies fs
    ensures fs.Valid() && fs.disk == Staged(d0, t, content, if r.Ok? then Some(content) else None)
    ensures r.Ok? ==> content == bytes
    ensures old(fs.seen) <= fs.seen && forall d | d in fs.seen - old(fs.seen) :: Beside(d0, d, t)
  {
    r := fs.WriteAll(ino, bytes);
    content := fs.disk.Content(ino);
    StoreStaged(d0, t, [], content);
    forall d | d in fs.seen - old(fs.seen) ensures Beside(d0, d, t) {
      StoreStaged(d0, t, [], d.Content(ino));
    }
    if r.Ok? {
      assert content == bytes;
      r := fs.SyncFile(ino);
    }
  }

  /** Remove the temporary after a failure; a failure of that is ignored. */
  method Discard(fs: FileSystem, path: Path, name: string,
                 ghost d0: Disk, ghost place: Path, ghost t: Key, ghost content: Bytes, ghost kept: Option<Bytes>)
    requires fs.Valid() && Leads(d0, fs.follows, path, place, t) && t.name == name
    requires fs.disk == Staged(d0, t, content, kept)
    modifies fs
    ensures fs.Valid() && Beside(d0, fs.disk, t)
    ensures old(fs.seen) <= fs.seen && forall d | d in fs.seen - old(fs.seen) :: Beside(d0, d, t)
  {
    StagedDiffers(d0, t, content, kept);
    BesideReaches(d0, fs.disk, fs.follows, path, place, t);
    var temporary := Parent(path) + [name];
    assert Split(temporary).Ok? ==> Split(temporary).value == (Parent(path), name);
    var _ := fs.RemoveFile(temporary);
  }

  /** Rename the synced temporary over the target. */
  method Replace(fs: FileSystem, path: Path, name: string, ghost bytes: Bytes,
                 ghost d0: Disk, ghost place: Path, ghost t: Key)
    returns (r: Result<(), IoError>)
    requires fs.Valid() && Leads(d0, fs.follows, path, place, t) && t.name == name
    requires fs.disk == Staged(d0, t, bytes, Some(bytes))
    modifies fs
    ensures fs.Valid()
    ensures r.Err? ==> fs.disk == old(fs.disk) && fs.seen == old(fs.seen)
    ensures r.Ok? ==>
      var g := Key(t.dir, Name(place));
      && (g in d0.entries ==> !d0.entries[g].Dir?)
      && fs.disk == Renamed(d0, t, g, bytes) && fs.seen == old(fs.seen) + {fs.disk}
  {
    StagedDiffers(d0, t, bytes, Some(bytes));
    BesideReaches(d0, fs.disk, fs.follows, path, place, t);
    var temporary := Parent(path) + [name];
    assert Split(temporary).Ok? ==> Split(temporary).value == (Parent(path), name);
    assert fs.disk.Entry(Key(t.dir, Name(path))) == d0.Entry(Key(t.dir, Name(path)));
    r := fs.Rename(temporary, path);
  }

  /** Sync the directory and read back. */
  method Settle(fs: FileSystem, path: Path, bytes: Bytes, ghost d0: Disk, ghost place: Path, ghost t: Key)
    returns (r: Outcome)
    requires fs.Valid() && Leads(d0, fs.follows, path, place, t)
    requires PutInPlace(d0, fs.disk, place, t, bytes) && fs.disk == Renamed(d0, t, Key(t.dir, Name(place)), bytes)
    modifies fs
    ensures fs.Valid() && Published(d0, fs.disk, t, Key(t.dir, Name(place)), bytes)
    ensures fs.seen == old(fs.seen) + {fs.disk}
    ensures r.IoFailed? || (r.Done? && fs.disk == Renamed(d0, t, Key(t.dir, Name(place)), bytes).Settle(t.dir))
  {
    PublishedReaches(d0, fs.disk, fs.follows, path, place, t, bytes);
    var synced := fs.SyncDirectory(Parent(path));
    if synced.Err? {
      return IoFailed(synced.error);
    }
    PublishedReaches(d0, fs.disk, fs.follows, path, place, t, bytes);
    ReadBack(d0, place, t, bytes);
    var back := fs.Read(path);
    if back.Err? {
      return IoFailed(back.error);
    }
    LandsWhereRead(fs.disk, path, fs.follows, place, t);
    r := if back.value != bytes then RecoveryRequired else Done;
  }

  lemma LandsWhereRead(d: Disk, path: Path, follows: bool, place: Path, t: Key)
    requires path != [] && d.Look([], d.Landing(path, follows)).Holds?
    requires d.Reach(Parent(path), follows).Ok? ==> d.Landing(path, follows) == place
    ensures d.Landing(path, follows) == place
  {
    LookLast(d, [], d.Real(Parent(path), follows), Name(path));
  }

  lemma ReadBack(d0: Disk, path: Path, t: Key, bytes: Bytes)
    requires Ready(d0, path, t)
    ensures Renamed(d0, t, Key(t.dir, Name(path)), bytes).Settle(t.dir).Look([], path) == Holds(d0.next, bytes)
  {
    var g := Key(t.dir, Name(path));
    PublishedReplaces(d0, Renamed(d0, t, g, bytes).Settle(t.dir), t, g, bytes);
    ReplacedReads(d0, Renamed(d0, t, g, bytes).Settle(t.dir), path, t, bytes);
  }

  lemma ReplacedReads(d0: Disk, d: Disk, path: Path, t: Key, bytes: Bytes)
    requires Ready(d0, path, t) && Replaces(d0, d, t, Key(t.dir, Name(path)), bytes)
    ensures d.Look([], path) == Holds(d0.next, bytes)
  {
    PublishedTarget(d0, d, t, Key(t.dir, Name(path)), bytes, Parent(path));
    assert path == Parent(path) + [Name(path)];
  }

  /** A state the disk passes through after the first draw. */
  ghost predicate Passing(d0: Disk, d: Disk, path: Path, t: Key, bytes: Bytes)
    requires path != []
  {
    Beside(d0, d, t) || Published(d0, d, t, Key(t.dir, Name(path)), bytes)
  }

  ghost predicate Passed(d0: Disk, before: set<Disk>, states: set<Disk>, path: Path, t: Key, bytes: Bytes)
    requires path != []
  {
    forall d | d in states :: d in before || Passing(d0, d, path, t, bytes)
  }

  lemma NewIsBeside(d0: Disk, path: Path, t: Key, bytes: Bytes)
    requires path != []
    ensures Passing(d0, Staged(d0, t, [], None), path, t, bytes)
  {
    assert Beside(d0, Staged(d0, t, [], None), t);
  }

  /** The rename has happened, over something that was not a directory. */
  ghost predicate PutInPlace(d0: Disk, d: Disk, path: Path, t: Key, bytes: Bytes)
    requires path != []
  {
    var g := Key(t.dir, Name(path));
    Published(d0, d, t, g, bytes) && (g in d0.entries ==> !d0.entries[g].Dir?)
  }

  /** How the steps after the draw end: with the file in place and synced, or with an error. */
  ghost predicate Completed(d0: Disk, now: Disk, path: Path, t: Key, bytes: Bytes, r: Outcome, renamed: bool)
    requires path != []
  {
    && (if renamed then PutInPlace(d0, now, path, t, bytes) else Beside(d0, now, t))
    && (r.IoFailed? || (r.Done? && renamed && now == Renamed(d0, t, Key(t.dir, Name(path)), bytes).Settle(t.dir)))
  }

  /** From the empty temporary to the end. */
  method Complete(fs: FileSystem, path: Path, bytes: Bytes, name: string, ino: nat,
                  ghost d0: Disk, ghost place: Path, ghost t: Key)
    returns (r: Outcome, ghost renamed: bool)
    requires fs.Valid() && Leads(d0, fs.follows, path, place, t) && t.name == name
    requires ino == d0.next && fs.disk == Staged(d0, t, [], None)
    modifies fs
    ensures fs.Valid() && old(fs.seen) <= fs.seen
    ensures Passed(d0, old(fs.seen), fs.seen, place, t, bytes)
    ensures Completed(d0, fs.disk, place, t, bytes, r, renamed)
  {
    renamed := false;
    var staged;
    ghost var content;
    staged, content := Stage(fs, ino, bytes, d0, t);
    if staged.Err? {
      Discard(fs, path, name, d0, place, t, content, None);
      return IoFailed(staged.error), renamed;
    }
    var moved := Replace(fs, path, name, bytes, d0, place, t);
    if moved.Err? {
      Discard(fs, path, name, d0, place, t, content, Some(content));
      return IoFailed(moved.error), renamed;
    }
    renamed := true;
    r := Settle(fs, path, bytes, d0, place, t);
  }

  /**
   What is promised of a write of `bytes` that lands at `place` and took the disk from `was`
   through `states` to `now`; `temporary` is the name it took for itself, if it got that far.
   */
  ghost predicate Promised(was: Disk, now: Disk, states: set<Disk>, place: Path, bytes: Bytes,
                           temporary: Option<Path>, ino: nat, renamed: bool) {
    // a crash at any moment leaves the target as it could have been before, or exactly `bytes`
    && (forall d | d in states :: Confined(was, d, place, bytes))
    // no path but the target and the temporary changes, except that missing parents appear
    && (forall q | q != place && Some(q) != temporary ::
          now.Look([], q) == was.Look([], q)
          || (q < place && was.Look([], q) == Absent && now.Look([], q).Folder?))
    && (renamed ==>
          temporary.Some? && now.Look([], place) == Holds(ino, bytes) && now.Look([], temporary.value) == Absent)
    && (!renamed ==> now.Look([], place) == was.Look([], place))
  }

  /** The temporary is a name drawn for the target, in the target's own directory, where there was nothing. */
  ghost predicate OwnTemporary(was: Disk, place: Path, temporary: Path, prefix: nat, first: nat, last: nat) {
    && place != [] && temporary != [] && temporary != place && Parent(temporary) == Parent(place)
    && Drawn(place, prefix, Name(temporary), first, last)
    && was.Look([], temporary) == Absent
  }

  /** The promises of a whole call that drew the numbers from `first` up to `last`. */
  ghost predicate Fulfilled(was: Disk, now: Disk, states: set<Disk>, place: Path, bytes: Bytes,
                            prefix: nat, first: nat, last: nat,
                            r: Outcome, temporary: Option<Path>, ino: nat, renamed: bool)
    requires place != []
  {
    && Promised(was, now, states, place, bytes, temporary, ino, renamed)
    && (temporary.Some? ==> OwnTemporary(was, place, temporary.value, prefix, first, last))
    && last - first <= |Taken(was, place, prefix)| + 1
    && !r.RecoveryRequired?
    && (r.Done? ==>
          renamed && (AlwaysLeft(now, place, Holds(ino, bytes)) <==> SyncedAlong(was, [], Parent(place))))
  }

  /**
   Publish `bytes` at `path`, then prove it by reading them back.

   The file lands at `place`, which is `path` unless its parent is a link that the backend
   follows. While the call runs, `seen` holds every state of the disk from the first to the
   last. `Done` is durable exactly when every entry on the way to the parent had been synced.
   */
  method WriteAtomicVerified(fs: FileSystem, ids: IdSource, path: Path, bytes: Bytes)
    returns (r: Outcome, ghost temporary: Option<Path>, ghost ino: nat, ghost renamed: bool)
    requires fs.Valid()
    modifies fs, ids
    ensures fs.Valid() && old(fs.disk) in fs.seen
    ensures path == [] ==> r == RecoveryRequired && fs.disk == old(fs.disk) && fs.seen == {fs.disk}
    ensures path != [] ==>
      Fulfilled(old(fs.disk), fs.disk, fs.seen, old(fs.disk).Landing(path, fs.follows), bytes,
                ids.prefix, old(ids.next), ids.next, r, temporary, ino, renamed)
  {
    temporary, ino, renamed := None, 0, false;
    fs.seen := {fs.disk};
    if path == [] {
      return RecoveryRequired, temporary, ino, renamed;
    }
    ghost var was, place := fs.disk, fs.disk.Landing(path, fs.follows);
    var made := fs.CreateDirectories(Parent(path));
    ParentsMade(was, fs.disk, fs.seen, path, fs.follows, bytes);
    if made.Err? {
      return IoFailed(made.error), temporary, ino, renamed;
    }
    SamePlace(was, fs.disk, path, fs.follows);
    r, temporary, ino, renamed := Publish(fs, ids, path, bytes, was, place);
  }

  /** The rest of the call, once the parents are there. */
  method Publish(fs: FileSystem, ids: IdSource, path: Path, bytes: Bytes, ghost was: Disk, ghost place: Path)
    returns (r: Outcome, ghost temporary: Option<Path>, ghost ino: nat, ghost renamed: bool)
    requires fs.Valid() && was.Valid() && was in fs.seen && path != [] && place == fs.disk.Landing(path, fs.follows)
    requires Made(was, fs.disk, Parent(place)) && (was.Open([], Parent(place)).Ok? ==> fs.disk == was)
    requires Promised(was, fs.disk, fs.seen, place, bytes, None, 0, false) && Confined(was, fs.disk, place, bytes)
    modifies fs, ids
    ensures fs.Valid() && was in fs.seen
    ensures Fulfilled(was, fs.disk, fs.seen, place, bytes, ids.prefix, old(ids.next), ids.next,
                      r, temporary, ino, renamed)
  {
    temporary, ino, renamed := None, 0, false;
    ghost var d0, before := fs.disk, fs.seen;
    SameTaken(was, d0, place, ids.prefix);
    var draw;
    ghost var t;
    draw, t := DrawTemporary(fs, ids, path);
    match draw
    case Refused(e) => r := IoFailed(e);
    case Exhausted => r := Panicked;
    case Took(name, file) =>
      assert Leads(d0, fs.follows, path, place, t);
      temporary, ino := Some(Parent(place) + [name]), file;
      r, renamed := Finish(fs, path, bytes, name, file, was, d0, before, place, t,
                           ids.prefix, old(ids.next), ids.next);
  }

  /** The rest of the call, once the temporary is there. */
  method Finish(fs: FileSystem, path: Path, bytes: Bytes, name: string, ino: nat, ghost was: Disk, ghost d0: Disk,
                ghost before: set<Disk>, ghost place: Path, ghost t: Key,
                ghost prefix: nat, ghost first: nat, ghost last: nat)
    returns (r: Outcome, ghost renamed: bool)
    requires fs.Valid() && Leads(d0, fs.follows, path, place, t) && t.name == name
    requires ino == d0.next && fs.disk == Staged(d0, t, [], None) && fs.seen == before + {fs.disk}
    requires was.Valid() && Made(was, d0, Parent(place)) && (was.Open([], Parent(place)).Ok? ==> d0 == was)
    requires Promised(was, d0, before, place, bytes, None, 0, false) && Confined(was, d0, place, bytes)
    requires Drawn(path, prefix, t.name, first, last) && last - first <= |Taken(was, place, prefix)| + 1
    modifies fs
    ensures fs.Valid() && before <= fs.seen
    ensures Fulfilled(was, fs.disk, fs.seen, place, bytes, prefix, first, last,
                      r, Some(Parent(place) + [name]), ino, renamed)
  {
    r, renamed := Complete(fs, path, bytes, name, ino, d0, place, t);
    Ended(was, d0, fs.disk, before, fs.seen, path, place, bytes, t, prefix, first, last, r, renamed);
  }

  /** The promises of a call that got as far as its own temporary. */
  lemma Ended(was: Disk, d0: Disk, now: Disk, before: set<Disk>, states: set<Disk>, path: Path, place: Path,
              bytes: Bytes, t: Key, prefix: nat, first: nat, last: nat, r: Outcome, renamed: bool)
    requires was.Valid() && Ready(d0, place, t) && Made(was, d0, Parent(place))
    requires was.Open([], Parent(place)).Ok? ==> d0 == was
    requires Promised(was, d0, before, place, bytes, None, 0, false) && Confined(was, d0, place, bytes)
    requires Passed(d0, before + {Staged(d0, t, [], None)}, states, place, t, bytes)
    requires Completed(d0, now, place, t, bytes, r, renamed)
    requires path != [] && Name(path) == Name(place) && Drawn(path, prefix, t.name, first, last)
    requires last - first <= |Taken(was, place, prefix)| + 1
    ensures Fulfilled(was, now, states, place, bytes, prefix, first, last,
                      r, Some(Parent(place) + [t.name]), d0.next, renamed)
  {
    NewName(was, d0, path, place, t, prefix, first, last);
    NewIsBeside(d0, place, t, bytes);
    Concluded(was, d0, now, states, place, bytes, t, renamed);
    if r.Done? {
      Decided(was, d0, now, place, bytes, t);
    }
  }

  /** Making directories leaves links alone, so the write still lands at the same place. */
  lemma SamePlace(was: Disk, d0: Disk, path: Path, follows: bool)
    requires path != [] && Made(was, d0, Parent(path)) && d0.Reach(Parent(path), follows).Ok?
    requires was.Look([], Parent(path)).Symlink? ==> d0 == was
    requires was.Reach(Parent(path), follows).Ok? ==> d0 == was
    ensures var place := was.Landing(path, follows);
      && d0.Landing(path, follows) == place && Made(was, d0, Parent(place))
      && (was.Open([], Parent(place)).Ok? ==> d0 == was)
  {
    if !was.Look([], Parent(path)).Symlink? {
      RealOfPlain(was, Parent(path), follows);
      assert d0.Look([], Parent(path)) == was.Look([], Parent(path)) || d0.Look([], Parent(path)).Folder?;
      RealOfPlain(d0, Parent(path), follows);
    } else {
      MadeNothing(was, Parent(was.Landing(path, follows)));
    }
  }

  lemma MadeNothing(d: Disk, path: Path)
    ensures Made(d, d, path)
  {
  }

  /** The name that was drawn showed nothing before the call either. */
  lemma NewName(was: Disk, d0: Disk, path: Path, place: Path, t: Key, prefix: nat, first: nat, last: nat)
    requires Ready(d0, place, t) && Grew(was, d0, Parent(place))
    requires path != [] && Name(path) == Name(place) && Drawn(path, prefix, t.name, first, last)
    ensures OwnTemporary(was, place, Parent(place) + [t.name], prefix, first, last)
  {
    LookLast(d0, [], Parent(place), t.name);
    assert !(Parent(place) + [t.name] <= Parent(place));
    var n: nat :| first <= n < last && t.name == TemporaryName(path, prefix, n);
    assert t.name == TemporaryName(place, prefix, n);
  }

  lemma {:induction false} SameTaken(was: Disk, d0: Disk, path: Path, prefix: nat)
    requires path != [] && Made(was, d0, Parent(path))
    ensures Taken(was, path, prefix) == Taken(d0, path, prefix)
  {
    forall k | k in d0.entries && PathOf(k.dir) == Parent(path) ensures k in was.entries {
      assert |PathOfKey(k)| == |Parent(path)| + 1;
    }
  }

  lemma ParentsMade(was: Disk, d0: Disk, states: set<Disk>, path: Path, follows: bool, bytes: Bytes)
    requires path != [] && Made(was, d0, Parent(path))
    requires was in states && forall d | d in states - {was} :: ConfinedBelow(was, d, Parent(path))
    requires was.Look([], Parent(path)).Symlink? ==> d0 == was && states == {was}
    ensures var place := was.Landing(path, follows);
      Promised(was, d0, states, place, bytes, None, 0, false) && Confined(was, d0, place, bytes)
  {
    var place := was.Landing(path, follows);
    if !was.Look([], Parent(path)).Symlink? {
      RealOfPlain(was, Parent(path), follows);
      assert place == path && |Parent(path)| < |path|;
      forall d | d in states ensures Confined(was, d, path, bytes) {
        assert d == was || ConfinedBelow(was, d, Parent(path));
      }
      assert Confined(was, d0, path, bytes);
    }
  }

  lemma StateConfined(d0: Disk, d: Disk, path: Path, t: Key, bytes: Bytes)
    requires Ready(d0, path, t) && Passing(d0, d, path, t, bytes)
    ensures Confined(d0, d, path, bytes)
  {
    var g := Key(t.dir, Name(path));
    ReadyFacts(d0, path, t);
    if Beside(d0, d, t) {
      var content, kept :| d == Staged(d0, t, content, kept) || d == Discarded(d0, t, content, kept);
      StagedValid(d0, t, content, kept);
      ValidLayers(d);
      BesideDiffers(d0, d, t);
      BesideConfined(d0, d, t, path, bytes);
    } else {
      PublishedValid(d0, t, g, bytes);
      ValidLayers(d);
      PublishedReplaces(d0, d, t, g, bytes);
      PublishedConfined(d0, d, t, g, path, bytes);
    }
  }

  lemma StateLooks(d0: Disk, d: Disk, path: Path, t: Key, bytes: Bytes, renamed: bool, q: Path)
    requires Ready(d0, path, t) && (if renamed then PutInPlace(d0, d, path, t, bytes) else Beside(d0, d, t))
    requires q != Parent(path) + [t.name] && (q == path ==> !renamed)
    ensures d.Look([], q) == d0.Look([], q)
  {
    ReadyFacts(d0, path, t);
    if renamed {
      PublishedReplaces(d0, d, t, Key(t.dir, Name(path)), bytes);
      PublishedLooks(d0, d, t, Key(t.dir, Name(path)), bytes, q);
    } else {
      BesideDiffers(d0, d, t);
      BesideLooks(d0, d, t, q);
    }
  }

  /** The promises, from what each state is relative to the disk with the parents made. */
  lemma Concluded(was: Disk, d0: Disk, now: Disk, states: set<Disk>, path: Path, bytes: Bytes, t: Key, renamed: bool)
    requires Ready(d0, path, t) && Grew(was, d0, Parent(path)) && Confined(was, d0, path, bytes)
    requires forall d | d in states :: Confined(was, d, path, bytes) || Passing(d0, d, path, t, bytes)
    requires if renamed then PutInPlace(d0, now, path, t, bytes) else Beside(d0, now, t)
    ensures Promised(was, now, states, path, bytes, Some(Parent(path) + [t.name]), d0.next, renamed)
  {
    ReadyFacts(d0, path, t);
    forall d | d in states ensures Confined(was, d, path, bytes) {
      if Passing(d0, d, path, t, bytes) {
        StateConfined(d0, d, path, t, bytes);
      }
    }
    forall q | q != Parent(path) + [t.name] && (q == path ==> !renamed) ensures now.Look([], q) == d0.Look([], q) {
      StateLooks(d0, now, path, t, bytes, renamed, q);
    }
    if renamed {
      PublishedReplaces(d0, now, t, Key(t.dir, Name(path)), bytes);
      PublishedTarget(d0, now, t, Key(t.dir, Name(path)), bytes, Parent(path));
    }
  }

  /** Whether the finished write survives every crash, decided before the call. */
  lemma Decided(was: Disk, d0: Disk, now: Disk, path: Path, bytes: Bytes, t: Key)
    requires was.Valid() && Ready(d0, path, t) && Extended(was, d0, Parent(path))
    requires was.Open([], Parent(path)).Ok? ==> d0 == was
    requires now == Renamed(d0, t, Key(t.dir, Name(path)), bytes).Settle(t.dir)
    ensures AlwaysLeft(now, path, Holds(d0.next, bytes)) <==> SyncedAlong(was, [], Parent(path))
  {
    var g, parent := Key(t.dir, Name(path)), Parent(path);
    ReadyFacts(d0, path, t);
    RenamedReplaces(d0, t, g, bytes);
    SettledReplaces(d0, Renamed(d0, t, g, bytes), t, g, bytes);
    PublishedValid(d0, t, g, bytes);
    ValidLayers(was);
    ValidLayers(d0);
    ValidLayers(now);
    Survival(was, d0, now, parent, t, g, bytes);
    SameFolder(was, d0, parent, t.dir);
  }

  /** The parent survives as the directory written to exactly when it was there and synced. */
  lemma SameFolder(was: Disk, d0: Disk, parent: Path, dir: DirId)
    requires was.Valid() && d0.Open([], parent) == Ok(dir) && (was.Open([], parent).Ok? ==> d0 == was)
    ensures AlwaysLeft(was, parent, Folder(dir)) <==> SyncedAlong(was, [], parent)
  {
    SyncedIff(was, [], parent, dir);
    SyncedOpens(was, [], parent);
    assert AlwaysLeft(was, parent, Folder(dir)) <==> OnlyFolder(was, [], parent, dir);
  }

  lemma {:induction false} SyncedOpens(d: Disk, at: DirId, p: Path)
    ensures SyncedAlong(d, at, p) ==> d.Open(at, p).Ok?
    decreases |p|
  {
    if p != [] && d.Entry(Key(at, p[0])).Some? && d.Entry(Key(at, p[0])).value.Dir? {
      SyncedOpens(d, d.Entry(Key(at, p[0])).value.id, p[1..]);
    }
  }

  lemma Survival(was: Disk, d0: Disk, now: Disk, parent: Path, t: Key, g: Key, bytes: Bytes)
    requires Layered(was) && was.Coherent() && Numbered(was) && Numbered(d0) && Layered(now) && now.Coherent()
    requires Extended(was, d0, parent) && (was.Open([], parent).Ok? ==> d0 == was)
    requires Replaces(d0, now, t, g, bytes) && t.name != g.name && |g.dir| == |parent|
    requires now.Choices(g) == {Some(File(d0.next))}
    ensures AlwaysLeft(now, parent + [g.name], Holds(d0.next, bytes)) <==> AlwaysLeft(was, parent, Folder(g.dir))
  {
    PublishedPins(d0, now, t, g, bytes);
    PublishedWider(was, d0, now, t, g, bytes);
    SurvivesIff(was, now, parent, g, d0.next, bytes);
  }

  lemma {:induction false} PublishedPins(d0: Disk, now: Disk, t: Key, g: Key, bytes: Bytes)
    requires Numbered(d0) && Replaces(d0, now, t, g, bytes) && t.name != g.name
    requires now.Choices(g) == {Some(File(d0.next))}
    ensures Pinned(now, g, d0.next, bytes)
  {
    forall k: Key | k != g && k.name == g.name ensures Some(File(d0.next)) !in now.Choices(k) {
      assert now.Choices(k) <= d0.Choices(k);
    }
  }

  lemma PublishedWider(was: Disk, d0: Disk, now: Disk, t: Key, g: Key, bytes: Bytes)
    requires Numbered(was) && Numbered(d0) && was.next <= d0.next && was.synced == d0.synced
    requires forall k :: was.Choices(k) <= d0.Choices(k)
    requires Replaces(d0, now, t, g, bytes)
    ensures WiderAbove(was, now, |g.dir|)
    ensures d0 == was ==> WiderAbove(now, was, |g.dir|)
  {
    forall k: Key, i: nat | |k.dir| < |g.dir| && Some(File(i)) in d0.Choices(k) ensures now.Kept(i) == was.Kept(i) {
      assert i < d0.next;
    }
  }

  // ----- a finished write that is lost

  /** The directory `a`, made below the root and never synced there. */
  function FreshParent(): Disk {
    Disk(map[], map[], map[], map[], 0).Mkdir(Key([], "a"))
  }

  /**
   Writing the file `f` into an existing directory that has not reached the disk: the disk that a
   finished call leaves, with the file and its directory synced, may still crash to one without it.
   */
  lemma FinishedWriteIsLost(bytes: Bytes) returns (t: Key, g: Key)
    ensures var d := FreshParent();
      && Ready(d, ["a", "f"], t) && t.name == Candidate("f", 0, 0) && g == Key(t.dir, "f")
      && d.Look([], ["a"]).Folder? && !SyncedAlong(d, [], ["a"])
      && var now := Renamed(d, t, g, bytes).Settle(t.dir);
         now.Look([], ["a", "f"]) == Holds(d.next, bytes) && MayLeave(now, [], ["a", "f"], Absent)
  {
    var k, d := Key([], "a"), FreshParent();
    MkdirValid(Disk(map[], map[], map[], map[], 0), k);
    var dir := [Hop(0, "a")];
    assert k.dir + [Hop(0, "a")] == dir;
    t, g := Key(dir, Candidate("f", 0, 0)), Key(dir, "f");
    CandidateIsNotTarget("f", 0, 0);
    assert d.Entry(k) == Some(Dir(dir)) && d.Open([], ["a"]) == Ok(dir);
    assert Parent(["a", "f"]) == ["a"] && Name(["a", "f"]) == "f";
    OpenIsLook(d, [], ["a"], dir);
    assert None in d.Choices(k) && MayShow(d, None, ["a"], Absent);
    assert MayLeave(d, [], ["a"], Absent);
    ReadBack(d, ["a", "f"], t, bytes);
    var now := Renamed(d, t, g, bytes).Settle(t.dir);
    assert None in now.Choices(k) && MayShow(now, None, ["a", "f"], Absent);
  }
}
