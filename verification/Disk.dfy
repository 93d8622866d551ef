/**
 A disk under the `FileSystem` trait: what the running process sees, and what a
 crash could leave of it.

 Directories are objects with an identity, so a directory made after a crash-prone
 removal never inherits old entries. `pending` holds, for every entry that changed
 since its directory was last synced, each value a crash may leave there. `synced`
 holds the contents that survive a crash; the contents of any other file may come
 back as anything at all, torn writes included.
 */
module Disk {
  import opened Wrappers

  const MAX_HOPS := 40

  newtype byte = x: int | 0 <= x < 256
  type Bytes = seq<byte>
  type Path = seq<string>

  /** A directory: how it was reached when it was made, and a serial number that is never used again. */
  datatype Hop = Hop(serial: nat, name: string)
  type DirId = seq<Hop>  // from the root directory `[]` down

  datatype Node = Dir(id: DirId) | File(ino: nat) | Link(target: Path)
  datatype Key = Key(dir: DirId, name: string)

  function PathOf(id: DirId): Path {
    seq(|id|, j requires 0 <= j < |id| => id[j].name)
  }

  function PathOfKey(k: Key): Path {
    PathOf(k.dir) + [k.name]
  }

  /** What a path shows: nothing, a directory, a file with its contents, or a link. */
  datatype View = Absent | Folder(id: DirId) | Holds(ino: nat, bytes: Bytes) | Symlink(target: Path)

  datatype IoError = NotFound | AlreadyExists | Interrupted | NotADirectory | IsADirectory
                   | NotEmpty | InvalidInput | WriteZero | Other

  datatype Disk = Disk(entries: map<Key, Node>, pending: map<Key, set<Option<Node>>>,
                       data: map<nat, Bytes>, synced: map<nat, Bytes>, next: nat)
  {
    function Entry(k: Key): Option<Node> {
      if k in entries then Some(entries[k]) else None
    }

    /** The values a crash may leave at `k`. */
    function Choices(k: Key): set<Option<Node>> {
      if k in pending then pending[k] else {Entry(k)}
    }

    function Content(ino: nat): Bytes {
      if ino in data then data[ino] else []
    }

    /** The contents a crash is sure to keep. */
    function Kept(ino: nat): Option<Bytes> {
      if ino in synced then Some(synced[ino]) else None
    }

    function Open(at: DirId, p: Path): Result<DirId, IoError>
      decreases |p|
    {
      if p == [] then Ok(at) else
      match Entry(Key(at, p[0]))
      case None => Err(NotFound)
      case Some(Dir(i)) => Open(i, p[1..])
      case Some(_) => Err(NotADirectory)
    }

    function Look(at: DirId, p: Path): View
      decreases |p|
    {
      if p == [] then Folder(at) else
      match Entry(Key(at, p[0]))
      case None => Absent
      case Some(Dir(i)) => Look(i, p[1..])
      case Some(File(i)) => if |p| == 1 then Holds(i, Content(i)) else Absent
      case Some(Link(t)) => if |p| == 1 then Symlink(t) else Absent
    }

    /** The path that a path leads to when it ends in a symbolic link, through at most `hops` links. */
    function Resolve(p: Path, hops: nat): Path
      decreases hops
    {
      if hops > 0 && Look([], p).Symlink? then Resolve(Look([], p).target, hops - 1) else p
    }

    /** The path of the directory that is opened at `p`; some backends follow a link there. */
    function Real(p: Path, follows: bool): Path {
      if follows then Resolve(p, MAX_HOPS) else p
    }

    function Reach(p: Path, follows: bool): Result<DirId, IoError> {
      Open([], Real(p, follows))
    }

    /** The path that an entry named `p` has in the directory it is reached through. */
    function Landing(p: Path, follows: bool): Path {
      if p == [] then p else Real(p[..|p| - 1], follows) + [p[|p| - 1]]
    }

    /** A serial number or file number already handed out. */
    predicate Issued(id: DirId) {
      forall h | h in id :: h.serial < next
    }

    predicate Fits(k: Key, e: Node) {
      match e
      case Dir(i) => i != [] && i[..|i| - 1] == k.dir && i[|i| - 1].name == k.name && Issued(i)
      case File(i) => i < next
      case Link(_) => true
    }

    /** A crash may always leave an entry as it is. */
    ghost predicate Coherent() {
      forall k | k in pending :: Entry(k) in pending[k]
    }

    /** The namespace is a tree of issued directories. */
    ghost predicate Valid() {
      && Coherent()
      && (forall k, e | Some(e) in Choices(k) :: Fits(k, e))
      && (forall k | k in entries || k in pending :: Issued(k.dir))
      && (forall i | i in synced :: i < next)
    }

    /** A change of one entry, not yet on the disk. */
    function Put(k: Key, e: Option<Node>): Disk {
      this.(entries := if e.Some? then entries[k := e.value] else entries - {k},
            pending := pending[k := Choices(k) + {e}])
    }

    /** A new, empty directory at `k`. */
    function Mkdir(k: Key): Disk {
      Put(k, Some(Dir(k.dir + [Hop(next, k.name)]))).(next := next + 1)
    }

    /** A new, empty file at `k`. */
    function Create(k: Key): Disk {
      Put(k, Some(File(next))).(data := data[next := []], next := next + 1)
    }

    /** New contents of a file, not yet on the disk. */
    function Store(ino: nat, bytes: Bytes): Disk {
      this.(data := data[ino := bytes], synced := synced - {ino})
    }

    /** The contents of a file reach the disk. */
    function Sync(ino: nat): Disk {
      this.(synced := synced[ino := Content(ino)])
    }

    /** The entry at `from` replaces the one at `to`, atomically. */
    function Move(from: Key, to: Key): Disk
      requires from in entries
    {
      Put(from, None).Put(to, Some(entries[from]))
    }

    /** The directory `id`'s entries reach the disk. */
    function Settle(id: DirId): Disk {
      this.(pending := map k | k in pending && k.dir != id :: pending[k])
    }
  }

  // ----- paths and directory identities

  lemma {:induction false} OpenNames(d: Disk, at: DirId, p: Path, id: DirId)
    requires d.Valid() && d.Open(at, p) == Ok(id) && d.Issued(at)
    ensures PathOf(id) == PathOf(at) + p && d.Issued(id)
    decreases |p|
  {
    if p != [] {
      var e := d.entries[Key(at, p[0])];
      assert Some(e) in d.Choices(Key(at, p[0]));
      assert d.Fits(Key(at, p[0]), e);
      OpenNames(d, e.id, p[1..], id);
      assert PathOf(e.id) == PathOf(at) + [p[0]];
      assert PathOf(at) + [p[0]] + p[1..] == PathOf(at) + p;
    }
  }

  /** A path that shows a directory is one that opens. */
  lemma {:induction false} OpenIsLook(d: Disk, at: DirId, p: Path, id: DirId)
    ensures d.Open(at, p) == Ok(id) <==> d.Look(at, p) == Folder(id)
    decreases |p|
  {
    if p != [] && Key(at, p[0]) in d.entries && d.entries[Key(at, p[0])].Dir? {
      OpenIsLook(d, d.entries[Key(at, p[0])].id, p[1..], id);
    }
  }

  lemma {:induction false} LookLast(d: Disk, at: DirId, parent: Path, name: string)
    ensures d.Look(at, parent + [name]) ==
            match d.Open(at, parent) { case Ok(id) => d.Look(id, [name]) case Err(_) => Absent }
    decreases |parent|
  {
    if parent != [] {
      assert (parent + [name])[1..] == parent[1..] + [name];
      if Key(at, parent[0]) in d.entries && d.entries[Key(at, parent[0])].Dir? {
        LookLast(d, d.entries[Key(at, parent[0])].id, parent[1..], name);
      }
    }
  }

  lemma RealOfPlain(d: Disk, p: Path, follows: bool)
    requires !d.Look([], p).Symlink?
    ensures d.Real(p, follows) == p && d.Reach(p, follows) == d.Open([], p)
  {
  }

  /** What is not found is not missing behind a file or a link. */
  lemma {:induction false} NotFoundParent(d: Disk, at: DirId, p: Path)
    requires p != [] && d.Open(at, p) == Err(NotFound)
    ensures d.Look(at, p[..|p| - 1]) == Absent || d.Look(at, p[..|p| - 1]).Folder?
    decreases |p|
  {
    if |p| > 1 && Key(at, p[0]) in d.entries && d.entries[Key(at, p[0])].Dir? {
      assert p[1..][..|p| - 2] == p[..|p| - 1][1..];
      NotFoundParent(d, d.entries[Key(at, p[0])].id, p[1..]);
    }
  }

  /** Links are resolved alike on two disks that show every path alike but one, which is a link on neither. */
  lemma {:induction false} ResolveSame(d: Disk, d': Disk, but: Path, p: Path, hops: nat)
    requires forall q | q != but :: d'.Look([], q) == d.Look([], q)
    requires !d.Look([], but).Symlink? && !d'.Look([], but).Symlink?
    ensures d'.Resolve(p, hops) == d.Resolve(p, hops)
    decreases hops
  {
    if hops > 0 && p != but && d.Look([], p).Symlink? {
      ResolveSame(d, d', but, d.Look([], p).target, hops - 1);
    }
  }

  /** Where that path was a link and is a file now, a resolution is as before or ends at the file. */
  lemma {:induction false} ResolveCut(d: Disk, d': Disk, but: Path, p: Path, hops: nat)
    requires forall q | q != but :: d'.Look([], q) == d.Look([], q)
    requires d'.Look([], but).Holds?
    ensures d'.Resolve(p, hops) == d.Resolve(p, hops) || d'.Resolve(p, hops) == but
    decreases hops
  {
    if hops > 0 && p != but && d.Look([], p).Symlink? {
      ResolveCut(d, d', but, d.Look([], p).target, hops - 1);
    }
  }

  /** A path shows the same on two disks that agree on the entries it passes through. */
  lemma {:induction false} LookFrame(d: Disk, d': Disk, at: DirId, q: Path)
    requires d.Valid()
    requires forall k: Key | PathOfKey(k) <= PathOf(at) + q :: d'.Entry(k) == d.Entry(k)
    requires forall k: Key, i | PathOfKey(k) <= PathOf(at) + q && d.Entry(k) == Some(File(i)) ::
               d'.Content(i) == d.Content(i)
    ensures d'.Look(at, q) == d.Look(at, q)
    decreases |q|
  {
    if q != [] {
      var k := Key(at, q[0]);
      assert PathOfKey(k) == (PathOf(at) + q)[..|at| + 1];
      if k in d.entries && d.entries[k].Dir? {
        var id := d.entries[k].id;
        assert Some(d.entries[k]) in d.Choices(k);
        assert d.Fits(k, d.entries[k]);
        assert PathOf(id) + q[1..] == PathOf(at) + q;
        LookFrame(d, d', id, q[1..]);
      }
    }
  }

  /** `after` is a disk found when `before` crashes. */
  ghost predicate Crash(before: Disk, after: Disk) {
    && (forall k :: after.Entry(k) in before.Choices(k))
    && (forall i | i in before.synced :: after.Content(i) == before.synced[i])
  }

  /** Whether a crash may leave `v` at the path `p` below the directory `at`. */
  ghost predicate MayLeave(d: Disk, at: DirId, p: Path, v: View)
    decreases |p|, 1
  {
    if p == [] then v == Folder(at)
    else exists e :: e in d.Choices(Key(at, p[0])) && MayShow(d, e, p, v)
  }

  ghost predicate MayShow(d: Disk, e: Option<Node>, p: Path, v: View)
    requires p != []
    decreases |p|, 0
  {
    match e
    case None => v == Absent
    case Some(Dir(i)) => MayLeave(d, i, p[1..], v)
    case Some(File(i)) =>
      if |p| == 1 then v.Holds? && v.ino == i && (i in d.synced ==> v.bytes == d.synced[i]) else v == Absent
    case Some(Link(t)) => if |p| == 1 then v == Symlink(t) else v == Absent
  }

  // ----- the calls keep the disk valid

  lemma PutValid(d: Disk, k: Key, e: Option<Node>)
    requires d.Valid() && d.Issued(k.dir)
    requires e.Some? ==> d.Fits(k, e.value)
    ensures d.Put(k, e).Valid()
  {
    var now := d.Put(k, e);
    forall j, n | Some(n) in now.Choices(j) ensures now.Fits(j, n) {
      assert Some(n) in d.Choices(j) || (j == k && e == Some(n));
    }
  }

  /** Handing out a number keeps the disk valid and makes that number new to every entry. */
  lemma IssueValid(d: Disk)
    requires d.Valid()
    ensures d.(next := d.next + 1).Valid()
    ensures forall k: Key, n | k in d.entries || k in d.pending :: Hop(d.next, n) !in k.dir
  {
    var now := d.(next := d.next + 1);
    forall k, e | Some(e) in now.Choices(k) ensures now.Fits(k, e) {
      assert Some(e) in d.Choices(k);
    }
    forall k: Key, n | k in d.entries || k in d.pending ensures Hop(d.next, n) !in k.dir {
      assert d.Issued(k.dir);
    }
  }

  // ----- `MayLeave` is exactly what crashes do

  lemma {:induction false} CrashShows(d: Disk, after: Disk, at: DirId, p: Path)
    requires Crash(d, after)
    ensures MayLeave(d, at, p, after.Look(at, p))
    decreases |p|
  {
    if p != [] {
      var e := after.Entry(Key(at, p[0]));
      assert e in d.Choices(Key(at, p[0]));
      if e.Some? && e.value.Dir? {
        CrashShows(d, after, e.value.id, p[1..]);
      }
      assert MayShow(d, e, p, after.Look(at, p));
    }
  }

  /** A walk from `at` only reads entries of directories at least as deep as `at`. */
  lemma {:induction false} LookIsLocal(d: Disk, d': Disk, at: DirId, p: Path)
    requires forall k, e | d.Entry(k) == Some(e) && e.Dir? :: |e.id| == |k.dir| + 1
    requires forall k: Key | |at| <= |k.dir| :: d'.Entry(k) == d.Entry(k)
    requires d'.data == d.data
    ensures d'.Look(at, p) == d.Look(at, p)
    decreases |p|
  {
    if p != [] {
      var e := d.Entry(Key(at, p[0]));
      if e.Some? && e.value.Dir? {
        LookIsLocal(d, d', e.value.id, p[1..]);
      }
    }
  }

  /** The crash that loses nothing but unsynced contents. */
  lemma QuietCrash(d: Disk) returns (after: Disk)
    requires d.Coherent()
    ensures Crash(d, after) && after.entries == d.entries
  {
    after := d.(data := d.data + d.synced);
  }

  lemma {:induction false} CrashWitness(d: Disk, at: DirId, p: Path, v: View) returns (after: Disk)
    requires d.Valid() && MayLeave(d, at, p, v)
    ensures Crash(d, after) && after.Look(at, p) == v
    decreases |p|
  {
    if p == [] {
      after := QuietCrash(d);
    } else {
      var key := Key(at, p[0]);
      var e :| e in d.Choices(key) && MayShow(d, e, p, v);
      if e.Some? && e.value.Dir? {
        var deeper := CrashWitness(d, e.value.id, p[1..], v);
        after := BranchWitness(d, deeper, key, e.value.id, p, v);
      } else {
        after := LeafWitness(d, key, e, p, v);
      }
    }
  }

  lemma BranchWitness(d: Disk, deeper: Disk, key: Key, id: DirId, p: Path, v: View) returns (after: Disk)
    requires d.Valid() && p != [] && key.name == p[0] && Some(Dir(id)) in d.Choices(key)
    requires Crash(d, deeper) && deeper.Look(id, p[1..]) == v
    ensures Crash(d, after) && after.Look(key.dir, p) == v
  {
    after := WithEntry(d, deeper, key, Some(Dir(id)));
    assert d.Fits(key, Dir(id));
    forall k: Key | |id| <= |k.dir| ensures after.Entry(k) == deeper.Entry(k) {
      assert k != key;
    }
    forall k, n | deeper.Entry(k) == Some(n) && n.Dir? ensures |n.id| == |k.dir| + 1 {
      assert d.Fits(k, n);
    }
    LookIsLocal(deeper, after, id, p[1..]);
  }

  lemma LeafWitness(d: Disk, key: Key, e: Option<Node>, p: Path, v: View) returns (after: Disk)
    requires d.Valid() && p != [] && key.name == p[0]
    requires e in d.Choices(key) && MayShow(d, e, p, v) && !(e.Some? && e.value.Dir?)
    ensures Crash(d, after) && after.Look(key.dir, p) == v
  {
    var quiet := QuietCrash(d);
    if e.Some? && e.value.File? && |p| == 1 {
      quiet := quiet.(data := quiet.data[e.value.ino := v.bytes]);
    }
    after := WithEntry(d, quiet, key, e);
  }

  lemma WithEntry(d: Disk, was: Disk, key: Key, e: Option<Node>) returns (after: Disk)
    requires d.Valid() && Crash(d, was) && e in d.Choices(key)
    ensures Crash(d, after) && after.Entry(key) == e && after.data == was.data
    ensures forall k | k != key :: after.Entry(k) == was.Entry(k)
    ensures forall k, n | was.Entry(k) == Some(n) :: d.Fits(k, n)
  {
    after := was.(entries := if e.Some? then was.entries[key := e.value] else was.entries - {key});
    assert forall k | k != key :: after.Entry(k) == was.Entry(k);
    forall k, n | was.Entry(k) == Some(n) ensures d.Fits(k, n) {
      assert was.Entry(k) in d.Choices(k);
    }
  }

  /** A path may be left as `v` exactly when some crash of the disk leaves it as `v`. */
  lemma CrashViews(d: Disk, p: Path, v: View)
    requires d.Valid()
    ensures MayLeave(d, [], p, v) <==> exists after :: Crash(d, after) && after.Look([], p) == v
  {
    if MayLeave(d, [], p, v) {
      var after := CrashWitness(d, [], p, v);
    }
    forall after | Crash(d, after) && after.Look([], p) == v
      ensures MayLeave(d, [], p, v)
    {
      CrashShows(d, after, [], p);
    }
  }
}
