/** `remove_tree`: a path and everything below it, links unlinked and never followed. */
module RemoveTree {
  import opened Wrappers
  import opened Disk
  import opened Steps
  import opened FileSystems

  datatype Kind = Directory | RegularFile | SymbolicLink

  datatype Listed = Listed(name: string, kind: Kind)

  function KindOf(n: Node): Kind {
    match n
    case Dir(_) => Directory
    case File(_) => RegularFile
    case Link(_) => SymbolicLink
  }

  /** Only entries at or below `path` are gone, and no contents changed. */
  ghost predicate Pruned(was: Disk, now: Disk, path: Path) {
    && (forall k | k in now.entries :: was.Entry(k) == Some(now.entries[k]))
    && (forall k | k in was.entries && k !in now.entries :: path <= PathOfKey(k))
    && now.data == was.data && now.synced == was.synced && now.next == was.next
  }

  /** The entries of directories at depth `n` or more. */
  function Deep(d: Disk, n: nat): set<Key> {
    set k | k in d.entries && n <= |k.dir|
  }

  // ----- the abstract calls

  method GetKind(fs: FileSystem, path: Path) returns (r: Result<Kind, IoError>)
    ensures r.Ok? ==> (r.value.Directory? <==> fs.disk.Look([], path).Folder?) && fs.disk.Look([], path) != Absent
    ensures r.Err? ==> r.error == Other || fs.disk.Look([], path) == Absent
  {
    if * {
      return Err(Other);
    }
    match fs.disk.Look([], path)
    case Absent => r := Err(NotFound);
    case Folder(_) => r := Ok(Directory);
    case Holds(_, _) => r := Ok(RegularFile);
    case Symlink(_) => r := Ok(SymbolicLink);
  }

  /** The entries of a directory, each once, with their kinds. */
  ghost predicate Lists(d: Disk, id: DirId, listing: seq<Listed>) {
    && (forall e | e in listing :: Key(id, e.name) in d.entries && e.kind == KindOf(d.entries[Key(id, e.name)]))
    && (forall i, j | 0 <= i < j < |listing| :: listing[i].name != listing[j].name)
    && (forall k | k in d.entries && k.dir == id :: Listed(k.name, KindOf(d.entries[k])) in listing)
  }

  method ReadDirectory(fs: FileSystem, path: Path) returns (r: Result<seq<Listed>, IoError>)
    ensures r.Ok? ==> var dir := fs.disk.Reach(path, fs.follows); dir.Ok? && Lists(fs.disk, dir.value, r.value)
    ensures r.Err? ==> r.error == Other || fs.disk.Reach(path, fs.follows).Err?
  {
    var dir := fs.OpenDirectory(path);
    if dir.Err? {
      return Err(dir.error);
    }
    var left := set k | k in fs.disk.entries && k.dir == dir.value;
    var listing: seq<Listed> := [];
    while left != {}
      invariant forall k | k in left ::
                  k in fs.disk.entries && k.dir == dir.value && forall e | e in listing :: e.name != k.name
      invariant forall e | e in listing :: Key(dir.value, e.name) in fs.disk.entries
                                        && e.kind == KindOf(fs.disk.entries[Key(dir.value, e.name)])
      invariant forall i, j | 0 <= i < j < |listing| :: listing[i].name != listing[j].name
      invariant forall k | k in fs.disk.entries && k.dir == dir.value ::
                  k in left || Listed(k.name, KindOf(fs.disk.entries[k])) in listing
      decreases left
    {
      var k :| k in left;
      left := left - {k};
      listing := listing + [Listed(k.name, KindOf(fs.disk.entries[k]))];
    }
    r := Ok(listing);
  }

  method RemoveDirectory(fs: FileSystem, path: Path, ghost id: DirId) returns (r: Result<(), IoError>)
    requires fs.Valid() && fs.disk.Open([], path) == Ok(id)
    modifies fs`disk, fs`seen
    ensures fs.Valid() && Pruned(old(fs.disk), fs.disk, path)
    ensures r.Ok? ==> fs.disk.Look([], path) == Absent
    ensures r == Err(NotEmpty) ==> exists k :: k in old(fs.disk).entries && k.dir == id
    ensures r.Err? ==> r.error in {Other, InvalidInput, NotEmpty}
  {
    var at := Split(path);
    if at.Err? {
      return Err(at.error);
    }
    var dir := fs.OpenDirectory(at.value.0);
    ParentOpens(fs.disk, path, id);
    OpenIsReach(fs.disk, at.value.0, fs.follows);
    var refused: bool := *;
    if dir.Err? || refused {
      return Err(Other);
    }
    var k := Key(dir.value, at.value.1);
    var children := set c | c in fs.disk.entries && c.dir == fs.disk.entries[k].id;
    if children != {} {
      return Err(NotEmpty);
    }
    RemoveOne(fs.disk, path, k);
    fs.disk := fs.disk.Put(k, None);
    fs.seen := fs.seen + {fs.disk};
    r := Ok(());
  }

  lemma ParentOpens(d: Disk, path: Path, id: DirId)
    requires Split(path).Ok? && d.Open([], path) == Ok(id)
    ensures d.Open([], Split(path).value.0).Ok?
    ensures d.Entry(Key(d.Open([], Split(path).value.0).value, Split(path).value.1)) == Some(Dir(id))
  {
    var (parent, name) := Split(path).value;
    assert path == parent + [name];
    OpenIsLook(d, [], path, id);
    LookLast(d, [], parent, name);
  }

  /** Dropping the entry of `path` leaves nothing there. */
  lemma RemoveOne(d: Disk, path: Path, k: Key)
    requires d.Valid() && Split(path).Ok?
    requires d.Open([], Split(path).value.0) == Ok(k.dir) && k.name == Split(path).value.1
    ensures d.Put(k, None).Valid() && Pruned(d, d.Put(k, None), path)
    ensures d.Put(k, None).Look([], path) == Absent
  {
    var now := d.Put(k, None);
    var parent := Split(path).value.0;
    OpenNames(d, [], parent, k.dir);
    assert PathOfKey(k) == path == parent + [k.name];
    assert |k.dir| == |PathOf(k.dir)|;
    PutValid(d, k, None);
    OpenKept(d, now, parent, k.dir);
    LookLast(now, [], parent, k.name);
  }

  // ----- what `Pruned` means for paths

  lemma {:induction false} NothingBelow(d: Disk, at: DirId, p: Path, rest: Path)
    requires d.Look(at, p) == Absent
    ensures d.Look(at, p + rest) == Absent
    decreases |p|
  {
    if p != [] {
      assert (p + rest)[0] == p[0] && (p + rest)[1..] == p[1..] + rest;
      var k := Key(at, p[0]);
      if k in d.entries && d.entries[k].Dir? {
        NothingBelow(d, d.entries[k].id, p[1..], rest);
      }
    }
  }

  /** When nothing shows at `path`, a pruned disk has lost exactly `path` and what lay below it. */
  lemma PrunedLooks(was: Disk, now: Disk, path: Path, q: Path)
    requires was.Valid() && Pruned(was, now, path)
    ensures !(path <= q) ==> now.Look([], q) == was.Look([], q)
    ensures path <= q && now.Look([], path) == Absent ==> now.Look([], q) == Absent
  {
    if path <= q {
      if now.Look([], path) == Absent {
        NothingBelow(now, [], path, q[|path|..]);
        assert path + q[|path|..] == q;
      }
    } else {
      assert PathOf([]) + q == q;
      forall k: Key | PathOfKey(k) <= PathOf([]) + q ensures now.Entry(k) == was.Entry(k) {
        assert !(path <= PathOfKey(k));
      }
      LookFrame(was, now, [], q);
    }
  }

  /**
   A link at or below the removed path, on a backend that opens directories through links: what
   it leads to outside that path shows as before, and so does everything below it.
   */
  lemma TargetsStay(was: Disk, now: Disk, path: Path, link: Path, rest: Path)
    requires was.Valid() && Pruned(was, now, path) && path <= link && was.Look([], link).Symlink?
    ensures var target := was.Real(link, true);
      !(path <= target + rest) ==> now.Look([], target + rest) == was.Look([], target + rest)
  {
    PrunedLooks(was, now, path, was.Real(link, true) + rest);
  }

  // ----- the default method

  /**
   On success nothing is left at `path`; whatever happens, no entry outside it and no
   contents change. The only failures are refusals by the backend, a path that is not
   there and a name that is no component: the directory is always empty when it goes.
   */
  method RemoveTree(fs: FileSystem, path: Path) returns (r: Result<(), IoError>)
    requires fs.Valid()
    modifies fs`disk, fs`seen
    ensures fs.Valid() && Pruned(old(fs.disk), fs.disk, path)
    ensures r.Ok? ==> fs.disk.Look([], path) == Absent
    ensures r.Err? ==> r.error == Other || r.error == InvalidInput || old(fs.disk).Look([], path) == Absent
    decreases Deep(fs.disk, |path|), 2
  {
    var kind := GetKind(fs, path);
    if kind.Err? {
      return Err(kind.error);
    }
    if kind.value != Directory {
      r := RemoveLeaf(fs, path);
    } else {
      ghost var id := fs.disk.Look([], path).id;
      OpenIsLook(fs.disk, [], path, id);
      OpenIsReach(fs.disk, path, fs.follows);
      var listing := ReadDirectory(fs, path);
      if listing.Err? {
        return Err(listing.error);
      }
      r := RemoveChildren(fs, path, listing.value, id);
      if r.Ok? {
        r := RemoveDirectory(fs, path, id);
      }
    }
  }

  /** Every child in turn; afterwards the directory is empty. */
  method RemoveChildren(fs: FileSystem, path: Path, listing: seq<Listed>, ghost id: DirId)
    returns (r: Result<(), IoError>)
    requires fs.Valid() && fs.disk.Open([], path) == Ok(id) && Lists(fs.disk, id, listing)
    modifies fs`disk, fs`seen
    ensures fs.Valid() && Pruned(old(fs.disk), fs.disk, path) && fs.disk.Open([], path) == Ok(id)
    ensures r.Ok? ==> forall k | k in fs.disk.entries :: k.dir != id
    ensures r.Err? ==> r.error == Other || r.error == InvalidInput
    decreases Deep(fs.disk, |path|), 1
  {
    OpenNames(fs.disk, [], path, id);
    r := Ok(());
    var i := 0;
    while i < |listing| && r.Ok?
      invariant 0 <= i <= |listing|
      invariant fs.Valid() && fs.disk.Open([], path) == Ok(id) && Pruned(old(fs.disk), fs.disk, path)
      invariant r.Err? ==> r.error == Other || r.error == InvalidInput
      invariant r.Ok? ==> forall j | i <= j < |listing| ::
                  fs.disk.Entry(Key(id, listing[j].name)) == old(fs.disk).Entry(Key(id, listing[j].name))
      invariant r.Ok? ==> forall j | 0 <= j < i :: Key(id, listing[j].name) !in fs.disk.entries
    {
      ghost var before := fs.disk;
      assert Deep(fs.disk, |path|) <= Deep(old(fs.disk), |path|);
      assert listing[i] in listing;
      r := RemoveChild(fs, path, listing[i], id);
      PrunedAfter(old(fs.disk), before, fs.disk, path, listing[i].name);
      forall j | 0 <= j < |listing| && j != i
        ensures fs.disk.Entry(Key(id, listing[j].name)) == before.Entry(Key(id, listing[j].name))
      {
        Sibling(before, fs.disk, path, id, listing[i].name, listing[j].name);
      }
      i := i + 1;
    }
    if r.Ok? {
      forall k | k in fs.disk.entries ensures k.dir != id {
        assert old(fs.disk).Entry(k) == fs.disk.Entry(k);
      }
    }
  }

  method RemoveChild(fs: FileSystem, path: Path, child: Listed, ghost id: DirId) returns (r: Result<(), IoError>)
    requires fs.Valid() && fs.disk.Open([], path) == Ok(id)
    requires Key(id, child.name) in fs.disk.entries && child.kind == KindOf(fs.disk.entries[Key(id, child.name)])
    modifies fs`disk, fs`seen
    ensures fs.Valid() && Pruned(old(fs.disk), fs.disk, path + [child.name]) && fs.disk.Open([], path) == Ok(id)
    ensures r.Ok? ==> Key(id, child.name) !in fs.disk.entries
    ensures r.Err? ==> r.error == Other || r.error == InvalidInput
    decreases Deep(fs.disk, |path|), 0
  {
    var below := path + [child.name];
    OpenNames(fs.disk, [], path, id);
    assert |id| == |PathOf(id)|;
    LookLast(fs.disk, [], path, child.name);
    if child.kind == Directory {
      assert Key(id, child.name) in Deep(fs.disk, |path|) && Key(id, child.name) !in Deep(fs.disk, |below|);
      r := RemoveTree(fs, below);
    } else {
      r := RemoveLeaf(fs, below);
    }
    KeptOpen(old(fs.disk), fs.disk, path, below, id);
    LookLast(fs.disk, [], path, child.name);
  }

  method RemoveLeaf(fs: FileSystem, path: Path) returns (r: Result<(), IoError>)
    requires fs.Valid() && !fs.disk.Look([], path).Folder? && fs.disk.Look([], path) != Absent
    modifies fs`disk, fs`seen
    ensures fs.Valid() && Pruned(old(fs.disk), fs.disk, path)
    ensures r.Ok? ==> fs.disk.Look([], path) == Absent
    ensures r.Err? ==> r.error == Other || r.error == InvalidInput
  {
    r := fs.RemoveFile(path);
    if r.Ok? {
      var (parent, name) := Split(path).value;
      LookLast(old(fs.disk), [], parent, name);
      assert path == parent + [name];
      OpenIsReach(old(fs.disk), parent, fs.follows);
      RemoveOne(old(fs.disk), path, Key(old(fs.disk).Open([], parent).value, name));
    }
  }

  lemma PrunedAfter(a: Disk, b: Disk, c: Disk, path: Path, name: string)
    requires Pruned(a, b, path) && Pruned(b, c, path + [name])
    ensures Pruned(a, c, path)
  {
    forall k | k in a.entries && k !in c.entries ensures path <= PathOfKey(k) {
      if k in b.entries {
        assert path + [name] <= PathOfKey(k);
      }
    }
    forall k | k in c.entries ensures a.Entry(k) == Some(c.entries[k]) {
      assert b.Entry(k) == Some(c.entries[k]);
    }
  }

  lemma Sibling(was: Disk, now: Disk, path: Path, id: DirId, gone: string, other: string)
    requires Pruned(was, now, path + [gone]) && PathOf(id) == path && gone != other
    ensures now.Entry(Key(id, other)) == was.Entry(Key(id, other))
  {
    assert PathOfKey(Key(id, other))[|path|] == other;
  }

  lemma KeptOpen(was: Disk, now: Disk, path: Path, below: Path, id: DirId)
    requires was.Valid() && Pruned(was, now, below) && |path| < |below| && was.Open([], path) == Ok(id)
    ensures now.Open([], path) == Ok(id)
  {
    forall k: Key | |k.dir| < |path| ensures now.Entry(k) == was.Entry(k) {
      assert |PathOfKey(k)| == |k.dir| + 1;
    }
    OpenKept(was, now, path, id);
  }
}
