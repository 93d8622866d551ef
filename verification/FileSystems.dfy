/**
 The `FileSystem` trait: its abstract calls as steps on a `Disk` that may fail at
 any time, and its default methods as the source writes them.

 Every state the disk passes through is kept in `seen`, so that a caller's
 contract can speak of a crash at any moment of the call. Any call may answer
 `Other` without effect; a failed write may leave anything in the file it wrote.
 */
module FileSystems {
  import opened Wrappers
  import opened Disk
  import opened Steps

  const CHUNK := 8192

  /** One relative component: what `component` lets through. */
  predicate Component(name: string) {
    name != "" && name != "." && name != ".." && '/' !in name && '\0' !in name
  }

  function Split(path: Path): Result<(Path, string), IoError> {
    if path == [] || !Component(path[|path| - 1]) then Err(InvalidInput)
    else Ok((path[..|path| - 1], path[|path| - 1]))
  }

  /** `now` is `was` with `chunk` written over it at `at`. */
  ghost predicate Spliced(was: Bytes, now: Bytes, at: nat, chunk: Bytes) {
    && |now| == (if at + |chunk| < |was| then |was| else at + |chunk|)
    && at <= |was|
    && forall i | 0 <= i < |now| :: now[i] == if at <= i < at + |chunk| then chunk[i - at] else was[i]
  }

  function Splice(was: Bytes, at: nat, chunk: Bytes): (now: Bytes)
    requires at <= |was|
    ensures Spliced(was, now, at, chunk)
  {
    was[..at] + chunk + (if at + |chunk| < |was| then was[at + |chunk|..] else [])
  }

  /** Nothing but the contents of the file `ino` differs. */
  predicate Rewritten(was: Disk, now: Disk, ino: nat) {
    now == was.Store(ino, now.Content(ino))
  }

  /** `now` keeps every entry, every crash outcome and every file of `was`; it adds directories on `path`. */
  ghost predicate Extended(was: Disk, now: Disk, path: Path) {
    && (forall k | k in was.entries :: now.Entry(k) == Some(was.entries[k]))
    && (forall k | k in now.entries && k !in was.entries :: now.entries[k].Dir? && PathOfKey(k) <= path)
    && (forall k :: was.Choices(k) <= now.Choices(k))
    && now.data == was.data && now.synced == was.synced && was.next <= now.next
  }

  /** `now` differs from `was` by directories made on `path`, whatever crashes. */
  ghost predicate Made(was: Disk, now: Disk, path: Path) {
    Grew(was, now, path) && Extended(was, now, path) && ConfinedBelow(was, now, path)
  }

  lemma MadeDeeper(a: Disk, b: Disk, parent: Path, path: Path)
    requires Made(a, b, parent) && parent <= path
    ensures Made(a, b, path)
  {
    ConfinedDeeper(a, b, parent, path);
  }

  lemma MadeChain(a: Disk, b: Disk, c: Disk, path: Path)
    requires Made(a, b, path) && Made(b, c, path)
    ensures Made(a, c, path)
  {
    ConfinedChain(a, b, c, path);
    ExtendedChain(a, b, c, path);
    forall q ensures c.Look([], q) == a.Look([], q)
                  || (q <= path && a.Look([], q) == Absent && c.Look([], q).Folder?) {
      assert b.Look([], q) == a.Look([], q) || a.Look([], q) == Absent;
    }
  }

  lemma ExtendedChain(a: Disk, b: Disk, c: Disk, path: Path)
    requires Extended(a, b, path) && Extended(b, c, path)
    ensures Extended(a, c, path)
  {
    forall k | k in c.entries && k !in a.entries ensures c.entries[k].Dir? && PathOfKey(k) <= path {
      if k in b.entries {
        assert c.Entry(k) == Some(b.entries[k]);
      }
    }
    forall k | k in a.entries ensures c.Entry(k) == Some(a.entries[k]) {
      assert b.Entry(k) == Some(a.entries[k]);
    }
  }

  class FileSystem {
    var disk: Disk
    var interrupts: nat  // interrupted transfers still to come
    const follows: bool  // whether opening a directory follows a link there
    ghost var seen: set<Disk>

    ghost predicate Valid()
      reads this
    {
      disk.Valid() && disk in seen
    }

    constructor (disk: Disk, interrupts: nat, follows: bool)
      requires disk.Valid()
      ensures Valid() && this.disk == disk && this.interrupts == interrupts && this.follows == follows && seen == {disk}
    {
      this.disk, this.interrupts, this.follows, seen := disk, interrupts, follows, {disk};
    }

    // ----- the abstract calls

    method OpenDirectory(path: Path) returns (r: Result<DirId, IoError>)
      ensures r == disk.Reach(path, follows) || r == Err(Other)
    {
      if * {
        r := Err(Other);
      } else {
        r := disk.Reach(path, follows);
      }
    }

    method CreateDirectoryAt(dir: DirId, name: string) returns (r: Result<(), IoError>)
      requires Valid() && disk.Issued(dir)
      modifies this`disk, this`seen
      ensures Valid()
      ensures r.Ok? ==>
        && Key(dir, name) !in old(disk).entries
        && disk == old(disk).Mkdir(Key(dir, name)) && seen == old(seen) + {disk}
      ensures r == Err(AlreadyExists) ==> Key(dir, name) in disk.entries
      ensures r.Err? ==> disk == old(disk) && seen == old(seen)
    {
      if Key(dir, name) in disk.entries {
        r := Err(AlreadyExists);
      } else if * {
        r := Err(Other);
      } else {
        MkdirValid(disk, Key(dir, name));
        disk := disk.Mkdir(Key(dir, name));
        seen := seen + {disk};
        r := Ok(());
      }
    }

    method CreateFileAt(dir: DirId, name: string) returns (r: Result<nat, IoError>)
      requires Valid() && disk.Issued(dir)
      modifies this`disk, this`seen
      ensures Valid()
      ensures r.Ok? ==>
        && Key(dir, name) !in old(disk).entries && r.value == old(disk).next
        && disk == old(disk).Create(Key(dir, name)) && seen == old(seen) + {disk}
      ensures r == Err(AlreadyExists) ==> Key(dir, name) in disk.entries
      ensures r.Err? ==> disk == old(disk) && seen == old(seen)
    {
      if Key(dir, name) in disk.entries {
        r := Err(AlreadyExists);
      } else if * {
        r := Err(Other);
      } else {
        r := Ok(disk.next);
        CreateValid(disk, Key(dir, name));
        disk := disk.Create(Key(dir, name));
        seen := seen + {disk};
      }
    }

    /** A transfer may be short, may write nothing, may be interrupted, or may fail midway. */
    method WriteAt(ino: nat, offset: nat, buffer: Bytes) returns (r: Result<nat, IoError>)
      requires offset <= |disk.Content(ino)|
      modifies this
      ensures interrupts <= old(interrupts)
      ensures r != Err(Interrupted) ==> Rewritten(old(disk), disk, ino) && seen == old(seen) + {disk}
      ensures r.Ok? ==>
        && r.value <= |buffer| && interrupts == old(interrupts)
        && Spliced(old(disk).Content(ino), disk.Content(ino), offset, buffer[..r.value])
      ensures r == Err(Interrupted) ==> interrupts < old(interrupts) && disk == old(disk) && seen == old(seen)
    {
      var interrupted: bool := *;
      if interrupted && interrupts > 0 {
        interrupts := interrupts - 1;
        return Err(Interrupted);
      }
      if * {
        var torn: Bytes := *;
        disk := disk.Store(ino, torn);
        r := Err(Other);
      } else {
        var count: nat :| count <= |buffer|;
        disk := disk.Store(ino, Splice(disk.Content(ino), offset, buffer[..count]));
        r := Ok(count);
      }
      seen := seen + {disk};
    }

    /** A read may be short, but is empty only at the end of the file. */
    method ReadAt(ino: nat, offset: nat) returns (r: Result<Bytes, IoError>)
      modifies this`interrupts
      ensures r.Ok? ==>
        && interrupts == old(interrupts) && |r.value| <= CHUNK
        && offset + |r.value| <= |disk.Content(ino)| + (if r.value == [] then offset else 0)
        && (r.value == [] <==> offset >= |disk.Content(ino)|)
        && (r.value != [] ==> r.value == disk.Content(ino)[offset..offset + |r.value|])
      ensures r == Err(Interrupted) ==> interrupts < old(interrupts)
    {
      var interrupted: bool := *;
      if interrupted && interrupts > 0 {
        interrupts := interrupts - 1;
        return Err(Interrupted);
      }
      if * {
        return Err(Other);
      }
      var content := disk.Content(ino);
      if offset >= |content| {
        return Ok([]);
      }
      var most := if |content| - offset < CHUNK then |content| - offset else CHUNK;
      assert 1 <= most;
      var count: nat :| 1 <= count <= most;
      r := Ok(content[offset..offset + count]);
    }

    method SyncFile(ino: nat) returns (r: Result<(), IoError>)
      requires Valid() && ino < disk.next
      modifies this`disk, this`seen
      ensures Valid()
      ensures r.Ok? ==> disk == old(disk).Sync(ino) && seen == old(seen) + {disk}
      ensures r.Err? ==> disk == old(disk) && seen == old(seen)
    {
      if * {
        return Err(Other);
      }
      SyncValid(disk, ino);
      disk := disk.Sync(ino);
      seen := seen + {disk};
      r := Ok(());
    }

    /** Renaming a file over a file, a link or nothing is atomic; a failed rename has no effect. */
    method Rename(source: Path, destination: Path) returns (r: Result<(), IoError>)
      requires Valid()
      modifies this`disk, this`seen
      ensures Valid()
      ensures r.Ok? ==>
        var (from, to) := (Split(source), Split(destination));
        && from.Ok? && to.Ok?
        && old(disk).Reach(from.value.0, follows).Ok? && old(disk).Reach(to.value.0, follows).Ok?
        && var source' := Key(old(disk).Reach(from.value.0, follows).value, from.value.1);
           var target' := Key(old(disk).Reach(to.value.0, follows).value, to.value.1);
           && source' in old(disk).entries && !old(disk).entries[source'].Dir?
           && (target' in old(disk).entries ==> !old(disk).entries[target'].Dir?)
           && disk == old(disk).Move(source', target') && seen == old(seen) + {disk}
      ensures r.Err? ==> disk == old(disk) && seen == old(seen)
    {
      var from, to := Split(source), Split(destination);
      if from.Err? || to.Err? {
        return Err(InvalidInput);
      }
      var left := OpenDirectory(from.value.0);
      var right := OpenDirectory(to.value.0);
      var refused: bool := *;
      if left.Err? || right.Err? || refused {
        return Err(Other);
      }
      var source', target' := Key(left.value, from.value.1), Key(right.value, to.value.1);
      if source' !in disk.entries {
        return Err(NotFound);
      }
      if disk.entries[source'].Dir? || (target' in disk.entries && disk.entries[target'].Dir?) {
        return Err(IsADirectory);
      }
      OpenNames(disk, [], disk.Real(from.value.0, follows), left.value);
      OpenNames(disk, [], disk.Real(to.value.0, follows), right.value);
      MoveValid(disk, source', target');
      disk := disk.Move(source', target');
      seen := seen + {disk};
      r := Ok(());
    }

    method SyncDirectory(path: Path) returns (r: Result<(), IoError>)
      requires Valid()
      modifies this`disk, this`seen
      ensures Valid()
      ensures r.Ok? ==>
        && old(disk).Reach(path, follows).Ok?
        && disk == old(disk).Settle(old(disk).Reach(path, follows).value) && seen == old(seen) + {disk}
      ensures r.Err? ==> disk == old(disk) && seen == old(seen)
    {
      var dir := OpenDirectory(path);
      if dir.Err? {
        return Err(dir.error);
      }
      SettleValid(disk, dir.value);
      disk := disk.Settle(dir.value);
      seen := seen + {disk};
      r := Ok(());
    }

    method RemoveFileAt(dir: DirId, name: string) returns (r: Result<(), IoError>)
      requires Valid() && disk.Issued(dir)
      modifies this`disk, this`seen
      ensures Valid()
      ensures r.Ok? ==>
        && Key(dir, name) in old(disk).entries && !old(disk).entries[Key(dir, name)].Dir?
        && disk == old(disk).Put(Key(dir, name), None) && seen == old(seen) + {disk}
      ensures r.Err? ==> disk == old(disk) && seen == old(seen)
      ensures r.Err? ==> r.error == Other || Key(dir, name) !in disk.entries || disk.entries[Key(dir, name)].Dir?
    {
      if Key(dir, name) !in disk.entries {
        return Err(NotFound);
      }
      if disk.entries[Key(dir, name)].Dir? {
        return Err(IsADirectory);
      }
      if * {
        return Err(Other);
      }
      PutValid(disk, Key(dir, name), None);
      disk := disk.Put(Key(dir, name), None);
      seen := seen + {disk};
      r := Ok(());
    }

    // ----- the default methods

    method CreateFile(path: Path) returns (r: Result<nat, IoError>)
      requires Valid()
      modifies this`disk, this`seen
      ensures Valid()
      ensures r.Ok? ==>
        && Split(path).Ok? && old(disk).Reach(Split(path).value.0, follows).Ok?
        && var k := Key(old(disk).Reach(Split(path).value.0, follows).value, Split(path).value.1);
           && k !in old(disk).entries && r.value == old(disk).next
           && disk == old(disk).Create(k) && seen == old(seen) + {disk}
      ensures r == Err(AlreadyExists) ==>
        && Split(path).Ok? && disk.Reach(Split(path).value.0, follows).Ok?
        && Key(disk.Reach(Split(path).value.0, follows).value, Split(path).value.1) in disk.entries
      ensures r.Err? ==> disk == old(disk) && seen == old(seen)
    {
      var at := Split(path);
      if at.Err? {
        return Err(at.error);
      }
      var dir := OpenDirectory(at.value.0);
      if dir.Err? {
        NotTaken(disk, [], disk.Real(at.value.0, follows));
        return Err(dir.error);
      }
      OpenNames(disk, [], disk.Real(at.value.0, follows), dir.value);
      r := CreateFileAt(dir.value, at.value.1);
    }

    method RemoveFile(path: Path) returns (r: Result<(), IoError>)
      requires Valid()
      modifies this`disk, this`seen
      ensures Valid()
      ensures r.Ok? ==>
        && Split(path).Ok? && old(disk).Reach(Split(path).value.0, follows).Ok?
        && var k := Key(old(disk).Reach(Split(path).value.0, follows).value, Split(path).value.1);
           && k in old(disk).entries && !old(disk).entries[k].Dir?
           && disk == old(disk).Put(k, None) && seen == old(seen) + {disk}
      ensures r.Err? ==> disk == old(disk) && seen == old(seen)
      ensures r.Err? ==>
        r.error == Other || r.error == InvalidInput || disk.Look([], path) == Absent || disk.Look([], path).Folder?
    {
      var at := Split(path);
      if at.Err? {
        return Err(at.error);
      }
      RemovedOrNot(disk, path, follows);
      var dir := OpenDirectory(at.value.0);
      if dir.Err? {
        return Err(dir.error);
      }
      OpenNames(disk, [], disk.Real(at.value.0, follows), dir.value);
      r := RemoveFileAt(dir.value, at.value.1);
    }

    /** On success the whole content, however the reads were cut up or interrupted. */
    method ReadAll(ino: nat) returns (r: Result<Bytes, IoError>)
      modifies this`interrupts
      ensures r.Ok? ==> r.value == disk.Content(ino)
    {
      var result: Bytes := [];
      while true
        invariant result <= disk.Content(ino)
        decreases |disk.Content(ino)| - |result| + interrupts
      {
        var chunk := ReadAt(ino, |result|);
        match chunk
        case Ok(bytes) =>
          if bytes == [] {
            return Ok(result);
          }
          result := result + bytes;
        case Err(Interrupted) =>
        case Err(e) => return Err(e);
      }
    }

    method Read(path: Path) returns (r: Result<Bytes, IoError>)
      modifies this`interrupts
      ensures r.Ok? ==>
        var landing := disk.Landing(path, follows);
        disk.Look([], landing).Holds? && r.value == disk.Look([], landing).bytes
    {
      var at := Split(path);
      if at.Err? {
        return Err(at.error);
      }
      var dir := OpenDirectory(at.value.0);
      if dir.Err? {
        return Err(dir.error);
      }
      var file := disk.Entry(Key(dir.value, at.value.1));
      match file
      case Some(File(ino)) =>
        ReadsEntry(disk, path, follows, dir.value, ino);
        r := ReadAll(ino);
      case Some(_) => r := Err(InvalidInput);
      case None => r := Err(NotFound);
    }

    /** One turn of `WriteAll`: offer the bytes from `offset` on, and move past those that were taken. */
    method WriteRest(ino: nat, bytes: Bytes, offset: nat, ghost first: Bytes)
      returns (r: Result<(), IoError>, next: nat)
      requires offset < |bytes| && Spliced(first, disk.Content(ino), 0, bytes[..offset])
      modifies this
      ensures || (disk == old(disk) && seen == old(seen))
              || (Rewritten(old(disk), disk, ino) && seen == old(seen) + {disk})
      ensures r.Ok? ==>
        && offset <= next <= |bytes| && Spliced(first, disk.Content(ino), 0, bytes[..next])
        && interrupts - next < old(interrupts) - offset
    {
      ghost var content := disk.Content(ino);
      next := offset;
      var sent := WriteAt(ino, offset, bytes[offset..]);
      match sent
      case Ok(count) =>
        if count == 0 {
          return Err(WriteZero), next;
        }
        SpliceNext(first, bytes, offset, count, content, disk.Content(ino));
        r, next := Ok(()), offset + count;
      case Err(Interrupted) =>
        r := Ok(());
      case Err(e) =>
        r := Err(e);
    }

    /** On success the file starts with `bytes`; whatever happens, no other file and no entry changes. */
    method WriteAll(ino: nat, bytes: Bytes) returns (r: Result<(), IoError>)
      requires Valid() && ino < disk.next
      modifies this
      ensures Valid() && (disk == old(disk) || Rewritten(old(disk), disk, ino))
      ensures r.Ok? ==> Spliced(old(disk).Content(ino), disk.Content(ino), 0, bytes)
      ensures old(seen) <= seen && forall d | d in seen - old(seen) :: Rewritten(old(disk), d, ino)
    {
      var offset: nat := 0;
      ghost var first := disk.Content(ino);
      r := Ok(());
      while r.Ok? && offset < |bytes|
        invariant disk in seen && (disk == old(disk) || Rewritten(old(disk), disk, ino))
        invariant r.Ok? ==> offset <= |bytes| && Spliced(first, disk.Content(ino), 0, bytes[..offset])
        invariant old(seen) <= seen && forall d | d in seen - old(seen) :: Rewritten(old(disk), d, ino)
        decreases r.Ok?, |bytes| - offset + interrupts
      {
        ghost var before := disk;
        r, offset := WriteRest(ino, bytes, offset, first);
        StoreTwice(old(disk), before, disk, ino);
      }
      assert offset == |bytes| ==> bytes[..offset] == bytes;
      StoreValid(old(disk), ino, disk.Content(ino));
    }

    /** On success `path` is a directory and exactly the directories missing on the way to it were added. */
    method CreateDirectories(path: Path) returns (r: Result<(), IoError>)
      requires Valid()
      modifies this`disk, this`seen
      ensures Valid() && old(seen) <= seen
      ensures r.Ok? ==> disk.Reach(path, follows).Ok?
      ensures Made(old(disk), disk, path)
      ensures old(disk).Reach(path, follows).Ok? || old(disk).Look([], path).Symlink? ==>
        disk == old(disk) && seen == old(seen)
      ensures forall d | d in seen - old(seen) :: ConfinedBelow(old(disk), d, path)
      decreases |path|
    {
      var found := OpenDirectory(path);
      r := if found.Ok? then Ok(()) else Err(found.error);
      if found == Err(NotFound) {
        r := if Split(path).Ok? then Ok(()) else Err(InvalidInput);
        if r.Ok? {
          var (parent, name) := Split(path).value;
          PlainParent(disk, path, follows);
          LinkParentOpens(disk, path, follows);
          assert path == parent + [name];
          r := CreateDirectories(parent);
          forall d | d in seen - old(seen) ensures ConfinedBelow(old(disk), d, path) {
            ConfinedDeeper(old(disk), d, parent, path);
          }
          ghost var before := disk;
          MadeDeeper(old(disk), disk, parent, path);
          if r.Ok? {
            r := CreateDirectoryBelow(parent, name);
            MadeChain(old(disk), before, disk, path);
          }
        }
      }
    }

    /** The last step of `CreateDirectories`: the directory itself, once its parent is there. */
    method CreateDirectoryBelow(parent: Path, name: string) returns (r: Result<(), IoError>)
      requires Valid() && !disk.Look([], parent).Symlink?
      modifies this`disk, this`seen
      ensures Valid()
      ensures r.Ok? ==> disk.Reach(parent + [name], follows).Ok?
      ensures Made(old(disk), disk, parent + [name]) && seen == old(seen) + {disk}
      ensures old(disk).Look([], parent + [name]) != Absent ==> disk == old(disk)
    {
      RealOfPlain(disk, parent, follows);
      var dir := OpenDirectory(parent);
      if dir.Err? {
        return Err(dir.error);
      }
      OpenNames(disk, [], parent, dir.value);
      LookLast(disk, [], parent, name);
      r := CreateDirectoryAt(dir.value, name);
      if r.Ok? {
        MkdirGrows(old(disk), parent, Key(dir.value, name));
        OpenIsReach(disk, parent + [name], follows);
        MkdirConfines(old(disk), Key(dir.value, name));
        assert PathOfKey(Key(dir.value, name)) == parent + [name];
      } else if r.error == AlreadyExists {
        var again := OpenDirectory(parent + [name]);
        r := if again.Ok? then Ok(()) else Err(again.error);
      }
    }
  }

  // ----- steps of the proofs

  lemma CreateValid(d: Disk, k: Key)
    requires d.Valid() && d.Issued(k.dir) && k !in d.entries
    ensures d.Create(k).Valid()
  {
    IssueValid(d);
    var more := d.(next := d.next + 1, data := d.data[d.next := []]);
    SameNames(d.(next := d.next + 1), more);
    PutValid(more, k, Some(File(d.next)));
    assert d.Create(k) == more.Put(k, Some(File(d.next)));
  }

  /** Contents do not matter to a disk's validity. */
  lemma SameNames(d: Disk, d': Disk)
    requires d.Valid() && d'.entries == d.entries && d'.pending == d.pending && d'.next == d.next
    requires forall i | i in d'.synced :: i < d'.next
    ensures d'.Valid()
  {
    forall k, e | Some(e) in d'.Choices(k) ensures d'.Fits(k, e) {
      assert Some(e) in d.Choices(k);
    }
  }

  lemma StoreValid(d: Disk, ino: nat, bytes: Bytes)
    requires d.Valid()
    ensures d.Store(ino, bytes).Valid()
  {
    SameNames(d, d.Store(ino, bytes));
  }

  lemma StoreTwice(a: Disk, b: Disk, c: Disk, ino: nat)
    requires b == a || Rewritten(a, b, ino)
    ensures c == b || Rewritten(b, c, ino) ==> c == a || Rewritten(a, c, ino)
  {
    var bytes := c.Content(ino);
    assert a.data[ino := b.Content(ino)][ino := bytes] == a.data[ino := bytes];
    assert a.synced - {ino} - {ino} == a.synced - {ino};
  }

  lemma SyncValid(d: Disk, ino: nat)
    requires d.Valid() && ino < d.next
    ensures d.Sync(ino).Valid()
  {
    SameNames(d, d.Sync(ino));
  }

  lemma MoveValid(d: Disk, from: Key, to: Key)
    requires d.Valid() && d.Issued(from.dir) && d.Issued(to.dir) && from in d.entries && !d.entries[from].Dir?
    ensures d.Move(from, to).Valid()
  {
    assert Some(d.entries[from]) in d.Choices(from);
    assert d.Fits(from, d.entries[from]);
    PutValid(d, from, None);
    assert d.Put(from, None).Fits(to, d.entries[from]);
    PutValid(d.Put(from, None), to, Some(d.entries[from]));
  }

  lemma SettleValid(d: Disk, id: DirId)
    requires d.Valid()
    ensures d.Settle(id).Valid()
    ensures forall k :: d.Settle(id).Choices(k) <= d.Choices(k)
  {
    var now := d.Settle(id);
    forall k, e | Some(e) in now.Choices(k) ensures now.Fits(k, e) {
      assert Some(e) in d.Choices(k);
    }
  }

  lemma ReadsEntry(d: Disk, path: Path, follows: bool, dir: DirId, ino: nat)
    requires Split(path).Ok? && d.Reach(Split(path).value.0, follows) == Ok(dir)
    requires d.Entry(Key(dir, Split(path).value.1)) == Some(File(ino))
    ensures d.Look([], d.Landing(path, follows)) == Holds(ino, d.Content(ino))
  {
    LookLast(d, [], d.Real(Split(path).value.0, follows), Split(path).value.1);
  }

  /** An entry that cannot be removed as a file, seen from its path. */
  lemma RemovedOrNot(d: Disk, path: Path, follows: bool)
    requires Split(path).Ok?
    ensures var (parent, name) := Split(path).value;
      && (d.Reach(parent, follows).Err? ==> d.Look([], path) == Absent)
      && (d.Reach(parent, follows).Ok? ==>
            var k := Key(d.Reach(parent, follows).value, name);
            k !in d.entries || d.entries[k].Dir? ==> d.Look([], path) == Absent || d.Look([], path).Folder?)
  {
    var (parent, name) := Split(path).value;
    LookLast(d, [], parent, name);
    assert path == parent + [name];
    if d.Open([], parent).Ok? {
      OpenIsLook(d, [], parent, d.Open([], parent).value);
      RealOfPlain(d, parent, follows);
    }
  }

  lemma OpenIsReach(d: Disk, path: Path, follows: bool)
    requires d.Open([], path).Ok?
    ensures d.Reach(path, follows) == d.Open([], path)
  {
    OpenIsLook(d, [], path, d.Open([], path).value);
    RealOfPlain(d, path, follows);
  }

  /** The directory that lists a link is there. */
  lemma LinkParentOpens(d: Disk, path: Path, follows: bool)
    requires path != []
    ensures d.Look([], path).Symlink? ==> d.Reach(path[..|path| - 1], follows).Ok?
  {
    var parent, name := path[..|path| - 1], path[|path| - 1];
    assert path == parent + [name];
    LookLast(d, [], parent, name);
    if d.Open([], parent).Ok? {
      OpenIsReach(d, parent, follows);
    }
  }

  /** The parent of a directory that is not found is no link. */
  lemma PlainParent(d: Disk, path: Path, follows: bool)
    requires path != [] && d.Reach(path, follows) == Err(NotFound)
    ensures !d.Look([], path[..|path| - 1]).Symlink?
  {
    var parent, name := path[..|path| - 1], path[|path| - 1];
    assert path == parent + [name];
    if d.Look([], path).Symlink? {
      LookLast(d, [], parent, name);
      OpenIsLook(d, [], parent, d.Open([], parent).value);
    } else {
      RealOfPlain(d, path, follows);
      NotFoundParent(d, [], path);
    }
  }

  /** Opening a directory never answers that it exists already. */
  lemma {:induction false} NotTaken(d: Disk, at: DirId, p: Path)
    ensures d.Open(at, p) != Err(AlreadyExists)
    decreases |p|
  {
    if p != [] && Key(at, p[0]) in d.entries && d.entries[Key(at, p[0])].Dir? {
      NotTaken(d, d.entries[Key(at, p[0])].id, p[1..]);
    }
  }

  /** Writing the next bytes of `bytes` after its first `offset` ones. */
  lemma SpliceNext(first: Bytes, bytes: Bytes, offset: nat, count: nat, content: Bytes, now: Bytes)
    requires offset + count <= |bytes|
    requires Spliced(first, content, 0, bytes[..offset])
    requires Spliced(content, now, offset, bytes[offset..][..count])
    ensures Spliced(first, now, 0, bytes[..offset + count])
  {
  }
}
