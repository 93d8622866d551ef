/** `files` of the build script: the inputs below a path, in whatever order directories list them. */
module SourceFiles {
  import opened Wrappers
  import opened Digest

  /** A file name, in the bytes of its text. */
  type Name = Bytes
  type Path = seq<Name>

  const SLASH: byte := 47
  const BACKSLASH: byte := 92

  function Ascii(s: string): (name: Name)
    requires forall i | 0 <= i < |s| :: s[i] < 128 as char
  {
    seq(|s|, i requires 0 <= i < |s| => s[i] as byte)
  }

  const EXCLUDED: set<Name> :=
    {Ascii("target"), Ascii(".git"), Ascii("__pycache__"), Ascii(".venv"), Ascii(".regen-venv")}

  /** The seven places of `source_digest`. */
  const PLACES: seq<Path> :=
    [[Ascii("Cargo.toml")], [Ascii("Cargo.lock")], [Ascii("build.rs")], [Ascii("src")], [Ascii("crates")],
     [Ascii("build_support")], [Ascii("protocol"), Ascii("gwz.taut.py")]]

  /** What a path shows; a link has its text and, if it leads to a directory, that directory's entries. */
  datatype Node =
    | Dir(children: map<Name, Node>)
    | File(bytes: Bytes)
    | Link(target: Bytes, leads: Option<map<Name, Node>>)
    | Other

  /** The entries below a node, through a link as the operating system goes. */
  function Entries(node: Node): (entries: map<Name, Node>) {
    match node
    case Dir(children) => children
    case Link(_, Some(children)) => children
    case _ => map[]
  }

  /** The node at a path: a link on the way is followed, one at the end is not. */
  function Find(node: Node, path: Path): (found: Option<Node>)
    decreases |path|
  {
    if path == [] then Some(node)
    else if path[0] in Entries(node) then Find(Entries(node)[path[0]], path[1..])
    else None
  }

  /** A file or a link below `node`, past no excluded directory entry. */
  predicate IsInput(node: Node, path: Path) {
    match node
    case File(_) => path == []
    case Link(_, _) => path == []
    case Other => false
    case Dir(children) =>
      path != [] && path[0] in children && path[0] !in EXCLUDED && IsInput(children[path[0]], path[1..])
  }

  // ----- the order directories are read in

  /** A listing of the inputs below a node, each directory read in some order of its entries. */
  ghost predicate Walks(node: Node, relative: Path, found: seq<Path>)
    decreases node, 1, 0
  {
    match node
    case File(_) => found == [relative]
    case Link(_, _) => found == [relative]
    case Other => found == []
    case Dir(children) => WalksEntries(node, relative, children.Keys, found)
  }

  /** What is below the entries named, in some order: one of them last, the others before it. */
  ghost predicate WalksEntries(node: Node, relative: Path, names: set<Name>, found: seq<Path>)
    requires node.Dir? && names <= node.children.Keys
    decreases node, 0, |names|
  {
    if names == {} then found == []
    else
      exists name, i: nat :: && name in names && i <= |found|
                             && WalksEntry(node, relative, name, found[i..])
                             && WalksEntries(node, relative, names - {name}, found[..i])
  }

  ghost predicate WalksEntry(node: Node, relative: Path, name: Name, found: seq<Path>)
    requires node.Dir? && name in node.children
    decreases node, 0, 0
  {
    if name in EXCLUDED then found == [] else Walks(node.children[name], relative + [name], found)
  }

  lemma EntryAdded(node: Node, relative: Path, names: set<Name>, name: Name, found: seq<Path>, more: seq<Path>)
    requires node.Dir? && names <= node.children.Keys && name in node.children && name !in names
    requires WalksEntries(node, relative, names, found) && WalksEntry(node, relative, name, more)
    ensures WalksEntries(node, relative, names + {name}, found + more)
  {
    var all, i := found + more, |found|;
    assert all[i..] == more && all[..i] == found && names + {name} - {name} == names;
  }

  /** Some walk goes on from any start. */
  lemma Completes(node: Node, relative: Path, names: set<Name>, found: seq<Path>) returns (all: seq<Path>)
    requires node.Dir? && names <= node.children.Keys && WalksEntries(node, relative, names, found)
    ensures found <= all && WalksEntries(node, relative, node.children.Keys, all)
    decreases node, 0, |node.children.Keys - names|
  {
    if name :| name in node.children && name !in names {
      var more: seq<Path> := [];
      if name !in EXCLUDED {
        more := SomeWalk(node.children[name], relative + [name]);
      }
      EntryAdded(node, relative, names, name, found, more);
      assert node.children.Keys - (names + {name}) == node.children.Keys - names - {name};
      all := Completes(node, relative, names + {name}, found + more);
    } else {
      all := found;
      assert names == node.children.Keys;
    }
  }

  lemma SomeWalk(node: Node, relative: Path) returns (found: seq<Path>)
    ensures Walks(node, relative, found)
    decreases node, 1, 0
  {
    match node
    case File(_) => found := [relative];
    case Link(_, _) => found := [relative];
    case Other => found := [];
    case Dir(_) => found := Completes(node, relative, {}, []);
  }

  /** Any input may be the first one listed. */
  lemma FirstWalk(node: Node, relative: Path, p: Path) returns (found: seq<Path>)
    requires IsInput(node, p)
    ensures Walks(node, relative, found) && found != [] && found[0] == relative + p
    decreases node
  {
    match node
    case File(_) => found := [relative];
    case Link(_, _) => found := [relative];
    case Dir(children) =>
      var first := FirstWalk(children[p[0]], relative + [p[0]], p[1..]);
      EntryAdded(node, relative, {}, p[0], [], first);
      assert {} + {p[0]} == {p[0]} && [] + first == first;
      found := Completes(node, relative, {p[0]}, first);
      assert relative + [p[0]] + p[1..] == relative + p;
  }

  // ----- each input once

  ghost predicate Distinct(paths: seq<Path>) {
    forall i, j | 0 <= i < j < |paths| :: paths[i] != paths[j]
  }

  /** `found` lists each input below a node once. */
  ghost predicate Lists(node: Node, relative: Path, found: seq<Path>) {
    && Distinct(found)
    && forall p :: p in found <==> relative <= p && IsInput(node, p[|relative|..])
  }

  predicate Below(node: Node, relative: Path, p: Path) {
    relative <= p && |p| > |relative| && IsInput(node, p[|relative|..])
  }

  /** `found` lists each input below the entries named, once. */
  ghost predicate ListsBelow(node: Node, relative: Path, names: set<Name>, found: seq<Path>) {
    Distinct(found) && forall p :: p in found <==> Below(node, relative, p) && p[|relative|] in names
  }

  /** An input below the entry `name` of a directory is an input below that entry's node. */
  lemma BelowEntry(node: Node, relative: Path, name: Name, p: Path)
    requires node.Dir? && name in node.children && name !in EXCLUDED
    ensures relative + [name] <= p && IsInput(node.children[name], p[|relative + [name]|..]) <==>
      Below(node, relative, p) && p[|relative|] == name
  {
    if relative <= p && |p| > |relative| && p[|relative|] == name {
      assert p == relative + p[|relative|..] && p[|relative|..][1..] == p[|relative + [name]|..];
      assert p[..|relative| + 1] == relative + [name];
    }
  }

  lemma EntryListed(node: Node, relative: Path, name: Name, more: seq<Path>)
    requires node.Dir? && name in node.children
    requires if name in EXCLUDED then more == [] else Lists(node.children[name], relative + [name], more)
    ensures ListsBelow(node, relative, {name}, more)
  {
    forall p ensures p in more <==> Below(node, relative, p) && p[|relative|] in {name} {
      if name !in EXCLUDED {
        BelowEntry(node, relative, name, p);
      }
    }
  }

  lemma Listed(node: Node, relative: Path, names: set<Name>, name: Name, before: seq<Path>, more: seq<Path>)
    requires name !in names && ListsBelow(node, relative, names, before) && ListsBelow(node, relative, {name}, more)
    ensures ListsBelow(node, relative, names + {name}, before + more)
  {
    DistinctTogether(before, more);
  }

  lemma LeafListed(node: Node, relative: Path)
    requires node.File? || node.Link?
    ensures Lists(node, relative, [relative])
  {
    forall p | relative <= p && p[|relative|..] == [] ensures p == relative {
      assert p == relative + p[|relative|..];
    }
  }

  lemma {:induction false} AllListed(node: Node, relative: Path, found: seq<Path>)
    requires node.Dir? && ListsBelow(node, relative, node.children.Keys, found)
    ensures Lists(node, relative, found)
  {
    forall p | relative <= p && IsInput(node, p[|relative|..]) ensures p in found {
      assert p[|relative|..][0] == p[|relative|];
    }
  }

  lemma {:induction false} WalkLists(node: Node, relative: Path, found: seq<Path>)
    requires Walks(node, relative, found)
    ensures Lists(node, relative, found)
    decreases node, 1, 0
  {
    match node
    case File(_) => LeafListed(node, relative);
    case Link(_, _) => LeafListed(node, relative);
    case Other =>
    case Dir(children) =>
      EntriesList(node, relative, children.Keys, found);
      AllListed(node, relative, found);
  }

  lemma {:induction false} EntriesList(node: Node, relative: Path, names: set<Name>, found: seq<Path>)
    requires node.Dir? && names <= node.children.Keys && WalksEntries(node, relative, names, found)
    ensures ListsBelow(node, relative, names, found)
    decreases node, 0, |names|
  {
    if names != {} {
      var name, i: nat :| name in names && i <= |found|
        && WalksEntry(node, relative, name, found[i..]) && WalksEntries(node, relative, names - {name}, found[..i]);
      if name !in EXCLUDED {
        WalkLists(node.children[name], relative + [name], found[i..]);
      }
      EntryListed(node, relative, name, found[i..]);
      EntriesList(node, relative, names - {name}, found[..i]);
      Listed(node, relative, names - {name}, name, found[..i], found[i..]);
      assert found[..i] + found[i..] == found && names - {name} + {name} == names;
    }
  }

  method Files(node: Node, relative: Path) returns (found: seq<Path>)
    ensures Walks(node, relative, found) && Lists(node, relative, found)
    decreases node
  {
    match node {
    case File(_) =>
      found := [relative];
    case Link(_, _) =>
      found := [relative];
    case Other =>
      found := [];
    case Dir(children) =>
      found := [];
      var left := children.Keys;
      while left != {}
        invariant left <= children.Keys
        invariant WalksEntries(node, relative, children.Keys - left, found)
        decreases left
      {
        var name :| name in left;
        var more: seq<Path> := [];
        if name !in EXCLUDED {
          more := Files(children[name], relative + [name]);
        }
        EntryAdded(node, relative, children.Keys - left, name, found, more);
        assert children.Keys - left + {name} == children.Keys - (left - {name});
        left := left - {name};
        found := found + more;
      }
      assert children.Keys - left == children.Keys;
    }
    WalkLists(node, relative, found);
  }

  // ----- the inputs of a tree

  predicate FromPlace(root: Node, place: Path, p: Path) {
    place <= p && Find(root, place).Some? && IsInput(Find(root, place).value, p[|place|..])
  }

  ghost predicate FromPlaces(root: Node, places: seq<Path>, p: Path) {
    exists i :: 0 <= i < |places| && FromPlace(root, places[i], p)
  }

  ghost predicate WalksPlace(root: Node, place: Path, found: seq<Path>) {
    match Find(root, place)
    case Some(node) => Walks(node, place, found)
    case None => found == []
  }

  /** A listing of the inputs below the places, one place after the other. */
  ghost predicate WalksTree(root: Node, places: seq<Path>, found: seq<Path>) {
    if places == [] then found == []
    else
      exists i: nat :: && i <= |found| && WalksPlace(root, places[|places| - 1], found[i..])
                       && WalksTree(root, places[..|places| - 1], found[..i])
  }

  lemma PlaceAdded(root: Node, places: seq<Path>, n: nat, found: seq<Path>, more: seq<Path>)
    requires n < |places| && WalksTree(root, places[..n], found) && WalksPlace(root, places[n], more)
    ensures WalksTree(root, places[..n + 1], found + more)
  {
    var all, i := found + more, |found|;
    assert all[i..] == more && all[..i] == found && places[..n + 1][..n] == places[..n];
  }

  lemma SomePlace(root: Node, place: Path) returns (found: seq<Path>)
    ensures WalksPlace(root, place, found)
  {
    found := [];
    if Find(root, place).Some? {
      found := SomeWalk(Find(root, place).value, place);
    }
  }

  lemma {:induction false} TreeCompletes(root: Node, places: seq<Path>, n: nat, found: seq<Path>)
    returns (all: seq<Path>)
    requires n <= |places| && WalksTree(root, places[..n], found)
    ensures found <= all && WalksTree(root, places, all)
    decreases |places| - n
  {
    if n == |places| {
      all := found;
      assert places[..n] == places;
    } else {
      var more := SomePlace(root, places[n]);
      PlaceAdded(root, places, n, found, more);
      all := TreeCompletes(root, places, n + 1, found + more);
    }
  }

  lemma {:induction false} SomeTree(root: Node, places: seq<Path>) returns (found: seq<Path>)
    ensures WalksTree(root, places, found)
  {
    assert places[..0] == [];
    found := TreeCompletes(root, places, 0, []);
  }

  /** Any input of a place may be the first one listed there. */
  lemma FirstInPlace(root: Node, places: seq<Path>, i: nat, p: Path) returns (found: seq<Path>, k: nat)
    requires i < |places| && FromPlace(root, places[i], p)
    ensures WalksTree(root, places, found) && k < |found| && found[k] == p && WalksTree(root, places[..i], found[..k])
  {
    var before := SomeTree(root, places[..i]);
    var first := FirstWalk(Find(root, places[i]).value, places[i], p[|places[i]|..]);
    PlaceAdded(root, places, i, before, first);
    found := TreeCompletes(root, places, i + 1, before + first);
    k := |before|;
    assert found[k] == (before + first)[k] && found[..k] == before;
    assert p == places[i] + p[|places[i]|..];
  }

  /** Each input of one place, once. */
  ghost predicate ListsPlace(root: Node, place: Path, found: seq<Path>) {
    Distinct(found) && forall p :: p in found <==> FromPlace(root, place, p)
  }

  lemma PlaceLists(root: Node, place: Path, found: seq<Path>)
    requires WalksPlace(root, place, found)
    ensures ListsPlace(root, place, found)
  {
    if Find(root, place).Some? {
      WalkLists(Find(root, place).value, place, found);
    }
  }

  /** Each input of the tree, once. */
  ghost predicate ListsTree(root: Node, places: seq<Path>, found: seq<Path>) {
    Distinct(found) && forall p :: p in found <==> FromPlaces(root, places, p)
  }

  /** The places lie in different entries of the root. */
  ghost predicate Spread(places: seq<Path>) {
    && (forall i | 0 <= i < |places| :: places[i] != [])
    && forall i, j | 0 <= i < j < |places| :: places[i][0] != places[j][0]
  }

  lemma PlaceListed(root: Node, places: seq<Path>, i: nat, before: seq<Path>, more: seq<Path>)
    requires Spread(places) && i < |places| && ListsTree(root, places[..i], before)
    requires ListsPlace(root, places[i], more)
    ensures ListsTree(root, places[..i + 1], before + more)
  {
    forall p ensures p in before + more <==> FromPlaces(root, places[..i + 1], p) {
      if p in before {
        var j :| 0 <= j < i && FromPlace(root, places[..i][j], p);
        assert places[..i + 1][j] == places[j];
      }
      if p in more {
        assert places[..i + 1][i] == places[i];
      }
      if FromPlaces(root, places[..i + 1], p) {
        var j :| 0 <= j <= i && FromPlace(root, places[..i + 1][j], p);
        assert j < i ==> places[..i][j] == places[j];
      }
    }
    forall p | p in more ensures p !in before {
      assert p[0] == places[i][0];
    }
    DistinctTogether(before, more);
  }

  lemma DistinctTogether(a: seq<Path>, b: seq<Path>)
    requires Distinct(a) && Distinct(b) && forall p | p in b :: p !in a
    ensures Distinct(a + b)
  {
    forall i, j | 0 <= i < j < |a + b| ensures (a + b)[i] != (a + b)[j] {
      if i < |a| <= j {
        assert (a + b)[j] in b && (a + b)[i] in a;
      }
    }
  }

  lemma {:induction false} TreeLists(root: Node, places: seq<Path>, found: seq<Path>)
    requires Spread(places) && WalksTree(root, places, found)
    ensures ListsTree(root, places, found)
  {
    if places != [] {
      var n := |places| - 1;
      var i: nat :| i <= |found| && WalksPlace(root, places[n], found[i..]) && WalksTree(root, places[..n], found[..i]);
      TreeLists(root, places[..n], found[..i]);
      PlaceLists(root, places[n], found[i..]);
      PlaceListed(root, places, n, found[..i], found[i..]);
      assert places[..n + 1] == places && found[..i] + found[i..] == found;
    }
  }

  method Gather(root: Node, places: seq<Path>) returns (found: seq<Path>)
    requires Spread(places)
    ensures WalksTree(root, places, found) && ListsTree(root, places, found)
  {
    found := [];
    for i := 0 to |places|
      invariant WalksTree(root, places[..i], found)
    {
      var node := Find(root, places[i]);
      var more: seq<Path> := [];
      if node.Some? {
        more := Files(node.value, places[i]);
      }
      PlaceAdded(root, places, i, found, more);
      found := found + more;
    }
    assert places[..|places|] == places;
    TreeLists(root, places, found);
  }

  lemma PlacesSpread()
    ensures Spread(PLACES)
  {
    assert Ascii("Cargo.toml")[6] != Ascii("Cargo.lock")[6] && Ascii("build.rs")[0] != Ascii("protocol")[0];
  }

  method Collect(root: Node) returns (found: seq<Path>)
    ensures WalksTree(root, PLACES, found) && ListsTree(root, PLACES, found)
  {
    PlacesSpread();
    found := Gather(root, PLACES);
  }
}
