/** `scan` of `check_cfg_boundaries.py`: the occurrences in the files that the listed roots reach. */
module SourceScan {
  import opened Roots
  import opened Allowlists

  datatype Occurrence = Occurrence(attrs: string, item: string)

  /** A file: the occurrences `analyze` finds in it, or text that cannot be read. */
  datatype Content = Readable(occurrences: seq<Occurrence>) | Unreadable

  /** A checkout: its files, and its directories, of which some may hold no file. */
  datatype Tree = Tree(files: map<Path, Content>, dirs: set<Path>)

  /** The checkouts that are there, by repository name. */
  type Trees = map<string, Tree>

  // ----- what there is to find

  function In(tree: Tree, k: Key): (n: nat) {
    if k.path in tree.files && tree.files[k.path].Readable?
    then multiset(tree.files[k.path].occurrences)[Occurrence(k.attrs, k.item)] else 0
  }

  /** Every occurrence in a checkout, scanned or not. */
  function Present(trees: Trees, k: Key): (n: nat) {
    if k.repo in trees then In(trees[k.repo], k) else 0
  }

  predicate Exists(tree: Tree, root: Path) {
    root == [] || root in tree.dirs || exists f | f in tree.files :: root <= f
  }

  /** The repository's checkout and all its roots are there. */
  predicate Scannable(list: Allowlist, trees: Trees, name: string)
    requires name in list.repos
  {
    name in trees && forall root | root in list.repos[name].roots :: Exists(trees[name], root)
  }

  function Scanned(list: Allowlist, trees: Trees, skip: set<string>): (names: set<string>) {
    set name | name in list.repos && name !in skip && Scannable(list, trees, name)
  }

  /** The occurrences a scan finds: those in files that some root of a scanned repository reaches. */
  function Found(list: Allowlist, trees: Trees, skip: set<string>, k: Key): (n: nat) {
    if k.repo in Scanned(list, trees, skip) && ScansAny(trees[k.repo].files.Keys, list.repos[k.repo].roots, k.path)
    then In(trees[k.repo], k) else 0
  }

  ghost predicate IsScan(list: Allowlist, trees: Trees, skip: set<string>, found: seq<Key>) {
    forall k :: multiset(found)[k] == Found(list, trees, skip, k)
  }

  predicate AllReadable(tree: Tree, roots: seq<Path>) {
    forall f | f in tree.files && ScansAny(tree.files.Keys, roots, f) :: tree.files[f].Readable?
  }

  predicate AnyFile(tree: Tree, roots: seq<Path>) {
    exists f | f in tree.files :: ScansAny(tree.files.Keys, roots, f)
  }

  /** No checkout or root is missing, no file is unreadable, and some file was scanned. */
  predicate Clean(list: Allowlist, trees: Trees, skip: set<string>) {
    && Scanned(list, trees, skip) == list.repos.Keys - skip
    && (forall name | name in Scanned(list, trees, skip) :: AllReadable(trees[name], list.repos[name].roots))
    && exists name | name in Scanned(list, trees, skip) :: AnyFile(trees[name], list.repos[name].roots)
  }

  // ----- the scan

  function KeysOf(name: string, f: Path, occurrences: seq<Occurrence>): (keys: seq<Key>) {
    if occurrences == [] then []
    else [Key(name, f, occurrences[0].attrs, occurrences[0].item)] + KeysOf(name, f, occurrences[1..])
  }

  lemma {:induction false} KeysCount(name: string, f: Path, occurrences: seq<Occurrence>, k: Key)
    ensures multiset(KeysOf(name, f, occurrences))[k] ==
      if k.repo == name && k.path == f then multiset(occurrences)[Occurrence(k.attrs, k.item)] else 0
  {
    if occurrences != [] {
      KeysCount(name, f, occurrences[1..], k);
      assert occurrences == [occurrences[0]] + occurrences[1..];
    }
  }

  method ScanFiles(name: string, tree: Tree, files: set<Path>) returns (found: seq<Key>, readable: bool)
    requires files <= tree.files.Keys
    ensures forall k :: multiset(found)[k] == if k.repo == name && k.path in files then In(tree, k) else 0
    ensures readable <==> forall f | f in files :: tree.files[f].Readable?
  {
    found, readable := [], true;
    var left := files;
    while left != {}
      invariant left <= files
      invariant forall k :: multiset(found)[k] == if k.repo == name && k.path in files - left then In(tree, k) else 0
      invariant readable <==> forall f | f in files - left :: tree.files[f].Readable?
      decreases left
    {
      var f :| f in left;
      left := left - {f};
      match tree.files[f]
      case Unreadable =>
        readable := false;
      case Readable(occurrences) =>
        forall k ensures multiset(KeysOf(name, f, occurrences))[k] ==
          if k.repo == name && k.path == f then In(tree, k) else 0
        {
          KeysCount(name, f, occurrences, k);
        }
        found := found + KeysOf(name, f, occurrences);
    }
  }

  lemma SomeFile(tree: Tree, roots: seq<Path>, files: set<Path>)
    requires files == set f | f in tree.files.Keys && ScansAny(tree.files.Keys, roots, f)
    ensures files != {} <==> AnyFile(tree, roots)
  {
    if AnyFile(tree, roots) {
      var f :| f in tree.files && ScansAny(tree.files.Keys, roots, f);
      assert f in files;
    }
  }

  method Scan(list: Allowlist, trees: Trees, skip: set<string>)
    returns (found: seq<Key>, scanned: set<string>, clean: bool)
    ensures IsScan(list, trees, skip, found) && scanned == Scanned(list, trees, skip)
    ensures clean <==> Clean(list, trees, skip)
  {
    found, scanned := [], {};
    var readable, missing, any := true, false, false;
    var left := list.repos.Keys - skip;
    while left != {}
      invariant left <= list.repos.Keys - skip && scanned == Scanned(list, trees, skip) - left
      invariant forall k :: multiset(found)[k] == if k.repo in scanned then Found(list, trees, skip, k) else 0
      invariant missing <==> exists name :: name in list.repos.Keys - skip - left && name !in scanned
      invariant readable <==> forall name | name in scanned :: AllReadable(trees[name], list.repos[name].roots)
      invariant any <==> exists name :: name in scanned && AnyFile(trees[name], list.repos[name].roots)
      decreases left
    {
      var name :| name in left;
      left := left - {name};
      if !Scannable(list, trees, name) {
        missing := true;
        continue;
      }
      scanned := scanned + {name};
      var tree, roots := trees[name], list.repos[name].roots;
      var files := RustFiles(tree.files.Keys, roots);
      var more, ok := ScanFiles(name, tree, files);
      found := found + more;
      readable := readable && ok;
      any := any || files != {};
      SomeFile(tree, roots, files);
    }
    clean := readable && !missing && any;
  }
}
