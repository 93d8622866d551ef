/** The number of occurrences in the sources, scanned or not: when passing commits bound it, and when they do not. */
module RealDebt {
  import opened Roots
  import opened Allowlists
  import opened SourceScan
  import opened Ratchet

  predicate Reached(c: Commit, name: string, f: Path) {
    name in Scanned(c.list, c.trees, {}) && ScansAny(c.trees[name].files.Keys, c.list.repos[name].roots, f)
  }

  /** Every occurrence of the group in the sources lies in a file that is scanned. */
  ghost predicate AllScanned(c: Commit, g: Group) {
    forall k: Key | k.Target() == g && Present(c.trees, k) > 0 :: Reached(c, k.repo, k.path)
  }

  ghost predicate IsPresent(trees: Trees, keys: seq<Key>) {
    forall k :: multiset(keys)[k] == Present(trees, k)
  }

  /** The part of the present keys that a scan finds. */
  lemma ScanOf(c: Commit, present: seq<Key>) returns (found: seq<Key>)
    requires IsPresent(c.trees, present)
    ensures IsScan(c.list, c.trees, {}, found)
  {
    found := Kept(c, present);
    forall k ensures multiset(found)[k] == Found(c.list, c.trees, {}, k) {
      KeptCounts(c, present, k);
    }
  }

  function Kept(c: Commit, keys: seq<Key>): (kept: seq<Key>) {
    if keys == [] then [] else (if Reached(c, keys[0].repo, keys[0].path) then [keys[0]] else []) + Kept(c, keys[1..])
  }

  lemma {:induction false} KeptCounts(c: Commit, keys: seq<Key>, k: Key)
    ensures multiset(Kept(c, keys))[k] == if Reached(c, k.repo, k.path) then multiset(keys)[k] else 0
  {
    if keys != [] {
      KeptCounts(c, keys[1..], k);
      CountFirst(keys, k);
      if !Reached(c, keys[0].repo, keys[0].path) {
        assert Kept(c, keys) == Kept(c, keys[1..]);
      }
    }
  }

  lemma ScannedBounds(a: Commit, c: Commit, g: Group, first: seq<Key>, last: seq<Key>)
    requires Passes(a.list, a.trees) && Passes(c.list, c.trees) && AllScanned(c, g)
    requires Allowed(c.list.entries, g) <= Allowed(a.list.entries, g)
    requires IsPresent(a.trees, first) && IsPresent(c.trees, last)
    ensures Total(last, g) <= Total(first, g)
  {
    var scanned := ScanOf(a, first);
    var still := ScanOf(c, last);
    CheckedIsFound(a.list, a.trees, scanned, g);
    CheckedIsFound(c.list, c.trees, still, g);
    TotalGrows(scanned, first, g);
    TotalGrows(last, still, g);
  }

  /** Where the last commit scans every file with such debt, its real number has not risen either. */
  lemma {:induction false} RealDebtNeverRises(commits: seq<Commit>, g: Group, first: seq<Key>, last: seq<Key>)
    requires Chain(commits) && IsPresent(commits[0].trees, first) && IsPresent(commits[|commits| - 1].trees, last)
    requires AllScanned(commits[|commits| - 1], g)
    ensures Total(last, g) <= Total(first, g)
  {
    ChainShrinks(commits, g);
    ScannedBounds(commits[0], commits[|commits| - 1], g, first, last);
  }

  // ----- exactly when the real number is bounded

  /** The same list and the same files and directories, whatever stands in the files. */
  ghost predicate SameFiles(c: Commit, d: Commit) {
    && d.list == c.list && d.trees.Keys == c.trees.Keys
    && forall name | name in c.trees ::
         d.trees[name].files.Keys == c.trees[name].files.Keys && d.trees[name].dirs == c.trees[name].dirs
  }

  lemma SameReach(c: Commit, d: Commit, name: string, f: Path)
    requires SameFiles(c, d)
    ensures Scanned(d.list, d.trees, {}) == Scanned(c.list, c.trees, {}) && Reached(d, name, f) == Reached(c, name, f)
  {
    forall n | n in c.list.repos ensures Scannable(d.list, d.trees, n) <==> Scannable(c.list, c.trees, n) {
      assert n in c.trees ==> d.trees[n].files.Keys == c.trees[n].files.Keys;
    }
  }

  /** Different contents only in Rust files that no root reaches. */
  ghost predicate Alike(c: Commit, d: Commit) {
    && SameFiles(c, d)
    && forall name, f | name in c.trees && f in c.trees[name].files && (Reached(c, name, f) || !IsRust(f)) ::
         d.trees[name].files[f] == c.trees[name].files[f]
  }

  /** The check reads no file that no root reaches. */
  lemma AlikeFinds(c: Commit, d: Commit, k: Key)
    requires Alike(c, d)
    ensures Scanned(d.list, d.trees, {}) == Scanned(c.list, c.trees, {})
    ensures Found(d.list, d.trees, {}, k) == Found(c.list, c.trees, {}, k)
  {
    SameReach(c, d, k.repo, k.path);
    assert Reached(c, k.repo, k.path) && k.path in c.trees[k.repo].files ==>
      d.trees[k.repo].files[k.path] == c.trees[k.repo].files[k.path];
  }

  lemma AlikePasses(c: Commit, d: Commit)
    requires Alike(c, d) && Passes(c.list, c.trees)
    ensures Passes(d.list, d.trees)
  {
    forall k ensures Found(d.list, d.trees, {}, k) == Found(c.list, c.trees, {}, k) {
      AlikeFinds(c, d, k);
    }
    AlikeFinds(c, d, Key("", [], "", ""));
    forall name | name in Scanned(c.list, c.trees, {})
      ensures AllReadable(d.trees[name], d.list.repos[name].roots)
      ensures AnyFile(c.trees[name], c.list.repos[name].roots) ==> AnyFile(d.trees[name], d.list.repos[name].roots)
    {
      AlikeReads(c, d, name);
    }
  }

  lemma AlikeReads(c: Commit, d: Commit, name: string)
    requires Alike(c, d) && name in Scanned(c.list, c.trees, {}) && AllReadable(c.trees[name], c.list.repos[name].roots)
    ensures AllReadable(d.trees[name], d.list.repos[name].roots)
    ensures AnyFile(c.trees[name], c.list.repos[name].roots) ==> AnyFile(d.trees[name], d.list.repos[name].roots)
  {
    var files, roots := c.trees[name].files.Keys, c.list.repos[name].roots;
    forall f | f in files && ScansAny(files, roots, f) ensures d.trees[name].files[f].Readable? {
      assert Reached(c, name, f);
    }
    if AnyFile(c.trees[name], roots) {
      var f :| f in files && ScansAny(files, roots, f);
      assert f in d.trees[name].files && ScansAny(d.trees[name].files.Keys, roots, f);
    }
  }

  /** Such a commit passes in the other's place. */
  lemma {:induction false} AlikeChain(commits: seq<Commit>, d: Commit)
    requires Chain(commits) && Alike(commits[|commits| - 1], d)
    ensures Chain(commits[|commits| - 1 := d])
  {
    var other := commits[|commits| - 1 := d];
    if |commits| == 1 {
      AlikePasses(commits[0], d);
    } else {
      assert other[1..] == commits[1..][|commits| - 2 := d];
      AlikeChain(commits[1..], d);
    }
  }

  /** Every Rust file of the repository is scanned. */
  predicate WhollyScanned(c: Commit, name: string) {
    name in c.trees ==> forall f | f in c.trees[name].files && IsRust(f) :: Reached(c, name, f)
  }

  /** The group's occurrences lie in Rust files, or in a file of another kind that is itself a root. */
  ghost predicate InSources(c: Commit, g: Group) {
    forall k: Key | k.Target() == g && Present(c.trees, k) > 0 :: IsRust(k.path) || Reached(c, k.repo, k.path)
  }

  /**
   With a last commit of these files and this list, passing commits bound the real number of occurrences
   exactly when it scans every Rust file of the repository.
   */
  lemma RealDebtBoundIff(commits: seq<Commit>, g: Group, first: seq<Key>)
    requires Chain(commits) && IsPresent(commits[0].trees, first) && InSources(commits[|commits| - 1], g)
    ensures var end := |commits| - 1;
      (forall d, last | SameFiles(commits[end], d) && Chain(commits[end := d]) && InSources(d, g)
                        && IsPresent(d.trees, last) :: Total(last, g) <= Total(first, g))
      <==> WhollyScanned(commits[end], g.repo)
  {
    var end := |commits| - 1;
    if WhollyScanned(commits[end], g.repo) {
      forall d, last | SameFiles(commits[end], d) && Chain(commits[end := d]) && InSources(d, g)
                       && IsPresent(d.trees, last)
        ensures Total(last, g) <= Total(first, g)
      {
        BoundedWhenScanned(commits, g, first, d, last);
      }
    } else {
      var f :| f in commits[end].trees[g.repo].files && IsRust(f) && !Reached(commits[end], g.repo, f);
      var d, last := MoreUnseen(commits[end], g, f, Total(first, g) + 1);
      AlikeChain(commits, d);
    }
  }

  lemma BoundedWhenScanned(commits: seq<Commit>, g: Group, first: seq<Key>, d: Commit, last: seq<Key>)
    requires Chain(commits) && IsPresent(commits[0].trees, first) && WhollyScanned(commits[|commits| - 1], g.repo)
    requires SameFiles(commits[|commits| - 1], d) && Chain(commits[|commits| - 1 := d])
    requires InSources(d, g) && IsPresent(d.trees, last)
    ensures Total(last, g) <= Total(first, g)
  {
    ChainShrinks(commits, g);
    ChainShrinks(commits[|commits| - 1 := d], g);
    SameFilesScanned(commits[|commits| - 1], d, g);
    ScannedBounds(commits[0], d, g, first, last);
  }

  lemma SameFilesScanned(c: Commit, d: Commit, g: Group)
    requires SameFiles(c, d) && WhollyScanned(c, g.repo) && InSources(d, g)
    ensures AllScanned(d, g)
  {
    forall k: Key | k.Target() == g && Present(d.trees, k) > 0 ensures Reached(d, k.repo, k.path) {
      SameReach(c, d, k.repo, k.path);
    }
  }

  // ----- any number, in a file that is not scanned

  lemma MoreUnseen(c: Commit, g: Group, f: Path, n: nat) returns (d: Commit, last: seq<Key>)
    requires g.repo in c.trees && f in c.trees[g.repo].files && IsRust(f) && !Reached(c, g.repo, f) && InSources(c, g)
    ensures Alike(c, d) && InSources(d, g) && IsPresent(d.trees, last) && Total(last, g) >= n
  {
    var many := seq(n, _ => Occurrence(g.attrs, g.item));
    var tree := c.trees[g.repo];
    d := Commit(c.list, c.trees[g.repo := tree.(files := tree.files[f := Readable(many)])]);
    last := Everything(d.trees);
    var k := Key(g.repo, f, g.attrs, g.item);
    forall k: Key | k.Target() == g && Present(d.trees, k) > 0
      ensures IsRust(k.path) || Reached(d, k.repo, k.path)
    {
      SameReach(c, d, k.repo, k.path);
      assert k.path != f ==> Present(c.trees, k) == Present(d.trees, k);
    }
    AllTheSame(Occurrence(g.attrs, g.item), n);
    assert multiset(last)[k] == n;
    CountInTotal(last, k);
  }

  lemma {:induction false} AllTheSame<T>(x: T, n: nat)
    ensures multiset(seq(n, _ => x))[x] == n
  {
    if n > 0 {
      assert seq(n, _ => x) == seq(n - 1, _ => x) + [x];
      AllTheSame(x, n - 1);
    }
  }

  lemma {:induction false} CountInTotal(keys: seq<Key>, k: Key)
    ensures multiset(keys)[k] <= Total(keys, k.Target())
  {
    if keys != [] {
      CountInTotal(keys[1..], k);
      CountFirst(keys, k);
    }
  }

  lemma {:induction false} EveryFile(name: string, tree: Tree, files: set<Path>) returns (keys: seq<Key>)
    requires files <= tree.files.Keys
    ensures forall k :: multiset(keys)[k] == if k.repo == name && k.path in files then In(tree, k) else 0
  {
    keys := [];
    if files != {} {
      var f :| f in files;
      keys := EveryFile(name, tree, files - {f});
      if tree.files[f].Readable? {
        var more := KeysOf(name, f, tree.files[f].occurrences);
        forall k: Key ensures multiset(more)[k] == if k.repo == name && k.path == f then In(tree, k) else 0 {
          KeysCount(name, f, tree.files[f].occurrences, k);
        }
        keys := keys + more;
      }
    }
  }

  lemma {:induction false} EveryTree(trees: Trees, names: set<string>) returns (keys: seq<Key>)
    requires names <= trees.Keys
    ensures forall k :: multiset(keys)[k] == if k.repo in names then Present(trees, k) else 0
  {
    keys := [];
    if names != {} {
      var name :| name in names;
      var rest := EveryTree(trees, names - {name});
      var more := EveryFile(name, trees[name], trees[name].files.Keys);
      keys := rest + more;
    }
  }

  lemma Everything(trees: Trees) returns (keys: seq<Key>)
    ensures IsPresent(trees, keys)
  {
    keys := EveryTree(trees, trees.Keys);
  }

  // ----- debt that rises unseen

  const HIDDEN: Path := [".hidden", "a.rs"]
  const SHOWN: Path := ["b.rs"]
  const DEBT := Key("core", HIDDEN, "#[cfg(unix)]", "use x")

  /** A file in a hidden directory with these occurrences, and one beside it without any. */
  function Holding(occurrences: seq<Occurrence>): Tree {
    Tree(map[HIDDEN := Readable(occurrences), SHOWN := Readable([])], {[".hidden"]})
  }

  /** One occurrence in a hidden directory that is a root. */
  function Before(): Commit {
    Commit(Allowlist(map["core" := Repo([], [[".hidden"]])], [Entry(DEBT, 1)]),
           map["core" := Holding([Occurrence(DEBT.attrs, DEBT.item)])])
  }

  /** The root widened to `.`, the entry gone, and twice as much of it. */
  function After(): Commit {
    Commit(Allowlist(map["core" := Repo([], [[]])], []),
           map["core" := Holding([Occurrence(DEBT.attrs, DEBT.item), Occurrence(DEBT.attrs, DEBT.item)])])
  }

  /** Both commits pass and the list shrinks, and the number of occurrences doubles. */
  lemma DebtRisesUnseen()
    ensures Chain([Before(), After()])
    ensures IsPresent(Before().trees, [DEBT]) && IsPresent(After().trees, [DEBT, DEBT])
    ensures Total([DEBT], DEBT.Target()) == 1 && Total([DEBT, DEBT], DEBT.Target()) == 2
  {
    BeforePasses();
    AfterPasses();
    ListShrinks();
    assert [Before(), After()][1..] == [After()];
    assert [DEBT, DEBT][1..] == [DEBT];
  }

  /** Which of the two files each list's root reaches. */
  lemma WhatIsReached()
    ensures var files := {HIDDEN, SHOWN};
      && Scans(files, [".hidden"], HIDDEN) && !Scans(files, [".hidden"], SHOWN)
      && !Scans(files, [], HIDDEN) && Scans(files, [], SHOWN)
  {
    var files := {HIDDEN, SHOWN};
    assert [".hidden"][0] != SHOWN[0];
    assert Clear(files, HIDDEN, 1, 1) && IsRust(HIDDEN) && IsRust(SHOWN) && Clear(files, SHOWN, 0, 0);
    assert Hidden(HIDDEN[0]) && Skipped(files, HIDDEN[..0], HIDDEN[0]);
  }

  /** A commit of these two files with one root. */
  lemma TwoFiles(c: Commit, root: Path, counts: nat)
    requires c.list.repos == map["core" := Repo([], [root])]
    requires "core" in c.trees && c.trees["core"].files.Keys == {HIDDEN, SHOWN} && c.trees.Keys == {"core"}
    requires c.trees["core"].files[SHOWN] == Readable([]) && c.trees["core"].files[HIDDEN].Readable?
    requires root == [] || root == [".hidden"]
    requires forall k :: Present(c.trees, k) == if k == DEBT then counts else 0
    ensures Clean(c.list, c.trees, {})
    ensures forall k :: Found(c.list, c.trees, {}, k) == if k == DEBT && root == [".hidden"] then counts else 0
  {
    var files, roots := c.trees["core"].files.Keys, c.list.repos["core"].roots;
    WhatIsReached();
    assert roots[0] == root && forall f :: ScansAny(files, roots, f) <==> Scans(files, root, f);
    assert Exists(c.trees["core"], root);
    assert Scanned(c.list, c.trees, {}) == {"core"};
    assert AnyFile(c.trees["core"], roots);
    forall k ensures Found(c.list, c.trees, {}, k) == if k == DEBT && root == [".hidden"] then counts else 0 {
      if k.repo == "core" {
        assert In(c.trees["core"], k) == Present(c.trees, k);
      }
    }
  }

  lemma BeforePasses()
    ensures Passes(Before().list, Before().trees) && IsPresent(Before().trees, [DEBT])
  {
    assert Before().list.entries[0].key == DEBT && "core" in Before().list.repos.Keys;
    TwoFiles(Before(), [".hidden"], 1);
  }

  lemma AfterPasses()
    ensures Passes(After().list, After().trees) && IsPresent(After().trees, [DEBT, DEBT])
  {
    assert "core" in After().list.repos.Keys;
    TwoFiles(After(), [], 2);
  }

  lemma ListShrinks()
    ensures Shrinks(After().list, Before().list)
  {
    var roots := After().list.repos["core"].roots;
    assert roots[0] == [] && Under([".hidden"], roots[0]) && Covered([".hidden"], roots);
    forall g ensures Allowed(After().list.entries, g) <= Allowed(Before().list.entries, g) {
      AllowedIsPositive(Before().list.entries, g);
    }
  }
}
