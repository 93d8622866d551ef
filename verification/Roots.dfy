/** Which files a root scans: the walk of `rust_files` and the coverage test of `shrink`. */
module Roots {
  /** A normalized relative path by its components; `.` has none. */
  type Path = seq<string>

  const MANIFEST := "Cargo.toml"

  /** The root itself or one above it: the test that `shrink` makes. */
  predicate Under(root: Path, r: Path) {
    r <= root
  }

  predicate Covered(root: Path, roots: seq<Path>) {
    exists r | r in roots :: Under(root, r)
  }

  lemma CoverTransitive(root: Path, middle: seq<Path>, last: seq<Path>)
    requires Covered(root, middle) && forall m | m in middle :: Covered(m, last)
    ensures Covered(root, last)
  {
    var m :| m in middle && Under(root, m);
    var r :| r in last && Under(m, r);
  }

  // ----- what a root scans

  predicate IsRust(file: Path) {
    |file| > 0 && var name := file[|file| - 1]; |name| >= 3 && name[|name| - 3..] == ".rs"
  }

  predicate Hidden(name: string) {
    name != "" && name[0] == '.'
  }

  /** Cargo's build output: `target` beside a manifest. */
  predicate IsBuild(files: set<Path>, here: Path, name: string) {
    name == "target" && here + [MANIFEST] in files
  }

  /** A directory the walk does not enter. */
  predicate Skipped(files: set<Path>, here: Path, name: string) {
    Hidden(name) || IsBuild(files, here, name)
  }

  /** No directory from depth `a` up to depth `b` on the way to `path` is skipped. */
  predicate Clear(files: set<Path>, path: Path, a: nat, b: int)
    requires b <= |path|
  {
    forall i: nat | a <= i < b :: !Skipped(files, path[..i], path[i])
  }

  /** A Rust file the walk comes to from `here`. */
  predicate Walked(files: set<Path>, here: Path, file: Path) {
    here < file && IsRust(file) && Clear(files, file, |here|, |file| - 1)
  }

  /** The file is scanned for the root: it is the root, or the walk from the root comes to it. */
  predicate Scans(files: set<Path>, root: Path, file: Path) {
    root == file || Walked(files, root, file)
  }

  predicate ScansAny(files: set<Path>, roots: seq<Path>, file: Path) {
    exists r | r in roots :: Scans(files, r, file)
  }

  // ----- the walk

  /** `os.walk` from `here`, with the directories to skip pruned as it goes. */
  method Walk(files: set<Path>, here: Path, ghost bound: nat) returns (found: set<Path>)
    requires forall f | f in files :: |f| <= bound
    ensures found == set f | f in files && Walked(files, here, f)
    decreases if |here| <= bound then bound - |here| else 0
  {
    found := set f | f in files && here < f && |f| == |here| + 1 && IsRust(f);
    var names := set f | f in files && here < f && |f| > |here| + 1 :: f[|here|];
    var left := names;
    while left != {}
      invariant left <= names
      invariant found ==
        set f | f in files && Walked(files, here, f) && (|f| == |here| + 1 || f[|here|] in names - left)
      decreases left
    {
      var name :| name in left;
      left := left - {name};
      if !Skipped(files, here, name) {
        var f :| f in files && here < f && |f| > |here| + 1 && f[|here|] == name;
        var more := Walk(files, here + [name], bound);
        found := found + more;
      }
      forall f | f in files && here < f && |f| > |here| + 1 && f[|here|] == name
        ensures Walked(files, here, f) <==> !Skipped(files, here, name) && Walked(files, here + [name], f)
      {
        OneDown(files, here, name, f);
      }
      assert forall f | here + [name] < f :: here < f && |f| > |here| + 1 && f[|here|] == name;
    }
  }

  lemma OneDown(files: set<Path>, here: Path, name: string, f: Path)
    requires here < f && |f| > |here| + 1 && f[|here|] == name
    ensures here + [name] < f
    ensures Walked(files, here, f) <==> !Skipped(files, here, name) && Walked(files, here + [name], f)
  {
    assert f[..|here| + 1] == here + [name] && f[..|here|] == here;
  }

  method RustFiles(files: set<Path>, roots: seq<Path>) returns (found: set<Path>)
    ensures found == set f | f in files && ScansAny(files, roots, f)
  {
    found := {};
    ghost var bound := Longest(files);
    for i := 0 to |roots|
      invariant forall f :: f in found <==> f in files && ScansAny(files, roots[..i], f)
    {
      ghost var before := found;
      var more := Walk(files, roots[i], bound);
      found := found + more + if roots[i] in files then {roots[i]} else {};
      forall f ensures f in found <==> f in files && ScansAny(files, roots[..i + 1], f) {
        assert f in found <==> f in before || (f in files && Scans(files, roots[i], f));
        OneMoreRoot(files, roots, i, f);
      }
    }
    assert roots[..|roots|] == roots;
  }

  lemma OneMoreRoot(files: set<Path>, roots: seq<Path>, i: nat, f: Path)
    requires i < |roots|
    ensures ScansAny(files, roots[..i + 1], f) <==> ScansAny(files, roots[..i], f) || Scans(files, roots[i], f)
  {
    assert roots[..i + 1] == roots[..i] + [roots[i]];
  }

  ghost function Longest(files: set<Path>): (n: nat)
    ensures forall f | f in files :: |f| <= n
  {
    if files == {} then 0
    else
      var f :| f in files;
      var n := Longest(files - {f});
      if |f| > n then |f| else n
  }

  // ----- is a file still scanned?

  /** The deepest of the roots above a file. */
  ghost predicate IsDeepest(roots: seq<Path>, file: Path, r: Path) {
    r in roots && r <= file && forall other | other in roots && other <= file :: |other| <= |r|
  }

  lemma {:induction false} DeepestExists(roots: seq<Path>, file: Path) returns (r: Path)
    requires Covered(file, roots)
    ensures IsDeepest(roots, file, r)
  {
    var last, rest := roots[|roots| - 1], roots[..|roots| - 1];
    assert forall x | x in roots :: x == last || x in rest;
    if Covered(file, rest) {
      r := DeepestExists(rest, file);
      if last <= file && |last| > |r| {
        r := last;
      }
    } else {
      r := last;
    }
  }

  /** The deepest root decides: a walk that starts further up passes everything it passes, and more. */
  lemma DeepestDecides(files: set<Path>, roots: seq<Path>, file: Path, r: Path)
    requires IsDeepest(roots, file, r)
    ensures ScansAny(files, roots, file) <==> Scans(files, r, file)
  {
    if ScansAny(files, roots, file) {
      var other :| other in roots && Scans(files, other, file);
      assert |other| <= |r| <= |file|;
      assert |r| == |file| ==> r == file;
    }
  }

  /**
   The file is a root itself, or a Rust file with no skipped directory between its deepest root `r`
   and the old root, and no build output directory, as the files are now, below that.
   */
  predicate StaysInReach(files: set<Path>, root: Path, file: Path, r: Path) {
    var depth := if |root| < |file| then |root| else |file| - 1;
    || r == file
    || (&& IsRust(file) && Clear(files, file, |r|, depth)
        && forall i: nat | |r| <= i && depth <= i < |file| - 1 :: !IsBuild(files, file[..i], file[i]))
  }

  /** Exactly when a file scanned for `root` before is scanned by the roots after files and roots have changed. */
  lemma StillScannedIff(before: set<Path>, after: set<Path>, root: Path, roots: seq<Path>, file: Path, r: Path)
    requires Scans(before, root, file) && IsDeepest(roots, file, r)
    ensures ScansAny(after, roots, file) <==> StaysInReach(after, root, file, r)
  {
    DeepestDecides(after, roots, file, r);
    var depth := if |root| < |file| then |root| else |file| - 1;
    forall i: nat | depth <= i < |file| - 1 ensures !Hidden(file[i]) {
      assert !Skipped(before, file[..i], file[i]);
    }
    assert |r| == |file| ==> r == file;
  }

  /** A hidden base root is accepted under `.`, and its files are no longer scanned. */
  lemma HiddenRootIsLost()
    ensures var file := [".hidden", "a.rs"];
      Under([".hidden"], []) && Scans({file}, [".hidden"], file) && !Scans({file}, [], file)
  {
    var file := [".hidden", "a.rs"];
    assert Skipped({file}, file[..0], file[0]);
  }

  /** A manifest added beside a directory named `target` hides that directory from an unchanged root. */
  lemma ManifestHidesTarget()
    ensures var file := ["src", "target", "a.rs"];
      Scans({file}, ["src"], file) && !Scans({file, ["src", MANIFEST]}, ["src"], file)
  {
    var file := ["src", "target", "a.rs"];
    assert file[..1] + [MANIFEST] == ["src", MANIFEST];
    assert IsBuild({file, ["src", MANIFEST]}, file[..1], file[1]);
    assert !IsBuild({file}, file[..1], file[1]) by {
      assert ["src", MANIFEST][1] != file[1];
    }
    assert Clear({file}, file, 1, 2);
  }
}
