/** The shrink-only ratchet of `check_cfg_boundaries.py`: `check`, `shrink`, and chains of commits. */
module Ratchet {
  import opened Roots
  import opened Allowlists
  import opened SourceScan

  // ----- `check`

  datatype Fault =
    | BadList
    | BadSkip(repo: string)
    | BadScan
    | New(key: Key)
    | Count(key: Key)
    | Stale(key: Key)

  /** A repository may be skipped if the list names it and it is not the check's own, whose place is `.`. */
  predicate MaySkip(list: Allowlist, name: string) {
    name in list.repos && list.repos[name].place != []
  }

  /** The list says exactly what there is to find in the scanned repositories. */
  ghost predicate Agrees(list: Allowlist, trees: Trees, skip: set<string>) {
    && (forall k | Found(list, trees, skip, k) > 0 :: CountOf(list.entries, k) == Found(list, trees, skip, k))
    && forall e | e in list.entries && e.key.repo in Scanned(list, trees, skip) :: Found(list, trees, skip, e.key) > 0
  }

  method Check(list: Allowlist, trees: Trees, skip: set<string>) returns (faults: seq<Fault>)
    ensures faults == [] <==>
      && Loads(list) && (forall name | name in skip :: MaySkip(list, name))
      && Clean(list, trees, skip) && Agrees(list, trees, skip)
  {
    var loads := Load(list);
    if !loads {
      return [BadList];
    }
    if name :| name in skip && !MaySkip(list, name) {
      return [BadSkip(name)];
    }
    var found, scanned, clean := Scan(list, trees, skip);
    faults := Compare(list.entries, found, scanned);
    CountsAreFound(list, trees, skip, found);
    if !clean {
      faults := [BadScan] + faults;
    }
  }

  /** The three kinds of disagreement between a list and what was found. */
  method Compare(entries: seq<Entry>, found: seq<Key>, scanned: set<string>) returns (faults: seq<Fault>)
    ensures faults == [] <==>
      && (forall k | k in found :: CountOf(entries, k) == multiset(found)[k])
      && forall e | e in entries && e.key.repo in scanned :: e.key in found
  {
    faults := [];
    for i := 0 to |found|
      invariant faults == [] <==> forall k | k in found[..i] :: CountOf(entries, k) == multiset(found)[k]
    {
      var k := found[i];
      assert k in found && multiset(found)[k] > 0;
      if CountOf(entries, k) == 0 {
        faults := faults + [New(k)];
      } else if CountOf(entries, k) != multiset(found)[k] {
        faults := faults + [Count(k)];
      }
    }
    for i := 0 to |entries|
      invariant faults == [] <==>
        && (forall k | k in found :: CountOf(entries, k) == multiset(found)[k])
        && forall e | e in entries[..i] && e.key.repo in scanned :: e.key in found
    {
      var e := entries[i];
      if e.key.repo in scanned && e.key !in found {
        faults := faults + [Stale(e.key)];
      }
    }
  }

  lemma CountsAreFound(list: Allowlist, trees: Trees, skip: set<string>, found: seq<Key>)
    requires IsScan(list, trees, skip, found)
    ensures forall k :: k in found <==> Found(list, trees, skip, k) > 0
  {
    forall k ensures k in found <==> Found(list, trees, skip, k) > 0 {
      assert k in found <==> multiset(found)[k] > 0;
    }
  }

  // ----- the list says what the sources hold

  /** The occurrences of a group among the keys. */
  function Total(keys: seq<Key>, g: Group): (n: nat) {
    if keys == [] then 0
    else (if keys[0].Target() == g then 1 else 0) + Total(keys[1..], g)
  }

  function Without(found: seq<Key>, k: Key): (rest: seq<Key>) {
    if found == [] then [] else (if found[0] == k then [] else [found[0]]) + Without(found[1..], k)
  }

  lemma CountFirst(found: seq<Key>, o: Key)
    requires found != []
    ensures multiset(found)[o] == multiset(found[1..])[o] + if found[0] == o then 1 else 0
  {
    assert found == [found[0]] + found[1..];
  }

  lemma {:induction false} WithoutCounts(found: seq<Key>, k: Key, o: Key)
    ensures multiset(Without(found, k))[o] == if o == k then 0 else multiset(found)[o]
  {
    if found != [] {
      WithoutCounts(found[1..], k, o);
      CountFirst(found, o);
      if found[0] == k {
        assert Without(found, k) == Without(found[1..], k);
      } else {
        assert Without(found, k)[1..] == Without(found[1..], k);
        CountFirst(Without(found, k), o);
      }
    }
  }

  lemma {:induction false} Removed(found: seq<Key>, k: Key, g: Group)
    ensures Total(found, g) == Total(Without(found, k), g) + if k.Target() == g then multiset(found)[k] else 0
  {
    if found != [] {
      Removed(found[1..], k, g);
      CountFirst(found, k);
      if found[0] == k {
        assert Without(found, k) == Without(found[1..], k);
      } else {
        assert Without(found, k)[1..] == Without(found[1..], k);
      }
    }
  }

  lemma {:induction false} CountsAdd(entries: seq<Entry>, found: seq<Key>, g: Group)
    requires Distinct(entries) && forall k :: CountOf(entries, k) == multiset(found)[k]
    ensures Allowed(entries, g) == Total(found, g)
    decreases |entries|
  {
    if entries != [] {
      var k := entries[0].key;
      Removed(found, k, g);
      forall o ensures multiset(Without(found, k))[o] == if o == k then 0 else multiset(found)[o] {
        WithoutCounts(found, k, o);
      }
      Absent(entries[1..], k);
      CountsAdd(entries[1..], Without(found, k), g);
    }
  }

  /** More of each key of a group is more of the group. */
  lemma {:induction false} TotalGrows(a: seq<Key>, b: seq<Key>, g: Group)
    requires forall k: Key | k.Target() == g :: multiset(a)[k] <= multiset(b)[k]
    ensures Total(a, g) <= Total(b, g)
    decreases |a|
  {
    if a != [] {
      var k := a[0];
      Removed(a, k, g);
      Removed(b, k, g);
      forall o: Key | o.Target() == g ensures multiset(Without(a, k))[o] <= multiset(Without(b, k))[o] {
        WithoutCounts(a, k, o);
        WithoutCounts(b, k, o);
      }
      Shorter(a, k);
      TotalGrows(Without(a, k), Without(b, k), g);
    }
  }

  lemma {:induction false} Shorter(found: seq<Key>, k: Key)
    ensures |Without(found, k)| <= |found| && (found != [] && found[0] == k ==> |Without(found, k)| < |found|)
  {
    if found != [] {
      Shorter(found[1..], k);
    }
  }

  ghost predicate Passes(list: Allowlist, trees: Trees) {
    Loads(list) && Clean(list, trees, {}) && Agrees(list, trees, {})
  }

  /** With nothing skipped, a passing check means the list's totals are those of the scan. */
  lemma CheckedIsFound(list: Allowlist, trees: Trees, found: seq<Key>, g: Group)
    requires Passes(list, trees) && IsScan(list, trees, {}, found)
    ensures Allowed(list.entries, g) == Total(found, g)
  {
    forall k ensures CountOf(list.entries, k) == multiset(found)[k] {
      if Found(list, trees, {}, k) == 0 && CountOf(list.entries, k) != 0 {
        Listed(list.entries, k);
      }
    }
    CountsAdd(list.entries, found, g);
  }

  // ----- `shrink`

  /** Every base repository and root is still covered. */
  ghost predicate KeepsScope(now: Allowlist, base: Allowlist) {
    forall name | name in base.repos ::
      && name in now.repos && now.repos[name].place == base.repos[name].place
      && forall root | root in base.repos[name].roots :: Covered(root, now.repos[name].roots)
  }

  ghost predicate Shrinks(now: Allowlist, base: Allowlist) {
    KeepsScope(now, base) && forall g :: Allowed(now.entries, g) <= Allowed(base.entries, g)
  }

  method ScopeKept(now: Allowlist, base: Allowlist) returns (kept: bool)
    ensures kept <==> KeepsScope(now, base)
  {
    var names := base.repos.Keys;
    while names != {}
      invariant names <= base.repos.Keys
      invariant forall name | name in base.repos && name !in names ::
        && name in now.repos && now.repos[name].place == base.repos[name].place
        && forall root | root in base.repos[name].roots :: Covered(root, now.repos[name].roots)
      decreases names
    {
      var name :| name in names;
      if name !in now.repos || now.repos[name].place != base.repos[name].place {
        return false;
      }
      if exists root | root in base.repos[name].roots :: !Covered(root, now.repos[name].roots) {
        return false;
      }
      names := names - {name};
    }
    kept := true;
  }

  method Shrink(now: Allowlist, base: Allowlist) returns (passes: bool)
    ensures passes <==> Loads(now) && Loads(base) && Shrinks(now, base)
  {
    var a := Load(now);
    var b := Load(base);
    if !a || !b {
      return false;
    }
    var kept := ScopeKept(now, base);
    if !kept {
      return false;
    }
    var before := Totals(base.entries);
    var after := Totals(now.entries);
    forall g ensures Allowed(base.entries, g) == if g in before then before[g] else 0 {
      AllowedIsPositive(base.entries, g);
    }
    forall g ensures Allowed(now.entries, g) == if g in after then after[g] else 0 {
      AllowedIsPositive(now.entries, g);
    }
    passes := forall g | g in after :: g in before && after[g] <= before[g];
    if passes {
      forall g ensures Allowed(now.entries, g) <= Allowed(base.entries, g) {
        AllowedIsPositive(base.entries, g);
      }
    } else {
      var g :| g in after && !(g in before && after[g] <= before[g]);
      AllowedIsPositive(now.entries, g);
    }
  }

  // ----- along a chain of commits

  /** A commit: its list, and the sources that the list's repositories hold. */
  datatype Commit = Commit(list: Allowlist, trees: Trees)

  /** Commits that pass `check` with nothing skipped, and `shrink` against the one before. */
  ghost predicate Chain(commits: seq<Commit>) {
    && commits != [] && Passes(commits[0].list, commits[0].trees)
    && (|commits| > 1 ==> Shrinks(commits[1].list, commits[0].list) && Chain(commits[1..]))
  }

  lemma ScopeTransitive(a: Allowlist, b: Allowlist, c: Allowlist)
    requires KeepsScope(b, a) && KeepsScope(c, b)
    ensures KeepsScope(c, a)
  {
    forall name, root | name in a.repos && root in a.repos[name].roots
      ensures Covered(root, c.repos[name].roots)
    {
      CoverTransitive(root, b.repos[name].roots, c.repos[name].roots);
    }
  }

  lemma {:induction false} ChainShrinks(commits: seq<Commit>, g: Group)
    requires Chain(commits)
    ensures var first, last := commits[0], commits[|commits| - 1];
      && Passes(last.list, last.trees) && KeepsScope(last.list, first.list)
      && Allowed(last.list.entries, g) <= Allowed(first.list.entries, g)
  {
    if |commits| > 1 {
      ChainShrinks(commits[1..], g);
      ScopeTransitive(commits[0].list, commits[1].list, commits[|commits| - 1].list);
    } else {
      forall name, root | name in commits[0].list.repos && root in commits[0].list.repos[name].roots
        ensures Covered(root, commits[0].list.repos[name].roots)
      {
        assert Under(root, root);
      }
    }
  }

  /** Along passing commits no group's scanned count rises above the first one's, wherever its debt moves. */
  lemma DebtNeverRises(commits: seq<Commit>, g: Group, first: seq<Key>, last: seq<Key>)
    requires Chain(commits)
    requires IsScan(commits[0].list, commits[0].trees, {}, first)
    requires var c := commits[|commits| - 1]; IsScan(c.list, c.trees, {}, last)
    ensures Total(last, g) <= Total(first, g)
    ensures KeepsScope(commits[|commits| - 1].list, commits[0].list)
  {
    var c := commits[|commits| - 1];
    ChainShrinks(commits, g);
    CheckedIsFound(commits[0].list, commits[0].trees, first, g);
    CheckedIsFound(c.list, c.trees, last, g);
  }

  // ----- what is still scanned

  /** Exactly when a file scanned for a root of the first commit is scanned by the last one. */
  lemma StillScannedAlong(commits: seq<Commit>, name: string, root: Path, file: Path) returns (r: Path)
    requires Chain(commits) && name in commits[0].list.repos && root in commits[0].list.repos[name].roots
    requires name in commits[0].trees && Scans(commits[0].trees[name].files.Keys, root, file)
    ensures var c := commits[|commits| - 1];
      && name in c.list.repos && name in c.trees && IsDeepest(c.list.repos[name].roots, file, r)
      && (ScansAny(c.trees[name].files.Keys, c.list.repos[name].roots, file)
          <==> StaysInReach(c.trees[name].files.Keys, root, file, r))
  {
    var c, before := commits[|commits| - 1], commits[0].trees[name].files.Keys;
    ChainShrinks(commits, Group("", "", ""));
    StillCovered(commits[0].list, c.list, name, root, file);
    CheckedOut(c, name);
    r := DeepestExists(c.list.repos[name].roots, file);
    StillScannedIff(before, c.trees[name].files.Keys, root, c.list.repos[name].roots, file, r);
  }

  lemma CheckedOut(c: Commit, name: string)
    requires Passes(c.list, c.trees) && name in c.list.repos
    ensures name in c.trees
  {
    assert name in Scanned(c.list, c.trees, {});
  }

  lemma StillCovered(first: Allowlist, last: Allowlist, name: string, root: Path, file: Path)
    requires KeepsScope(last, first) && name in first.repos && root in first.repos[name].roots && root <= file
    ensures name in last.repos && Covered(file, last.repos[name].roots)
  {
    var above :| above in last.repos[name].roots && Under(root, above);
    assert Under(file, above);
  }
}
