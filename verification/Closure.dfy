/** `test_closure` and `cross_checkable_packages` of `check_local_clone_boundaries.py`. */
module Closure {
  import opened Reachability

  // ----- the test build of a package

  datatype Dependency = Dependency(name: string, dev: bool)

  type Packages = map<string, seq<Dependency>>

  /** The rules the walk obeys: which names are the repository's own, and which may not be reached. */
  datatype Policy = Policy(firstParty: set<string>, forbidden: set<string>)

  function Declared(packages: Packages, m: string): (deps: seq<Dependency>) {
    if m in packages then packages[m] else []
  }

  /** A test build takes dev edges at its root only. */
  function Followed(packages: Packages, m: string, atRoot: bool): (names: set<string>) {
    set d | d in Declared(packages, m) && (atRoot || !d.dev) :: d.name
  }

  function Own(names: set<string>, policy: Policy): (own: set<string>) {
    names * policy.firstParty - policy.forbidden
  }

  function Below(packages: Packages, policy: Policy): (edges: Edges) {
    map m | m in packages :: Own(Followed(packages, m, false), policy)
  }

  function AtRoot(packages: Packages, policy: Policy, root: string): (starts: set<string>) {
    Own(Followed(packages, root, true), policy)
  }

  ghost predicate InTestBuild(packages: Packages, policy: Policy, root: string, n: string) {
    Reaches(AtRoot(packages, policy, root), Below(packages, policy), n)
  }

  datatype Finding = Finding(forbidden: string, via: string)

  /** A forbidden package that the root, or a package of its test build, declares. */
  ghost predicate Offends(packages: Packages, policy: Policy, root: string, f: Finding) {
    && f.forbidden in policy.forbidden
    && ((f.via == root && f.forbidden in Followed(packages, root, true))
        || (InTestBuild(packages, policy, root, f.via) && f.forbidden in Followed(packages, f.via, false)))
  }

  /** One package: its own dependencies not yet reached, and the forbidden ones it declares. */
  method Explore(packages: Packages, policy: Policy, m: string, atRoot: bool, known: set<string>)
    returns (added: seq<string>, hits: seq<string>)
    ensures forall n :: n in added <==> n in Own(Followed(packages, m, atRoot), policy) && n !in known
    ensures forall n :: n in hits <==> n in Followed(packages, m, atRoot) && n in policy.forbidden
  {
    added, hits := [], [];
    var deps := Declared(packages, m);
    for i := 0 to |deps|
      invariant forall n :: n in added <==>
        n !in known && n in policy.firstParty && n !in policy.forbidden &&
        exists d :: d in deps[..i] && (atRoot || !d.dev) && d.name == n
      invariant forall n :: n in hits <==>
        n in policy.forbidden && exists d :: d in deps[..i] && (atRoot || !d.dev) && d.name == n
    {
      var d := deps[i];
      assert deps[..i + 1] == deps[..i] + [d];
      if d.dev && !atRoot {
        continue;
      }
      if d.name in policy.forbidden {
        hits := hits + [d.name];
      } else if d.name in policy.firstParty && d.name !in known && d.name !in added {
        added := added + [d.name];
      }
    }
    assert deps[..|deps|] == deps;
  }

  /** Whether a package's own dependencies have been taken up. */
  ghost predicate Explored(packages: Packages, policy: Policy, m: string, atRoot: bool,
                           reached: set<string>, findings: seq<Finding>) {
    && Own(Followed(packages, m, atRoot), policy) <= reached
    && forall f | f in Followed(packages, m, atRoot) && f in policy.forbidden :: Finding(f, m) in findings
  }

  datatype Walk = Walk(frontier: seq<(string, bool)>, reached: set<string>, findings: seq<Finding>)

  /** Everything taken up so far belongs to the test build, or offends. */
  ghost predicate Sound(packages: Packages, policy: Policy, root: string, w: Walk) {
    && w.reached <= policy.firstParty
    && (forall n | n in w.reached :: InTestBuild(packages, policy, root, n))
    && (forall x | x in w.frontier :: if x.1 then x.0 == root else x.0 in w.reached)
    && forall f | f in w.findings :: Offends(packages, policy, root, f)
  }

  /** Everything not on the frontier is explored. */
  ghost predicate Complete(packages: Packages, policy: Policy, root: string, w: Walk) {
    && ((root, true) in w.frontier || Explored(packages, policy, root, true, w.reached, w.findings))
    && forall m | m in w.reached && (m, false) !in w.frontier ::
      Explored(packages, policy, m, false, w.reached, w.findings)
  }

  /** The package last put on the frontier is replaced by what exploring it gave. */
  function Advance(w: Walk, added: seq<string>, hits: seq<string>): (next: Walk)
    requires w.frontier != []
  {
    var last := |w.frontier| - 1;
    Walk(
      w.frontier[..last] + seq(|added|, i requires 0 <= i < |added| => (added[i], false)),
      w.reached + (set n | n in added),
      w.findings + seq(|hits|, i requires 0 <= i < |hits| => Finding(hits[i], w.frontier[last].0)))
  }

  ghost predicate Answers(packages: Packages, policy: Policy, w: Walk, added: seq<string>, hits: seq<string>)
    requires w.frontier != []
  {
    var (m, atRoot) := w.frontier[|w.frontier| - 1];
    && (forall n :: n in added <==> n in Own(Followed(packages, m, atRoot), policy) && n !in w.reached)
    && (forall n :: n in hits <==> n in Followed(packages, m, atRoot) && n in policy.forbidden)
  }

  lemma SoundKeeps(packages: Packages, policy: Policy, root: string, w: Walk, added: seq<string>, hits: seq<string>)
    requires w.frontier != [] && Sound(packages, policy, root, w) && Answers(packages, policy, w, added, hits)
    ensures Sound(packages, policy, root, Advance(w, added, hits))
  {
    var (m, atRoot) := w.frontier[|w.frontier| - 1];
    assert (m, atRoot) in w.frontier;
    Takes(packages, policy, root, m, atRoot);
  }

  lemma CompleteKeeps(packages: Packages, policy: Policy, root: string, w: Walk, added: seq<string>, hits: seq<string>)
    requires w.frontier != [] && Complete(packages, policy, root, w) && Answers(packages, policy, w, added, hits)
    ensures Complete(packages, policy, root, Advance(w, added, hits))
  {
    var next := Advance(w, added, hits);
    var last := |w.frontier| - 1;
    var (m, atRoot) := w.frontier[last];
    ExploredNow(packages, policy, w, added, hits);
    forall n, b | (n == root || n in next.reached) && (n, b) !in next.frontier && (n, b) != (m, atRoot)
      ensures (n, b) !in w.frontier && (n !in added || b)
    {
      if n in added {
        var i :| 0 <= i < |added| && added[i] == n;
        assert next.frontier[last + i] == (n, false);
      }
    }
  }

  lemma ExploredNow(packages: Packages, policy: Policy, w: Walk, added: seq<string>, hits: seq<string>)
    requires w.frontier != [] && Answers(packages, policy, w, added, hits)
    ensures var (m, atRoot) := w.frontier[|w.frontier| - 1];
      var next := Advance(w, added, hits);
      Explored(packages, policy, m, atRoot, next.reached, next.findings)
  {
    var (m, atRoot) := w.frontier[|w.frontier| - 1];
    var next := Advance(w, added, hits);
    forall f | f in Followed(packages, m, atRoot) && f in policy.forbidden ensures Finding(f, m) in next.findings {
      var i :| 0 <= i < |hits| && hits[i] == f;
      assert next.findings[|w.findings| + i] == Finding(f, m);
    }
  }

  method TestClosure(root: string, packages: Packages, policy: Policy)
    returns (reached: set<string>, findings: seq<Finding>)
    ensures forall n :: n in reached <==> InTestBuild(packages, policy, root, n)
    ensures forall f :: f in findings <==> Offends(packages, policy, root, f)
  {
    var w := Walk([(root, true)], {}, []);
    while w.frontier != []
      invariant Sound(packages, policy, root, w) && Complete(packages, policy, root, w)
      decreases policy.firstParty - w.reached, |w.frontier|
    {
      var (m, atRoot) := w.frontier[|w.frontier| - 1];
      var added, hits := Explore(packages, policy, m, atRoot, w.reached);
      SoundKeeps(packages, policy, root, w, added, hits);
      CompleteKeeps(packages, policy, root, w, added, hits);
      if added == [] {
        assert w.reached + (set n | n in added) == w.reached;
      } else {
        assert added[0] in policy.firstParty - w.reached;
      }
      w := Advance(w, added, hits);
    }
    WalkEnds(packages, policy, root, w);
    reached, findings := w.reached, w.findings;
  }

  lemma WalkEnds(packages: Packages, policy: Policy, root: string, w: Walk)
    requires w.frontier == [] && Sound(packages, policy, root, w) && Complete(packages, policy, root, w)
    ensures forall n :: n in w.reached <==> InTestBuild(packages, policy, root, n)
    ensures forall f :: f in w.findings <==> Offends(packages, policy, root, f)
  {
    forall n ensures n in w.reached <==> InTestBuild(packages, policy, root, n) {
      ClosedIsAll(AtRoot(packages, policy, root), Below(packages, policy), w.reached, n);
    }
    forall f | Offends(packages, policy, root, f) ensures f in w.findings {
      assert f == Finding(f.forbidden, f.via);
    }
  }

  /** What the walk takes up from a package of the test build belongs to it or offends. */
  lemma Takes(packages: Packages, policy: Policy, root: string, m: string, atRoot: bool)
    requires (atRoot && m == root) || (!atRoot && InTestBuild(packages, policy, root, m))
    ensures forall n | n in Own(Followed(packages, m, atRoot), policy) :: InTestBuild(packages, policy, root, n)
    ensures forall f | f in Followed(packages, m, atRoot) && f in policy.forbidden ::
      Offends(packages, policy, root, Finding(f, m))
  {
    forall n | n in Own(Followed(packages, m, atRoot), policy) ensures InTestBuild(packages, policy, root, n) {
      if atRoot {
        StartReaches(AtRoot(packages, policy, root), Below(packages, policy), n);
      } else {
        EdgeReaches(AtRoot(packages, policy, root), Below(packages, policy), m, n);
      }
    }
  }

  // ----- packages a foreign target can be checked for

  const NATIVE_BUILD := {"git2", "gwz-git2", "gwz-libgit2-sys"}

  datatype Inventoried = Inventoried(
    firstParty: seq<string>, devFirstParty: seq<string>, thirdParty: set<string>, devThirdParty: set<string>)

  type Inventory = map<string, Inventoried>

  function Normal(inventory: Inventory): (edges: Edges) {
    map m | m in inventory :: set n | n in inventory[m].firstParty && n in inventory
  }

  function First(inventory: Inventory, name: string): (starts: set<string>)
    requires name in inventory
  {
    set n | n in inventory[name].firstParty + inventory[name].devFirstParty && n in inventory
  }

  /** The package's closure, its own normal and dev edges first and then normal ones, declares nothing native. */
  ghost predicate Portable(inventory: Inventory, name: string)
    requires name in inventory
  {
    && inventory[name].thirdParty !! NATIVE_BUILD && inventory[name].devThirdParty !! NATIVE_BUILD
    && forall m | m in inventory && Reaches(First(inventory, name), Normal(inventory), m) ::
      inventory[m].thirdParty !! NATIVE_BUILD
  }

  /** The names seen from a package: itself, and what some route of the inventory leads to. */
  ghost predicate SeenFrom(inventory: Inventory, name: string, seen: set<string>, stack: seq<string>)
    requires name in inventory
  {
    && name in seen && seen <= inventory.Keys
    && (forall n | (n in seen || n in stack) && n in inventory && n != name ::
          Reaches(First(inventory, name), Normal(inventory), n))
    && (forall n | n in First(inventory, name) :: n in seen || n in stack)
    && forall m, n | m in seen && Edge(Normal(inventory), m, n) :: n in seen || n in stack
  }

  method Gather(inventory: Inventory, name: string) returns (third: set<string>)
    requires name in inventory
    ensures third !! NATIVE_BUILD <==> Portable(inventory, name)
  {
    third := inventory[name].thirdParty + inventory[name].devThirdParty;
    var seen := {name};
    var stack := inventory[name].firstParty + inventory[name].devFirstParty;
    forall n | n in First(inventory, name) ensures Reaches(First(inventory, name), Normal(inventory), n) {
      StartReaches(First(inventory, name), Normal(inventory), n);
    }
    while stack != []
      invariant SeenFrom(inventory, name, seen, stack)
      invariant forall x :: x in third <==>
        || x in inventory[name].thirdParty || x in inventory[name].devThirdParty
        || exists m :: m in seen && x in inventory[m].thirdParty
      decreases inventory.Keys - seen, |stack|
    {
      var other := stack[|stack| - 1];
      SeenKeeps(inventory, name, seen, stack);
      stack := stack[..|stack| - 1];
      if other in seen || other !in inventory {
        continue;
      }
      seen := seen + {other};
      third := third + inventory[other].thirdParty;
      stack := stack + inventory[other].firstParty;
    }
    SeenIsClosure(inventory, name, seen);
  }

  lemma SeenKeeps(inventory: Inventory, name: string, seen: set<string>, stack: seq<string>)
    requires name in inventory && stack != [] && SeenFrom(inventory, name, seen, stack)
    ensures var other, rest := stack[|stack| - 1], stack[..|stack| - 1];
      if other in seen || other !in inventory then SeenFrom(inventory, name, seen, rest)
      else SeenFrom(inventory, name, seen + {other}, rest + inventory[other].firstParty)
  {
    var other, rest := stack[|stack| - 1], stack[..|stack| - 1];
    assert other in stack;
    assert forall n | n in stack :: n == other || n in rest;
    if other !in seen && other in inventory {
      forall n | n in inventory[other].firstParty && n in inventory
        ensures Reaches(First(inventory, name), Normal(inventory), n)
      {
        EdgeReaches(First(inventory, name), Normal(inventory), other, n);
      }
    }
  }

  /** With nothing left on the stack, the names seen are the package and its whole closure. */
  lemma SeenIsClosure(inventory: Inventory, name: string, seen: set<string>)
    requires name in inventory && SeenFrom(inventory, name, seen, [])
    ensures forall n | n in inventory && n != name ::
      n in seen <==> Reaches(First(inventory, name), Normal(inventory), n)
  {
    forall n | n in inventory && n != name && Reaches(First(inventory, name), Normal(inventory), n) ensures n in seen {
      var route :| Route(First(inventory, name), Normal(inventory), route) && route[|route| - 1] == n;
      RouteStays(First(inventory, name), Normal(inventory), seen, route);
    }
  }

  method CrossCheckable(inventory: Inventory, present: seq<string>) returns (names: seq<string>)
    requires forall n | n in present :: n in inventory
    ensures forall n :: n in names <==> n in present && Portable(inventory, n)
  {
    names := [];
    for i := 0 to |present|
      invariant forall n :: n in names <==> n in present[..i] && Portable(inventory, n)
    {
      var third := Gather(inventory, present[i]);
      if third !! NATIVE_BUILD {
        names := names + [present[i]];
      }
    }
  }
}
