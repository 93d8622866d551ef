/** `internal_requirements` and `publish_order`: the order in which crates are published. */
module PublishOrder {
  import opened Wrappers
  import opened Names
  import opened Sets

  datatype TableKind = Dependencies | BuildDependencies | DevDependencies

  /** One dependency table; an entry may name another package than its key. */
  datatype Table = Table(kind: TableKind, entries: map<string, Option<string>>)

  datatype Manifest = Manifest(name: string, tables: seq<Table>)

  type Graph = map<string, set<string>>

  const UNPUBLISHED: set<string> := {"gwz-local-testrepo"}

  function Package(t: Table, key: string): string
    requires key in t.entries
  {
    match t.entries[key] case Some(p) => p case None => key
  }

  /** What only tests use does not count at publish time. */
  predicate Versioned(t: Table) {
    !t.kind.DevDependencies?
  }

  ghost predicate NeedsIn(t: Table, package: string) {
    Versioned(t) && exists key :: key in t.entries && Package(t, key) == package
  }

  /** What a crate needs at publish time, declared. */
  ghost function Needs(crate: Manifest, published: set<string>): set<string> {
    set p | p in published && exists t :: t in crate.tables && NeedsIn(t, p)
  }

  method InternalRequirements(crate: Manifest, published: set<string>) returns (needs: set<string>)
    ensures needs == Needs(crate, published)
  {
    needs := {};
    for i := 0 to |crate.tables|
      invariant needs == set p | p in published && exists t :: t in crate.tables[..i] && NeedsIn(t, p)
    {
      assert crate.tables[..i + 1] == crate.tables[..i] + [crate.tables[i]];
      var more := TableRequirements(crate.tables[i], published);
      needs := needs + more;
    }
    assert crate.tables[..|crate.tables|] == crate.tables;
  }

  /** The inner loop: the published packages one table names. */
  method TableRequirements(t: Table, published: set<string>) returns (needs: set<string>)
    ensures needs == set p | p in published && NeedsIn(t, p)
  {
    needs := {};
    if Versioned(t) {
      var left := t.entries.Keys;
      while left != {}
        invariant left <= t.entries.Keys
        invariant needs == set p | p in published && exists key :: key in t.entries.Keys - left && Package(t, key) == p
        decreases left
      {
        var key :| key in left;
        left := left - {key};
        if Package(t, key) in published {
          needs := needs + {Package(t, key)};
        }
      }
    }
  }

  // ----- the graph

  function Published(crates: seq<Manifest>): set<string> {
    set c | c in crates && c.name !in UNPUBLISHED :: c.name
  }

  /** The requirements by crate name; of crates with one name the last counts. */
  ghost function RequirementsOf(crates: seq<Manifest>, published: set<string>): Graph {
    if crates == [] then map[]
    else
      var last := crates[|crates| - 1];
      var g := RequirementsOf(crates[..|crates| - 1], published);
      if last.name in published then g[last.name := Needs(last, published)] else g
  }

  ghost function GraphOf(crates: seq<Manifest>): Graph {
    RequirementsOf(crates, Published(crates))
  }

  function Elements(order: seq<string>): set<string> {
    set n | n in order
  }

  /** Every crate once, each after everything it needs. */
  ghost predicate Topological(g: Graph, order: seq<string>) {
    && Elements(order) == g.Keys
    && (forall i, j | 0 <= i < j < |order| :: order[i] != order[j])
    && (forall i | 0 <= i < |order| :: g[order[i]] <= Elements(order[..i]))
  }

  /** A walk along requirements that comes back to its start; a crate needing itself is one. */
  ghost predicate Cycle(g: Graph, walk: seq<string>) {
    |walk| >= 2 && walk[0] == walk[|walk| - 1] && Walk(g, walk)
  }

  ghost predicate Walk(g: Graph, walk: seq<string>) {
    walk != [] && walk[0] in g && (|walk| > 1 ==> walk[1] in g[walk[0]] && Walk(g, walk[1..]))
  }

  ghost predicate HasCycle(g: Graph) {
    exists walk :: Cycle(g, walk)
  }

  predicate Earlier(a: seq<string>, b: seq<string>) {
    a == [] || (b != [] && (Less(a[0], b[0]) || (a[0] == b[0] && Earlier(a[1..], b[1..]))))
  }

  /** The alphabetically first of all orders that respect the requirements. */
  ghost predicate FirstOrder(g: Graph, order: seq<string>) {
    Topological(g, order) && forall t | Topological(g, t) :: Earlier(order, t)
  }

  /** The first order followed by the core, or an error exactly when there is a cycle. */
  ghost predicate Answers(core: Manifest, g: Graph, r: Result<seq<string>, string>) {
    && (r.Ok? <==> !HasCycle(g))
    && (r.Ok? ==>
      && r.value != [] && r.value[|r.value| - 1] == core.name
      && FirstOrder(g, r.value[..|r.value| - 1]))
  }

  method GatherRequirements(crates: seq<Manifest>, published: set<string>) returns (remaining: Graph)
    ensures remaining == RequirementsOf(crates, published)
  {
    remaining := map[];
    for i := 0 to |crates|
      invariant remaining == RequirementsOf(crates[..i], published)
    {
      assert crates[..i + 1][..i] == crates[..i];
      if crates[i].name in published {
        var needs := InternalRequirements(crates[i], published);
        remaining := remaining[crates[i].name := needs];
      }
    }
    assert crates[..|crates|] == crates;
  }

  /** Kahn's algorithm with the alphabetically first ready crate at every step. */
  method Schedule(g: Graph) returns (r: Option<seq<string>>)
    requires forall n | n in g :: g[n] <= g.Keys
    ensures r.Some? ==> FirstOrder(g, r.value)
    ensures r.None? ==> HasCycle(g)
  {
    var remaining, order: seq<string>, placed: set<string> := g, [], {};
    while remaining != map[]
      invariant placed == Elements(order) && remaining.Keys == g.Keys - placed && placed <= g.Keys
      invariant forall n | n in remaining :: remaining[n] == g[n]
      invariant Greedy(g, order)
      decreases remaining.Keys
    {
      var ready := set n | n in remaining && remaining[n] <= placed;
      if ready == {} {
        assert remaining.Keys != {};
        Stuck(g, remaining.Keys);
        return None;
      }
      var chosen := Least(ready);
      GreedyStep(g, order, chosen);
      order, placed, remaining := order + [chosen], placed + {chosen}, remaining - {chosen};
    }
    assert g.Keys - placed == {};
    GreedyIsFirst(g, order);
    r := Some(order);
  }

  /** The published internals in order, then the core. */
  method PublishOrder(core: Manifest, crates: seq<Manifest>) returns (r: Result<seq<string>, string>)
    ensures Answers(core, GraphOf(crates), r)
  {
    var published := Published(crates);
    var needs := GatherRequirements(crates, published);
    GraphClosed(crates, published);
    var order := Schedule(needs);
    match order
    case None =>
      r := Err("the internal dependency edges have no publish order");
    case Some(names) =>
      NoCycle(needs, names);
      r := Ok(names + [core.name]);
      assert r.value[..|r.value| - 1] == names;
  }

  // ----- the greedy choice gives the first order

  /** Each crate of `order` is the first of those that were ready in its place. */
  ghost predicate Greedy(g: Graph, order: seq<string>) {
    && (forall i, j | 0 <= i < j < |order| :: order[i] != order[j])
    && (forall i | 0 <= i < |order| :: order[i] in g && g[order[i]] <= Elements(order[..i]))
    && (forall i, n | 0 <= i < |order| && Ready(g, order[..i], n) :: Leq(order[i], n))
  }

  ghost predicate Ready(g: Graph, placed: seq<string>, n: string) {
    n in g && n !in placed && g[n] <= Elements(placed)
  }

  lemma GreedyStep(g: Graph, order: seq<string>, chosen: string)
    requires Greedy(g, order) && Ready(g, order, chosen)
    requires forall n | Ready(g, order, n) :: Leq(chosen, n)
    ensures Greedy(g, order + [chosen])
  {
    var longer := order + [chosen];
    assert forall i | 0 <= i <= |order| :: longer[..i] == order[..i];
    assert order[..|order|] == order;
  }

  lemma {:induction false} GreedyFrom(g: Graph, order: seq<string>, t: seq<string>, i: nat)
    requires Greedy(g, order) && Topological(g, t) && |t| == |order|
    requires i <= |order| && order[..i] == t[..i]
    ensures Earlier(order[i..], t[i..])
    decreases |order| - i
  {
    if i < |order| {
      assert t[i] !in t[..i];
      assert Ready(g, order[..i], t[i]);
      assert order[i..][1..] == order[i + 1..] && t[i..][1..] == t[i + 1..];
      if order[i] == t[i] {
        assert order[..i + 1] == order[..i] + [order[i]] == t[..i + 1];
        GreedyFrom(g, order, t, i + 1);
      }
    }
  }

  lemma {:induction false} DistinctLength(order: seq<string>)
    requires forall i, j | 0 <= i < j < |order| :: order[i] != order[j]
    ensures |order| == |Elements(order)|
  {
    if order != [] {
      var front := order[..|order| - 1];
      DistinctLength(front);
      assert order == front + [order[|order| - 1]];
      assert Elements(order) == Elements(front) + {order[|order| - 1]};
    }
  }

  lemma GreedyIsFirst(g: Graph, order: seq<string>)
    requires Greedy(g, order) && Elements(order) == g.Keys
    ensures FirstOrder(g, order)
  {
    forall t | Topological(g, t) ensures Earlier(order, t) {
      DistinctLength(order);
      DistinctLength(t);
      GreedyFrom(g, order, t, 0);
      assert order[0..] == order && t[0..] == t;
    }
  }

  lemma {:induction false} EarlierBothWays(a: seq<string>, b: seq<string>)
    requires Earlier(a, b) && Earlier(b, a)
    ensures a == b
  {
    if a != [] && b != [] {
      if Less(a[0], b[0]) && Less(b[0], a[0]) {
        Transitive(a[0], b[0], a[0]);
      }
      Irreflexive(a[0]);
      EarlierBothWays(a[1..], b[1..]);
      assert a == [a[0]] + a[1..] && b == [b[0]] + b[1..];
    }
  }

  /** A graph has at most one first order, so the result depends on the graph alone. */
  lemma FirstOrderIsUnique(g: Graph, a: seq<string>, b: seq<string>)
    requires FirstOrder(g, a) && FirstOrder(g, b)
    ensures a == b
  {
    EarlierBothWays(a, b);
  }

  // ----- cycles

  /** In an order, following requirements leads strictly towards the front. */
  lemma {:induction false} WalkGoesDown(g: Graph, order: seq<string>, walk: seq<string>, at: nat) returns (end: nat)
    requires Topological(g, order) && Walk(g, walk) && walk != [] && at < |order| && order[at] == walk[0]
    ensures end < |order| && order[end] == walk[|walk| - 1] && end + |walk| - 1 <= at
    decreases |walk|
  {
    if |walk| == 1 {
      end := at;
    } else {
      assert walk[1] in Elements(order[..at]);
      var next :| 0 <= next < at && order[next] == walk[1];
      end := WalkGoesDown(g, order, walk[1..], next);
    }
  }

  lemma NoCycle(g: Graph, order: seq<string>)
    requires Topological(g, order)
    ensures !HasCycle(g)
  {
    forall walk | Cycle(g, walk) ensures false {
      assert walk[0] in Elements(order);
      var at :| 0 <= at < |order| && order[at] == walk[0];
      var end := WalkGoesDown(g, order, walk, at);
    }
  }

  /** Crates that all wait for one another hold a cycle. */
  lemma Stuck(g: Graph, waiting: set<string>)
    requires waiting != {} && waiting <= g.Keys
    requires forall n | n in waiting :: g[n] * waiting != {}
    ensures HasCycle(g)
  {
    var n :| n in waiting;
    Chase(g, waiting, [n]);
  }

  lemma {:induction false} Chase(g: Graph, waiting: set<string>, walk: seq<string>)
    requires waiting <= g.Keys && forall n | n in waiting :: g[n] * waiting != {}
    requires Walk(g, walk) && Elements(walk) <= waiting
    requires forall i, j | 0 <= i < j < |walk| :: walk[i] != walk[j]
    ensures HasCycle(g)
    decreases |waiting| - |walk|
  {
    var last := walk[|walk| - 1];
    assert last in Elements(walk);
    var next :| next in g[last] * waiting;
    WalkOn(g, walk, next);
    var longer := walk + [next];
    assert longer[|walk|] == next && longer[|walk| - 1] == last;
    if next in walk {
      var i :| 0 <= i < |walk| && walk[i] == next;
      WalkFrom(g, longer, i);
      assert Cycle(g, longer[i..]);
    } else {
      RoomLeft(walk, next, waiting);
      Chase(g, waiting, longer);
    }
  }

  lemma RoomLeft(walk: seq<string>, next: string, waiting: set<string>)
    requires forall i, j | 0 <= i < j < |walk| :: walk[i] != walk[j]
    requires next !in walk && Elements(walk) <= waiting && next in waiting
    ensures Elements(walk + [next]) <= waiting && |walk| < |waiting|
  {
    DistinctLength(walk + [next]);
    SubsetSize(Elements(walk + [next]), waiting);
  }

  lemma {:induction false} WalkOn(g: Graph, walk: seq<string>, next: string)
    requires Walk(g, walk) && next in g && walk[|walk| - 1] in g && next in g[walk[|walk| - 1]]
    ensures Walk(g, walk + [next])
  {
    assert (walk + [next])[1..] == walk[1..] + [next];
    if |walk| > 1 {
      WalkOn(g, walk[1..], next);
    } else {
      assert walk + [next] == [walk[0], next];
    }
  }

  lemma {:induction false} WalkFrom(g: Graph, walk: seq<string>, i: nat)
    requires Walk(g, walk) && i < |walk|
    ensures Walk(g, walk[i..])
  {
    if i == 0 {
      assert walk[0..] == walk;
    } else {
      WalkFrom(g, walk[1..], i - 1);
      assert walk[1..][i - 1..] == walk[i..];
    }
  }

  lemma {:induction false} GraphClosed(crates: seq<Manifest>, published: set<string>)
    ensures var g := RequirementsOf(crates, published);
            && g.Keys == (set c | c in crates && c.name in published :: c.name)
            && forall n | n in g :: g[n] <= published
  {
    if crates != [] {
      var front, last := crates[..|crates| - 1], crates[|crates| - 1];
      GraphClosed(front, published);
      assert forall c :: c in crates <==> c in front || c == last;
    }
  }

  // ----- what the order promises

  /** Everything a published crate or the core needs is published before it. */
  lemma NeedsComeFirst(core: Manifest, crates: seq<Manifest>, r: Result<seq<string>, string>, i: nat)
    requires Answers(core, GraphOf(crates), r) && r.Ok? && i < |r.value|
    ensures i < |r.value| - 1 ==>
      r.value[i] in GraphOf(crates) && GraphOf(crates)[r.value[i]] <= Elements(r.value[..i])
    ensures i == |r.value| - 1 ==> Needs(core, Published(crates)) <= Elements(r.value[..i])
  {
    var order := r.value[..|r.value| - 1];
    GraphClosed(crates, Published(crates));
    if i < |r.value| - 1 {
      assert order[i] == r.value[i] && order[..i] == r.value[..i];
      assert order[i] in Elements(order);
    }
  }
}
