/** When the order in which manifests are read does not change what `publish_order` answers. */
module ManifestOrder {
  import opened Wrappers
  import opened Names
  import opened PublishOrder

  /** Published manifests that share a name need the same. */
  ghost predicate Agreeing(crates: seq<Manifest>) {
    forall a, b | a in crates && b in crates && a.name == b.name && a.name in Published(crates) ::
      Needs(a, Published(crates)) == Needs(b, Published(crates))
  }

  lemma {:induction false} LastWins(crates: seq<Manifest>, published: set<string>, n: string) returns (c: Manifest)
    requires n in RequirementsOf(crates, published)
    ensures c in crates && c.name == n && RequirementsOf(crates, published)[n] == Needs(c, published)
  {
    var front, last := crates[..|crates| - 1], crates[|crates| - 1];
    if last.name == n && n in published {
      c := last;
    } else {
      c := LastWins(front, published, n);
    }
  }

  lemma SameMembers(crates: seq<Manifest>, other: seq<Manifest>)
    requires multiset(other) == multiset(crates)
    ensures (forall c :: c in other <==> c in crates) && Published(other) == Published(crates)
  {
    forall c ensures c in other <==> c in crates {
      assert c in other <==> c in multiset(other);
      assert c in crates <==> c in multiset(crates);
    }
  }

  lemma AgreeingGraph(crates: seq<Manifest>, other: seq<Manifest>)
    requires Agreeing(crates) && multiset(other) == multiset(crates)
    ensures GraphOf(other) == GraphOf(crates)
  {
    var published := Published(crates);
    SameMembers(crates, other);
    GraphClosed(crates, published);
    GraphClosed(other, published);
    var g, h := GraphOf(crates), GraphOf(other);
    assert h.Keys == g.Keys;
    forall n | n in g ensures h[n] == g[n] {
      var a := LastWins(crates, published, n);
      var b := LastWins(other, published, n);
    }
  }

  lemma {:induction false} RequirementsAppend(a: seq<Manifest>, b: seq<Manifest>, published: set<string>)
    ensures RequirementsOf(a + b, published) == RequirementsOf(a, published) + RequirementsOf(b, published)
  {
    if b == [] {
      assert a + b == a;
    } else {
      assert (a + b)[..|a + b| - 1] == a + b[..|b| - 1];
      RequirementsAppend(a, b[..|b| - 1], published);
    }
  }

  /** Moving a manifest to the end makes its requirements count, and changes no other crate's. */
  lemma MovedLast(crates: seq<Manifest>, c: Manifest) returns (other: seq<Manifest>)
    requires c in crates && c.name in Published(crates)
    ensures multiset(other) == multiset(crates) && Published(other) == Published(crates)
    ensures GraphOf(other) == GraphOf(crates)[c.name := Needs(c, Published(crates))]
  {
    var i :| 0 <= i < |crates| && crates[i] == c;
    var x, y := crates[..i], crates[i + 1..];
    other := x + y + [c];
    assert crates == x + [c] + y;
    SameMembers(crates, other);
    MovedGraph(x, c, y, Published(crates));
  }

  lemma MovedGraph(x: seq<Manifest>, c: Manifest, y: seq<Manifest>, published: set<string>)
    requires c.name in published
    ensures RequirementsOf(x + y + [c], published) ==
      RequirementsOf(x + [c] + y, published)[c.name := Needs(c, published)]
  {
    var one := map[c.name := Needs(c, published)];
    OneRequirement(c, published);
    RequirementsAppend(x + [c], y, published);
    RequirementsAppend(x, [c], published);
    RequirementsAppend(x + y, [c], published);
    RequirementsAppend(x, y, published);
    var a, b := RequirementsOf(x, published), RequirementsOf(y, published);
    assert (a + b) + one == ((a + one) + b)[c.name := Needs(c, published)];
  }

  lemma OneRequirement(c: Manifest, published: set<string>)
    requires c.name in published
    ensures RequirementsOf([c], published) == map[c.name := Needs(c, published)]
  {
    assert [c][..0] == [];
  }

  /** The requirement graph is the same for every order of the manifests exactly when those that share a name agree. */
  lemma SameGraphIff(crates: seq<Manifest>)
    ensures (forall other | multiset(other) == multiset(crates) :: GraphOf(other) == GraphOf(crates))
       <==> Agreeing(crates)
  {
    if Agreeing(crates) {
      forall other | multiset(other) == multiset(crates) ensures GraphOf(other) == GraphOf(crates) {
        AgreeingGraph(crates, other);
      }
    } else {
      var a, b :| a in crates && b in crates && a.name == b.name && a.name in Published(crates)
               && Needs(a, Published(crates)) != Needs(b, Published(crates));
      var withA := MovedLast(crates, a);
      var withB := MovedLast(crates, b);
      assert GraphOf(withA)[a.name] != GraphOf(withB)[a.name];
    }
  }

  /** Two runs over the same agreeing manifests, in any order, end alike. */
  lemma SameAnswer(core: Manifest, crates: seq<Manifest>, other: seq<Manifest>,
                   r: Result<seq<string>, string>, r': Result<seq<string>, string>)
    requires Agreeing(crates) && multiset(other) == multiset(crates)
    requires Answers(core, GraphOf(crates), r) && Answers(core, GraphOf(other), r')
    ensures r.Ok? == r'.Ok? && (r.Ok? ==> r.value == r'.value)
  {
    AgreeingGraph(crates, other);
    OneAnswer(core, GraphOf(crates), r, r');
  }

  /** A graph has one answer, up to the wording of an error. */
  lemma OneAnswer(core: Manifest, g: Graph, r: Result<seq<string>, string>, r': Result<seq<string>, string>)
    requires Answers(core, g, r) && Answers(core, g, r')
    ensures r.Ok? == r'.Ok? && (r.Ok? ==> r.value == r'.value)
  {
    if r.Ok? {
      FirstOrderIsUnique(g, r.value[..|r.value| - 1], r'.value[..|r'.value| - 1]);
      assert r.value == r.value[..|r.value| - 1] + [core.name];
      assert r'.value == r'.value[..|r'.value| - 1] + [core.name];
    }
  }

  // ----- when the answer does not depend on the order of the manifests

  /**
   A crate `n` with these needs stands where the schedule would put it: after its needs, and
   ready at no earlier place that a later name took.
   */
  ghost predicate InPlace(n: string, needs: set<string>, order: seq<string>) {
    exists p :: 0 <= p < |order| && PlacedAt(n, needs, order, p)
  }

  predicate PlacedAt(n: string, needs: set<string>, order: seq<string>, p: nat)
    requires p < |order|
  {
    && order[p] == n && needs <= Elements(order[..p])
    && forall i | 0 <= i < p && Less(n, order[i]) :: !(needs <= Elements(order[..i]))
  }

  ghost predicate AllInPlace(crates: seq<Manifest>, order: seq<string>) {
    forall c | c in crates && c.name in Published(crates) :: InPlace(c.name, Needs(c, Published(crates)), order)
  }

  /** One manifest for every published name. */
  ghost predicate Choice(crates: seq<Manifest>, pick: map<string, Manifest>) {
    pick.Keys == Published(crates) && forall n | n in pick :: pick[n] in crates && pick[n].name == n
  }

  ghost function ChosenGraph(crates: seq<Manifest>, pick: map<string, Manifest>): Graph {
    map n | n in pick :: Needs(pick[n], Published(crates))
  }

  /** `order` with the crate at `j` moved up to `i`: which place of `order` stands at `k`. */
  function Source(i: nat, j: nat, k: nat): nat {
    if k == i then j else if i < k <= j then k - 1 else k
  }

  function MoveUp(order: seq<string>, i: nat, j: nat): (t: seq<string>)
    requires i <= j < |order|
    ensures |t| == |order| && t[..i] == order[..i] && t[i] == order[j]
  {
    seq(|order|, k requires 0 <= k < |order| => order[Source(i, j, k)])
  }

  /** What stood before place `p` still stands before the place it moved to. */
  lemma StillBefore(order: seq<string>, i: nat, j: nat, k: nat, n: string)
    requires i <= j < |order| && k < |order|
    requires n in order[..if k == i then i else Source(i, j, k)]
    ensures n in MoveUp(order, i, j)[..k]
  {
    var t := MoveUp(order, i, j);
    var m :| 0 <= m < (if k == i then i else Source(i, j, k)) && order[m] == n;
    var at := if m == j then i else if i <= m < j then m + 1 else m;
    assert Source(i, j, at) == m && at < k;
    assert t[..k][at] == n;
  }

  lemma MovedElements(order: seq<string>, i: nat, j: nat)
    requires i <= j < |order|
    ensures Elements(MoveUp(order, i, j)) == Elements(order)
  {
    var t := MoveUp(order, i, j);
    forall n | n in order ensures n in t {
      var m :| 0 <= m < |order| && order[m] == n;
      var at := if m == j then i else if i <= m < j then m + 1 else m;
      assert Source(i, j, at) == m;
      assert t[at] == n;
    }
  }

  /** Moving a ready crate up gives another order of the same crates. */
  lemma MovedUp(g: Graph, order: seq<string>, i: nat, j: nat)
    requires Topological(g, order) && i <= j < |order| && g[order[j]] <= Elements(order[..i])
    ensures Topological(g, MoveUp(order, i, j))
  {
    var t := MoveUp(order, i, j);
    MovedElements(order, i, j);
    forall k | 0 <= k < |t| ensures g[t[k]] <= Elements(t[..k]) {
      forall n | n in g[t[k]] ensures n in t[..k] {
        assert n in order[..if k == i then i else Source(i, j, k)];
        StillBefore(order, i, j, k, n);
      }
    }
    assert forall k, m | 0 <= k < m < |t| :: Source(i, j, k) != Source(i, j, m);
  }

  lemma {:induction false} EarlierAt(a: seq<string>, b: seq<string>, i: nat)
    requires Earlier(a, b) && i < |a| && i < |b| && a[..i] == b[..i]
    ensures Leq(a[i], b[i])
  {
    Irreflexive(a[0]);
    if i > 0 {
      assert a[0] == a[..i][0] && b[0] == b[..i][0];
      assert a[1..][..i - 1] == a[..i][1..] && b[1..][..i - 1] == b[..i][1..];
      EarlierAt(a[1..], b[1..], i - 1);
    }
  }

  lemma NotPassedOver(g: Graph, order: seq<string>, i: nat, p: nat)
    requires FirstOrder(g, order) && i <= p < |order| && g[order[p]] <= Elements(order[..i])
    ensures !Less(order[p], order[i])
  {
    MovedUp(g, order, i, p);
    EarlierAt(order, MoveUp(order, i, p), i);
    Irreflexive(order[p]);
    if Less(order[p], order[i]) && Less(order[i], order[p]) {
      Transitive(order[p], order[i], order[p]);
    }
  }

  /** In the first order no ready crate is passed over by a later name. */
  lemma FirstIsInPlace(g: Graph, order: seq<string>, n: string)
    requires FirstOrder(g, order) && n in g
    ensures InPlace(n, g[n], order)
  {
    assert n in Elements(order);
    var p :| 0 <= p < |order| && order[p] == n;
    forall i | 0 <= i < p && Less(n, order[i]) ensures !(g[n] <= Elements(order[..i])) {
      if g[n] <= Elements(order[..i]) {
        NotPassedOver(g, order, i, p);
      }
    }
    assert PlacedAt(n, g[n], order, p);
  }

  /** An order in which every crate is in place is the first one. */
  lemma InPlaceIsFirst(g: Graph, order: seq<string>)
    requires Elements(order) == g.Keys && forall i, j | 0 <= i < j < |order| :: order[i] != order[j]
    requires forall n | n in g :: InPlace(n, g[n], order)
    ensures FirstOrder(g, order)
  {
    forall i | 0 <= i < |order| ensures order[i] in g && g[order[i]] <= Elements(order[..i]) {
      NeedsBefore(g, order, i);
    }
    forall i, n | 0 <= i < |order| && Ready(g, order[..i], n) ensures Leq(order[i], n) {
      LeastReady(order, i, n, g[n]);
    }
    GreedyIsFirst(g, order);
  }

  lemma NeedsBefore(g: Graph, order: seq<string>, i: nat)
    requires i < |order| && Elements(order) == g.Keys && forall k, j | 0 <= k < j < |order| :: order[k] != order[j]
    requires forall n | n in g :: InPlace(n, g[n], order)
    ensures order[i] in g && g[order[i]] <= Elements(order[..i])
  {
    assert order[i] in Elements(order);
    var p :| 0 <= p < |order| && PlacedAt(order[i], g[order[i]], order, p);
  }

  lemma LeastReady(order: seq<string>, i: nat, n: string, needs: set<string>)
    requires i < |order| && InPlace(n, needs, order) && n !in order[..i] && needs <= Elements(order[..i])
    ensures Leq(order[i], n)
  {
    var p :| 0 <= p < |order| && PlacedAt(n, needs, order, p);
    Connected(order[i], n);
  }

  /** Some order of the manifests makes any choice count. */
  lemma ChoiceIsRealised(crates: seq<Manifest>, pick: map<string, Manifest>, names: set<string>)
    returns (other: seq<Manifest>)
    requires Choice(crates, pick) && names <= pick.Keys
    ensures multiset(other) == multiset(crates) && Published(other) == Published(crates)
    ensures GraphOf(other).Keys == pick.Keys
    ensures forall n | n in names :: GraphOf(other)[n] == Needs(pick[n], Published(crates))
    decreases names
  {
    if names == {} {
      other := crates;
      GraphClosed(crates, Published(crates));
    } else {
      var n :| n in names;
      var before := ChoiceIsRealised(crates, pick, names - {n});
      SameMembers(crates, before);
      other := MovedLast(before, pick[n]);
    }
  }

  /** The graph that an order of the manifests gives is one of the choices. */
  lemma OrderIsChoice(crates: seq<Manifest>, other: seq<Manifest>) returns (pick: map<string, Manifest>)
    requires multiset(other) == multiset(crates)
    ensures Choice(crates, pick) && ChosenGraph(crates, pick) == GraphOf(other)
  {
    var published := Published(crates);
    SameMembers(crates, other);
    GraphClosed(other, published);
    forall n | n in published
      ensures exists c :: c in crates && c.name == n && GraphOf(other)[n] == Needs(c, published)
    {
      var c := LastWins(other, published, n);
    }
    pick := map n | n in published ::
      var c :| c in crates && c.name == n && GraphOf(other)[n] == Needs(c, published); c;
  }

  /** Whichever manifests count, each of these crates waits for another of them. */
  ghost predicate Jammed(crates: seq<Manifest>, names: set<string>) {
    && names != {} && names <= Published(crates)
    && forall c {:trigger Needs(c, Published(crates))} | c in crates && c.name in names ::
         Needs(c, Published(crates)) * names != {}
  }

  /** An order of the published crates that suits every manifest, whichever count. */
  ghost predicate Suits(crates: seq<Manifest>, order: seq<string>) {
    && Elements(order) == Published(crates) && (forall i, j | 0 <= i < j < |order| :: order[i] != order[j])
    && AllInPlace(crates, order)
  }

  /** Crates placed one by one, each by a manifest whose needs have been placed. */
  ghost predicate Placed(crates: seq<Manifest>, pick: map<string, Manifest>, order: seq<string>) {
    && Elements(order) == pick.Keys <= Published(crates)
    && (forall i, j | 0 <= i < j < |order| :: order[i] != order[j])
    && (forall n | n in pick :: pick[n] in crates && pick[n].name == n)
    && forall i | 0 <= i < |order| ::
         order[i] in pick && Needs(pick[order[i]], Published(crates)) <= Elements(order[..i])
  }

  lemma PlaceOne(crates: seq<Manifest>, pick: map<string, Manifest>, order: seq<string>, c: Manifest)
    requires Placed(crates, pick, order) && c in crates && c.name in Published(crates) && c.name !in pick
    requires Needs(c, Published(crates)) <= pick.Keys
    ensures Placed(crates, pick[c.name := c], order + [c.name])
  {
    var more := order + [c.name];
    forall i | 0 <= i < |more|
      ensures more[i] in pick[c.name := c]
      ensures Needs(pick[c.name := c][more[i]], Published(crates)) <= Elements(more[..i])
    {
      if i < |order| {
        assert order[i] in Elements(order) && more[..i] == order[..i];
      } else {
        assert more[..i] == order;
      }
    }
  }

  /** Where nothing is jammed, all crates can be placed. */
  lemma {:induction false} PlaceAll(crates: seq<Manifest>, pick: map<string, Manifest>, order: seq<string>)
    returns (all: map<string, Manifest>)
    requires Placed(crates, pick, order) && !exists names :: Jammed(crates, names)
    ensures Choice(crates, all) && !HasCycle(ChosenGraph(crates, all))
    decreases Published(crates) - pick.Keys
  {
    var published := Published(crates);
    var left := published - pick.Keys;
    if left == {} {
      all := pick;
      NoCycle(ChosenGraph(crates, pick), order);
    } else {
      assert !Jammed(crates, left);
      var c :| c in crates && c.name in left && Needs(c, published) * left == {};
      forall n | n in Needs(c, published) ensures n in pick {
        assert n !in Needs(c, published) * left;
      }
      PlaceOne(crates, pick, order, c);
      all := PlaceAll(crates, pick[c.name := c], order + [c.name]);
    }
  }

  lemma JammedHasCycle(crates: seq<Manifest>, pick: map<string, Manifest>, names: set<string>)
    requires Jammed(crates, names) && Choice(crates, pick)
    ensures HasCycle(ChosenGraph(crates, pick))
  {
    Stuck(ChosenGraph(crates, pick), names);
  }

  /** Every order of the manifests gives a graph with a cycle exactly when some crates are jammed. */
  lemma AllCyclesIff(crates: seq<Manifest>)
    ensures (forall other | multiset(other) == multiset(crates) :: HasCycle(GraphOf(other)))
       <==> exists names :: Jammed(crates, names)
  {
    if names :| Jammed(crates, names) {
      forall other | multiset(other) == multiset(crates) ensures HasCycle(GraphOf(other)) {
        var pick := OrderIsChoice(crates, other);
        JammedHasCycle(crates, pick, names);
      }
    } else {
      var pick := PlaceAll(crates, map[], []);
      var other := ChoiceIsRealised(crates, pick, pick.Keys);
      assert GraphOf(other) == ChosenGraph(crates, pick);
    }
  }

  /** An order that suits every manifest is the first one, whatever order the manifests come in. */
  lemma SuitsAll(crates: seq<Manifest>, other: seq<Manifest>, order: seq<string>)
    requires Suits(crates, order) && multiset(other) == multiset(crates)
    ensures FirstOrder(GraphOf(other), order) && !HasCycle(GraphOf(other))
  {
    var published := Published(crates);
    SameMembers(crates, other);
    GraphClosed(other, published);
    forall n | n in GraphOf(other) ensures InPlace(n, GraphOf(other)[n], order) {
      var c := LastWins(other, published, n);
    }
    InPlaceIsFirst(GraphOf(other), order);
    NoCycle(GraphOf(other), order);
  }

  lemma SameForAll(core: Manifest, crates: seq<Manifest>, r: Result<seq<string>, string>)
    requires r.Ok? && forall other | multiset(other) == multiset(crates) :: Answers(core, GraphOf(other), r)
    ensures r.value != [] && Suits(crates, r.value[..|r.value| - 1])
  {
    assert Answers(core, GraphOf(crates), r);
    GraphClosed(crates, Published(crates));
    forall c | c in crates && c.name in Published(crates)
      ensures InPlace(c.name, Needs(c, Published(crates)), r.value[..|r.value| - 1])
    {
      var other := MovedLast(crates, c);
      FirstIsInPlace(GraphOf(other), r.value[..|r.value| - 1], c.name);
    }
  }

  /**
   Every order of the manifests is answered alike exactly when some crates are jammed, so that there
   is a cycle whichever manifests count, or some order suits every manifest.
   */
  lemma OrderIndependence(core: Manifest, crates: seq<Manifest>, r: Result<seq<string>, string>)
    requires Answers(core, GraphOf(crates), r)
    ensures (forall other | multiset(other) == multiset(crates) :: Answers(core, GraphOf(other), r))
       <==> (exists names :: Jammed(crates, names)) || exists order :: Suits(crates, order)
  {
    AllCyclesIff(crates);
    if order :| Suits(crates, order) {
      forall other | multiset(other) == multiset(crates) ensures Answers(core, GraphOf(other), r) {
        SuitsAnswer(core, crates, other, order, r);
      }
    } else if r.Ok? && forall other | multiset(other) == multiset(crates) :: Answers(core, GraphOf(other), r) {
      SameForAll(core, crates, r);
    }
  }

  lemma SuitsAnswer(core: Manifest, crates: seq<Manifest>, other: seq<Manifest>, order: seq<string>,
                    r: Result<seq<string>, string>)
    requires Suits(crates, order) && multiset(other) == multiset(crates) && Answers(core, GraphOf(crates), r)
    ensures Answers(core, GraphOf(other), r)
  {
    SuitsAll(crates, crates, order);
    SuitsAll(crates, other, order);
    FirstOrderIsUnique(GraphOf(crates), order, r.value[..|r.value| - 1]);
  }

  // ----- manifests that share a name

  const PLAIN_A := Manifest("a", [])
  const NEEDY_A := Manifest("a", [Table(Dependencies, map["b" := None])])
  const PLAIN_B := Manifest("b", [])
  const NEEDY_B := Manifest("b", [Table(Dependencies, map["a" := None])])

  lemma ExampleNeeds()
    ensures Needs(PLAIN_A, {"a", "b"}) == {} == Needs(PLAIN_B, {"a", "b"})
    ensures Needs(NEEDY_A, {"a", "b"}) == {"b"} && Needs(NEEDY_B, {"a", "b"}) == {"a"}
  {
    assert NEEDY_A.tables[0] in NEEDY_A.tables && NEEDY_B.tables[0] in NEEDY_B.tables;
    assert Package(NEEDY_A.tables[0], "b") == "b" && Package(NEEDY_B.tables[0], "a") == "a";
    assert NeedsIn(NEEDY_A.tables[0], "b") && NeedsIn(NEEDY_B.tables[0], "a");
  }

  /** The graph of three manifests of which the last two have different names. */
  lemma ThreeManifests(x: Manifest, y: Manifest, z: Manifest)
    requires {x.name, y.name, z.name} == {"a", "b"} && y.name != z.name
    ensures Published([x, y, z]) == {"a", "b"}
    ensures GraphOf([x, y, z]) == map[y.name := Needs(y, {"a", "b"}), z.name := Needs(z, {"a", "b"})]
  {
    var crates := [x, y, z];
    assert crates[0] in crates && crates[1] in crates && crates[2] in crates;
    assert Published(crates) == {"a", "b"};
    ThreeRequirements(x, y, z, {"a", "b"});
  }

  lemma ThreeRequirements(x: Manifest, y: Manifest, z: Manifest, published: set<string>)
    requires {x.name, y.name, z.name} <= published && (x.name == y.name || x.name == z.name)
    ensures RequirementsOf([x, y, z], published) ==
      map[y.name := Needs(y, published)] + map[z.name := Needs(z, published)]
  {
    assert [x, y, z] == [x] + [y] + [z];
    RequirementsAppend([x] + [y], [z], published);
    RequirementsAppend([x], [y], published);
    OneRequirement(x, published);
    OneRequirement(y, published);
    OneRequirement(z, published);
  }

  lemma TwoInOrder(core: Manifest, g: Graph, x: string, y: string)
    requires x != y && g.Keys == {x, y} && g[x] == {} && g[y] <= {x} && (g[y] == {} ==> Less(x, y))
    ensures Answers(core, g, Ok([x, y, core.name]))
  {
    var order := [x, y];
    assert Elements(order) == {x, y} && Elements(order[..1]) == {x} && Elements(order[..0]) == {};
    if Less(y, x) && Less(x, y) {
      Transitive(x, y, x);
      Irreflexive(x);
    }
    assert PlacedAt(x, g[x], order, 0) && PlacedAt(y, g[y], order, 1);
    InPlaceIsFirst(g, order);
    NoCycle(g, order);
    assert [x, y, core.name][..2] == order;
  }

  /** The answer for three manifests of which the last two, in either order, are `first` and `second`. */
  lemma ThreeAnswer(core: Manifest, crates: seq<Manifest>, first: Manifest, second: Manifest)
    requires |crates| == 3 && crates[0].name in {"a", "b"} && {first.name, second.name} == {"a", "b"}
    requires crates[1..] == [first, second] || crates[1..] == [second, first]
    requires Needs(first, {"a", "b"}) == {} && Needs(second, {"a", "b"}) <= {first.name}
    requires Needs(second, {"a", "b"}) == {} ==> Less(first.name, second.name)
    ensures Answers(core, GraphOf(crates), Ok([first.name, second.name, core.name]))
  {
    assert crates == [crates[0]] + crates[1..] == [crates[0], crates[1], crates[2]];
    ThreeManifests(crates[0], crates[1], crates[2]);
    TwoInOrder(core, GraphOf(crates), first.name, second.name);
  }

  lemma Swapped(x: Manifest, y: Manifest, z: Manifest)
    ensures multiset([x, y, z]) == multiset([y, x, z])
  {
  }

  /** Two manifests of one name that disagree: which one is read last decides what is published first. */
  lemma SharedNameMatters(core: Manifest) returns (crates: seq<Manifest>, other: seq<Manifest>)
    ensures crates == [NEEDY_A, PLAIN_A, PLAIN_B] && other == [PLAIN_A, NEEDY_A, PLAIN_B]
    ensures multiset(other) == multiset(crates)
    ensures Answers(core, GraphOf(crates), Ok(["a", "b", core.name]))
    ensures Answers(core, GraphOf(other), Ok(["b", "a", core.name]))
  {
    crates, other := [NEEDY_A, PLAIN_A, PLAIN_B], [PLAIN_A, NEEDY_A, PLAIN_B];
    ExampleNeeds();
    Swapped(PLAIN_A, NEEDY_A, PLAIN_B);
    ThreeAnswer(core, crates, PLAIN_A, PLAIN_B);
    ThreeAnswer(core, other, PLAIN_B, NEEDY_A);
  }

  lemma TwoInPlace(crates: seq<Manifest>)
    requires Published(crates) == {"a", "b"}
    requires forall c | c in crates :: Needs(c, {"a", "b"}) <= if c.name == "b" then {"a"} else {}
    ensures Suits(crates, ["a", "b"])
  {
    var order := ["a", "b"];
    assert Elements(order) == {"a", "b"} && order[..1] == ["a"] && order[..0] == [];
    forall c | c in crates && c.name in Published(crates) ensures InPlace(c.name, Needs(c, {"a", "b"}), order) {
      assert PlacedAt(c.name, Needs(c, {"a", "b"}), order, if c.name == "b" then 1 else 0);
    }
  }

  /** Two that disagree without any consequence: every order of the files gives the same answer. */
  lemma SharedNameMayNotMatter(core: Manifest) returns (crates: seq<Manifest>)
    ensures crates == [PLAIN_B, NEEDY_B, PLAIN_A] && !Agreeing(crates)
    ensures forall other | multiset(other) == multiset(crates) ::
      Answers(core, GraphOf(other), Ok(["a", "b", core.name]))
  {
    crates := [PLAIN_B, NEEDY_B, PLAIN_A];
    ExampleNeeds();
    ThreeManifests(PLAIN_B, NEEDY_B, PLAIN_A);
    assert crates[0] in crates && crates[1] in crates;
    ThreeAnswer(core, crates, PLAIN_A, NEEDY_B);
    TwoInPlace(crates);
    OrderIndependence(core, crates, Ok(["a", "b", core.name]));
  }
}
