/** What a worklist must find: everything some route leads to. */
module Reachability {
  type Edges = map<string, set<string>>

  predicate Edge(edges: Edges, m: string, n: string) {
    m in edges && n in edges[m]
  }

  /** A route begins at a start and follows edges. */
  predicate Route(starts: set<string>, edges: Edges, route: seq<string>) {
    && route != []
    && (if |route| == 1 then route[0] in starts
        else Route(starts, edges, route[..|route| - 1]) && Edge(edges, route[|route| - 2], route[|route| - 1]))
  }

  ghost predicate Reaches(starts: set<string>, edges: Edges, n: string) {
    exists route :: Route(starts, edges, route) && route[|route| - 1] == n
  }

  lemma StartReaches(starts: set<string>, edges: Edges, n: string)
    requires n in starts
    ensures Reaches(starts, edges, n)
  {
    assert Route(starts, edges, [n]);
  }

  lemma EdgeReaches(starts: set<string>, edges: Edges, m: string, n: string)
    requires Reaches(starts, edges, m) && Edge(edges, m, n)
    ensures Reaches(starts, edges, n)
  {
    var route :| Route(starts, edges, route) && route[|route| - 1] == m;
    var longer := route + [n];
    assert longer[..|longer| - 1] == route;
    assert Route(starts, edges, longer);
  }

  /** No route leaves a set that holds the starts and the ends of its edges. */
  ghost predicate Closed(starts: set<string>, edges: Edges, s: set<string>) {
    starts <= s && forall m, n | m in s && Edge(edges, m, n) :: n in s
  }

  lemma {:induction false} RouteStays(starts: set<string>, edges: Edges, s: set<string>, route: seq<string>)
    requires Closed(starts, edges, s) && Route(starts, edges, route)
    ensures route[|route| - 1] in s
    decreases |route|
  {
    if |route| > 1 {
      RouteStays(starts, edges, s, route[..|route| - 1]);
    }
  }

  /** A closed set of reached nodes is all of them. */
  lemma ClosedIsAll(starts: set<string>, edges: Edges, s: set<string>, n: string)
    requires Closed(starts, edges, s) && forall m | m in s :: Reaches(starts, edges, m)
    ensures n in s <==> Reaches(starts, edges, n)
  {
    if Reaches(starts, edges, n) {
      var route :| Route(starts, edges, route) && route[|route| - 1] == n;
      RouteStays(starts, edges, s, route);
    }
  }
}
