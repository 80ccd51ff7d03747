/** The update graph of one channel, and `GetUpdates`: the preferred shortest upgrade path in it. */
module UpgradeGraph {
  import opened Outcome
  import opened Semver
  import opened Paths
  import opened Sorting
  import opened Choice
  import BreadthFirst

  datatype Node = Node(version: Version, image: string)

  datatype Edge = Edge(origin: int, destination: int)

  datatype Graph = Graph(nodes: seq<Node>, edges: seq<Edge>)

  /** What `GetUpdates` returns on success. */
  datatype Plan = Plan(current: Node, requested: Node, updates: seq<Node>)

  /** Edge ends are node indices. */
  ghost predicate InRange(g: Graph)
  {
    forall e <- g.edges :: 0 <= e.origin < |g.nodes| && 0 <= e.destination < |g.nodes|
  }

  ghost predicate HasEdge(g: Graph, u: int, v: int)
  {
    Edge(u, v) in g.edges
  }

  ghost predicate EdgeAt(g: Graph, p: seq<int>, i: int)
    requires 1 <= i < |p|
  {
    HasEdge(g, p[i - 1], p[i])
  }

  /** `p` leads from node `a` to node `b` along edges. */
  ghost predicate IsRoute(g: Graph, a: int, b: int, p: seq<int>)
  {
    && |p| >= 1 && p[0] == a && p[|p| - 1] == b
    && forall i :: 1 <= i < |p| ==> EdgeAt(g, p, i)
  }

  function VersionAt(nodes: seq<Node>, i: int): Version
  {
    if 0 <= i < |nodes| then nodes[i].version else ZERO
  }

  /** Where `p` first differs from `q`, its version is at least that of `q`. */
  ghost predicate AtLeastFrom(g: Graph, p: seq<int>, q: seq<int>, k: int)
  {
    && 0 < k < |p| == |q|
    && (forall i :: 0 <= i < k ==> p[i] == q[i])
    && p[k] != q[k]
    && Ge(VersionAt(g.nodes, p[k]), VersionAt(g.nodes, q[k]))
  }

  /** A shortest route whose versions are lexicographically at least those of every other shortest route. */
  ghost predicate IsPreferred(g: Graph, a: int, b: int, p: seq<int>)
  {
    && IsRoute(g, a, b, p)
    && Simple(p)
    && forall q :: IsRoute(g, a, b, q) ==> p == q || |p| < |q| || exists k :: AtLeastFrom(g, p, q, k)
  }

  /** Different destinations of one origin have different precedence. */
  ghost predicate DistinctPrecedence(g: Graph)
  {
    forall u, v, w :: HasEdge(g, u, v) && HasEdge(g, u, w) && v != w ==>
      !Eq(VersionAt(g.nodes, v), VersionAt(g.nodes, w))
  }

  // ---------------------------------------------------------------- successor lists

  /** The successor lists hold the edges, each list by descending version. */
  ghost predicate IsSortedAdjacency(g: Graph, adj: Adjacency)
  {
    && (forall u, v :: v in Succ(adj, u) <==> HasEdge(g, u, v))
    && (forall u <- adj :: Descending(g.nodes, adj[u]))
  }

  ghost predicate Descending(nodes: seq<Node>, s: seq<int>)
  {
    forall i, j :: 0 <= i < j < |s| ==> Ge(VersionAt(nodes, s[i]), VersionAt(nodes, s[j]))
  }

  /** The destinations of the edges from `u`, in the order of the edges. */
  ghost function DestinationsOf(edges: seq<Edge>, u: int): seq<int>
  {
    if edges == [] then []
    else
      var e := edges[|edges| - 1];
      DestinationsOf(edges[..|edges| - 1], u) + if e.origin == u then [e.destination] else []
  }

  lemma {:induction false} DestinationsAreEdges(edges: seq<Edge>, u: int, v: int)
    ensures v in DestinationsOf(edges, u) <==> Edge(u, v) in edges
  {
    if edges != [] {
      var n := |edges| - 1;
      DestinationsAreEdges(edges[..n], u, v);
      assert edges == edges[..n] + [edges[n]];
    }
  }

  method EdgesByOrigin(edges: seq<Edge>) returns (adj: Adjacency)
    ensures forall u :: Succ(adj, u) == DestinationsOf(edges, u)
  {
    adj := map[];
    for i := 0 to |edges|
      invariant forall u :: Succ(adj, u) == DestinationsOf(edges[..i], u)
    {
      var e := edges[i];
      assert edges[..i + 1][..i] == edges[..i];
      adj := adj[e.origin := Succ(adj, e.origin) + [e.destination]];
    }
    assert edges[..|edges|] == edges;
  }

  predicate VersionGreater(nodes: seq<Node>, i: int, j: int)
  {
    Gt(VersionAt(nodes, i), VersionAt(nodes, j))
  }

  lemma VersionGreaterIsWeakOrder(nodes: seq<Node>)
    ensures WeakOrder((i, j) => VersionGreater(nodes, i, j))
  {
    forall x, y | VersionGreater(nodes, x, y) ensures !VersionGreater(nodes, y, x) {
      CompareAntisymmetric(VersionAt(nodes, x), VersionAt(nodes, y));
    }
    forall x, y, z | VersionGreater(nodes, x, z) ensures VersionGreater(nodes, x, y) || VersionGreater(nodes, y, z) {
      TotalPreorder(VersionAt(nodes, x), VersionAt(nodes, y), VersionAt(nodes, z));
      TotalPreorder(VersionAt(nodes, z), VersionAt(nodes, x), VersionAt(nodes, y));
    }
  }

  method SortDestinations(nodes: seq<Node>, destinations: seq<int>) returns (r: seq<int>)
    ensures multiset(r) == multiset(destinations) && Descending(nodes, r)
  {
    var less := (i, j) => VersionGreater(nodes, i, j);
    VersionGreaterIsWeakOrder(nodes);
    r := Sort(destinations, less);
    forall i, j | 0 <= i < j < |r| ensures Ge(VersionAt(nodes, r[i]), VersionAt(nodes, r[j])) {
      assert !less(r[j], r[i]);
      CompareAntisymmetric(VersionAt(nodes, r[i]), VersionAt(nodes, r[j]));
    }
  }

  method SortedAdjacency(g: Graph) returns (adj: Adjacency)
    ensures forall u :: multiset(Succ(adj, u)) == multiset(DestinationsOf(g.edges, u))
    ensures IsSortedAdjacency(g, adj)
  {
    var unsorted := EdgesByOrigin(g.edges);
    adj := SortEach(g.nodes, unsorted);
    forall u ensures multiset(Succ(adj, u)) == multiset(DestinationsOf(g.edges, u)) {
      assert multiset(Succ(adj, u)) == multiset(Succ(unsorted, u));
    }
    HoldsEdges(g, adj);
  }

  /** Sorts the successor list of each origin, in any order of origins. */
  method SortEach(nodes: seq<Node>, lists: Adjacency) returns (adj: Adjacency)
    ensures forall u :: multiset(Succ(adj, u)) == multiset(Succ(lists, u))
    ensures forall u <- adj :: Descending(nodes, adj[u])
  {
    adj := lists;
    var todo := adj.Keys;
    while todo != {}
      invariant todo <= adj.Keys
      invariant forall u :: multiset(Succ(adj, u)) == multiset(Succ(lists, u))
      invariant forall u <- adj.Keys - todo :: Descending(nodes, adj[u])
      decreases todo
    {
      var origin := AnyOf(todo);
      var destinations := SortDestinations(nodes, adj[origin]);
      assert multiset(Succ(adj, origin)) == multiset(Succ(lists, origin));
      adj := adj[origin := destinations];
      todo := todo - {origin};
    }
  }

  lemma HoldsEdges(g: Graph, adj: Adjacency)
    requires forall u :: multiset(Succ(adj, u)) == multiset(DestinationsOf(g.edges, u))
    ensures forall u, v :: v in Succ(adj, u) <==> HasEdge(g, u, v)
  {
    forall u, v ensures v in Succ(adj, u) <==> HasEdge(g, u, v) {
      SameElements(Succ(adj, u), DestinationsOf(g.edges, u));
      DestinationsAreEdges(g.edges, u, v);
    }
  }

  // ---------------------------------------------------------------- from list order to version order

  lemma RouteIsPath(g: Graph, adj: Adjacency, a: int, b: int, p: seq<int>)
    requires IsSortedAdjacency(g, adj)
    ensures IsRoute(g, a, b, p) <==> IsPath(adj, a, b, p)
  {
    if IsRoute(g, a, b, p) {
      forall i | 1 <= i < |p| ensures StepAt(adj, p, i) {
        assert EdgeAt(g, p, i);
      }
    }
    if IsPath(adj, a, b, p) {
      forall i | 1 <= i < |p| ensures EdgeAt(g, p, i) {
        assert StepAt(adj, p, i);
      }
    }
  }

  lemma EarlierMeansAtLeast(g: Graph, adj: Adjacency, b: int, p: seq<int>, q: seq<int>, k: int)
    requires IsSortedAdjacency(g, adj) && EarlierAt(adj, p, q, k)
    requires |q| >= 1 && IsPath(adj, q[0], b, q)
    ensures AtLeastFrom(g, p, q, k)
  {
    assert StepAt(adj, q, k);
    var out := Succ(adj, p[k - 1]);
    assert out[Rank(out, q[k])] == q[k] && out[Rank(out, p[k])] == p[k];
    assert Descending(g.nodes, out);
  }

  lemma BestIsPreferred(g: Graph, adj: Adjacency, a: int, b: int, p: seq<int>)
    requires IsSortedAdjacency(g, adj) && IsBest(adj, a, b, p)
    ensures IsPreferred(g, a, b, p)
  {
    RouteIsPath(g, adj, a, b, p);
    BestIsShortestAndSimple(adj, a, b, p);
    forall q | IsRoute(g, a, b, q) ensures p == q || |p| < |q| || exists k :: AtLeastFrom(g, p, q, k) {
      RouteIsPath(g, adj, a, b, q);
      assert q == p || Before(adj, p, q);
      if q != p && |p| == |q| {
        var k :| EarlierAt(adj, p, q, k);
        EarlierMeansAtLeast(g, adj, b, p, q, k);
      }
    }
  }

  /** Where two different routes that start together first part, the two nodes are destinations of one origin. */
  lemma PreferredIsGreatest(g: Graph, a: int, b: int, p: seq<int>, q: seq<int>)
    requires IsPreferred(g, a, b, p) && IsRoute(g, a, b, q) && DistinctPrecedence(g) && |q| == |p| && p != q
    ensures exists k :: AtLeastFrom(g, p, q, k) && Gt(VersionAt(g.nodes, p[k]), VersionAt(g.nodes, q[k]))
  {
    var k :| AtLeastFrom(g, p, q, k);
    assert EdgeAt(g, p, k) && EdgeAt(g, q, k);
    assert HasEdge(g, p[k - 1], p[k]) && HasEdge(g, p[k - 1], q[k]);
  }

  lemma PreferredIsUnique(g: Graph, a: int, b: int, p: seq<int>, q: seq<int>)
    requires IsPreferred(g, a, b, p) && IsPreferred(g, a, b, q) && DistinctPrecedence(g)
    ensures p == q
  {
    if p != q {
      PreferredIsGreatest(g, a, b, p, q);
      PreferredIsGreatest(g, a, b, q, p);
      var k :| AtLeastFrom(g, p, q, k) && Gt(VersionAt(g.nodes, p[k]), VersionAt(g.nodes, q[k]));
      var m :| AtLeastFrom(g, q, p, m) && Gt(VersionAt(g.nodes, q[m]), VersionAt(g.nodes, p[m]));
      CompareAntisymmetric(VersionAt(g.nodes, p[k]), VersionAt(g.nodes, q[k]));
    }
  }

  /** The same edges, in any order and with any repetitions, give the same path. */
  lemma EdgeListOrderIrrelevant(g: Graph, g': Graph, a: int, b: int, p: seq<int>, p': seq<int>)
    requires g.nodes == g'.nodes && (forall e :: e in g.edges <==> e in g'.edges) && DistinctPrecedence(g)
    requires IsPreferred(g, a, b, p) && IsPreferred(g', a, b, p')
    ensures p == p'
  {
    forall q ensures IsRoute(g, a, b, q) <==> IsRoute(g', a, b, q) {
      SameEdgesSameRoutes(g, g', a, b, q);
      SameEdgesSameRoutes(g', g, a, b, q);
    }
    assert IsPreferred(g, a, b, p') by {
      forall q | IsRoute(g, a, b, q) ensures p' == q || |p'| < |q| || exists k :: AtLeastFrom(g, p', q, k) {
        assert IsRoute(g', a, b, q);
        if p' != q && |p'| >= |q| {
          var k :| AtLeastFrom(g', p', q, k);
          assert AtLeastFrom(g, p', q, k);
        }
      }
    }
    PreferredIsUnique(g, a, b, p, p');
  }

  lemma SameEdgesSameRoutes(g: Graph, g': Graph, a: int, b: int, q: seq<int>)
    requires forall e :: e in g.edges <==> e in g'.edges
    ensures IsRoute(g, a, b, q) ==> IsRoute(g', a, b, q)
  {
    if IsRoute(g, a, b, q) {
      forall i | 1 <= i < |q| ensures EdgeAt(g', q, i) {
        assert EdgeAt(g, q, i);
      }
    }
  }

  // ---------------------------------------------------------------- GetUpdates

  /** `i` is the first node whose version has the precedence of `v`. */
  ghost predicate IsFirst(nodes: seq<Node>, v: Version, i: int)
  {
    && 0 <= i < |nodes| && Eq(v, nodes[i].version)
    && forall k :: 0 <= k < i ==> !Eq(v, nodes[k].version)
  }

  ghost predicate Contains(nodes: seq<Node>, v: Version)
  {
    exists i :: 0 <= i < |nodes| && Eq(v, nodes[i].version)
  }

  ghost predicate AreNodes(g: Graph, p: seq<int>)
  {
    forall k :: 0 <= k < |p| ==> 0 <= p[k] < |g.nodes|
  }

  ghost function NodesAt(g: Graph, p: seq<int>): (r: seq<Node>)
    requires AreNodes(g, p)
    ensures |r| == |p| && forall k :: 0 <= k < |p| ==> r[k] == g.nodes[p[k]]
  {
    seq(|p|, k requires 0 <= k < |p| => g.nodes[p[k]])
  }

  /** The path from `a` to `b`: empty if there is no route, else the preferred one. */
  ghost predicate IsPathChoice(g: Graph, a: int, b: int, p: seq<int>)
  {
    if p == [] then !exists q :: IsRoute(g, a, b, q) else IsPreferred(g, a, b, p)
  }

  ghost predicate IsPlanVia(g: Graph, from: Version, to: Version, plan: Plan, a: int, b: int, p: seq<int>)
  {
    && IsFirst(g.nodes, from, a) && IsFirst(g.nodes, to, b)
    && plan.current == g.nodes[a] && plan.requested == g.nodes[b]
    && IsPathChoice(g, a, b, p)
    && AreNodes(g, p)
    && plan.updates == NodesAt(g, p)
  }

  /** `plan` is an answer to "upgrade from `from` to `to`". */
  ghost predicate IsPlan(g: Graph, from: Version, to: Version, plan: Plan)
  {
    exists a, b, p :: IsPlanVia(g, from, to, plan, a, b, p)
  }

  method FindVersion(nodes: seq<Node>, v: Version) returns (i: int)
    ensures if i == -1 then !Contains(nodes, v) else IsFirst(nodes, v, i)
  {
    for k := 0 to |nodes|
      invariant forall m :: 0 <= m < k ==> !Eq(v, nodes[m].version)
    {
      if Eq(v, nodes[k].version) {
        return k;
      }
    }
    return -1;
  }

  method CollectNodes(g: Graph, path: seq<int>) returns (updates: seq<Node>)
    requires AreNodes(g, path)
    ensures updates == NodesAt(g, path)
  {
    updates := [];
    for k := 0 to |path|
      invariant updates == NodesAt(g, path[..k])
    {
      updates := updates + [g.nodes[path[k]]];
    }
    assert path[..|path|] == path;
  }

  /** `GetUpdates`, once the graph is fetched. */
  method PlanUpdates(g: Graph, from: Version, to: Version) returns (r: Result<Plan>)
    requires InRange(g)
    ensures r.Ok? <==> Contains(g.nodes, from) && Contains(g.nodes, to)
    ensures r.Err? ==> r.reason == VersionNotFound
    ensures r.Ok? ==> IsPlan(g, from, to, r.value)
  {
    var current := FindVersion(g.nodes, from);
    if current == -1 {
      return Err(VersionNotFound);
    }
    var destination := FindVersion(g.nodes, to);
    if destination == -1 {
      return Err(VersionNotFound);
    }
    var adj := SortedAdjacency(g);
    SuccessorsInRange(g, adj);
    var path := BreadthFirst.ShortestPath(adj, current, destination);
    PathChoice(g, adj, current, destination, path);
    var updates := CollectNodes(g, path);
    r := Ok(Plan(g.nodes[current], g.nodes[destination], updates));
    assert IsPlanVia(g, from, to, r.value, current, destination, path);
  }

  lemma SuccessorsInRange(g: Graph, adj: Adjacency)
    requires InRange(g) && IsSortedAdjacency(g, adj)
    ensures forall x <- adj :: forall y <- adj[x] :: 0 <= y < |g.nodes|
  {
    forall x, y | x in adj && y in adj[x] ensures 0 <= y < |g.nodes| {
      assert y in Succ(adj, x);
      assert Edge(x, y) in g.edges;
    }
  }

  lemma RouteInRange(g: Graph, a: int, b: int, p: seq<int>)
    requires InRange(g) && IsRoute(g, a, b, p) && 0 <= a < |g.nodes|
    ensures AreNodes(g, p)
  {
    forall k | 0 <= k < |p| ensures 0 <= p[k] < |g.nodes| {
      if k > 0 {
        assert EdgeAt(g, p, k);
        assert Edge(p[k - 1], p[k]) in g.edges;
      }
    }
  }

  lemma PathChoice(g: Graph, adj: Adjacency, a: int, b: int, p: seq<int>)
    requires InRange(g) && IsSortedAdjacency(g, adj) && 0 <= a < |g.nodes|
    requires p == [] <==> !Reachable(adj, a, b)
    requires p != [] ==> IsBest(adj, a, b, p)
    ensures IsPathChoice(g, a, b, p)
    ensures AreNodes(g, p)
  {
    if p == [] {
      forall q ensures !IsRoute(g, a, b, q) {
        RouteIsPath(g, adj, a, b, q);
      }
    } else {
      BestIsPreferred(g, adj, a, b, p);
      RouteInRange(g, a, b, p);
    }
  }

  /** With distinct precedences the answer is determined by the nodes and the set of edges. */
  lemma PlanIsDetermined(g: Graph, g': Graph, from: Version, to: Version, plan: Plan, plan': Plan)
    requires g.nodes == g'.nodes && (forall e :: e in g.edges <==> e in g'.edges) && DistinctPrecedence(g)
    requires IsPlan(g, from, to, plan) && IsPlan(g', from, to, plan')
    ensures plan == plan'
  {
    var a, b, p :| IsPlanVia(g, from, to, plan, a, b, p);
    var a', b', p' :| IsPlanVia(g', from, to, plan', a', b', p');
    PathChoiceIsDetermined(g, g', a, b, p, p');
  }

  lemma PathChoiceIsDetermined(g: Graph, g': Graph, a: int, b: int, p: seq<int>, p': seq<int>)
    requires g.nodes == g'.nodes && (forall e :: e in g.edges <==> e in g'.edges) && DistinctPrecedence(g)
    requires IsPathChoice(g, a, b, p) && IsPathChoice(g', a, b, p')
    ensures p == p'
  {
    if p != [] && p' != [] {
      EdgeListOrderIrrelevant(g, g', a, b, p, p');
    } else if p != [] {
      SameEdgesSameRoutes(g, g', a, b, p);
    } else if p' != [] {
      SameEdgesSameRoutes(g', g, a, b, p');
    }
  }
}
