/** The search inside `GetUpdates`: breadth first with a `prev` map, walked back and reversed. */
module BreadthFirst {
  import opened Choice
  import opened Paths

  /**
   * What the search knows about the nodes it has seen. Position `i` holds the `i`-th node to enter the
   * queue, the position of the node it was reached from, and the way to it.
   */
  datatype Seen = Seen(order: seq<int>, parent: seq<int>, way: seq<seq<int>>)

  ghost predicate Shape(s: int, st: Seen)
  {
    && |st.order| == |st.parent| == |st.way| >= 1
    && st.order[0] == s && st.way[0] == [s]
    && Simple(st.order)
  }

  /** Each node but the first is a successor of its parent and of no node before the parent. */
  ghost predicate TreeAt(g: Adjacency, st: Seen, i: int)
    requires |st.order| == |st.parent| == |st.way| && 1 <= i < |st.order|
  {
    var p := st.parent[i];
    && 0 <= p < i
    && st.order[i] in Succ(g, st.order[p])
    && st.way[i] == st.way[p] + [st.order[i]]
    && forall k :: 0 <= k < p ==> st.order[i] !in Succ(g, st.order[k])
  }

  ghost predicate Tree(g: Adjacency, s: int, st: Seen)
  {
    && Shape(s, st)
    && (forall i :: 1 <= i < |st.order| ==> TreeAt(g, st, i))
    && (forall i :: 0 <= i < |st.order| ==> IsPath(g, s, st.order[i], st.way[i]))
    && (forall i, k :: 0 <= i < k < |st.order| ==> Before(g, st.way[i], st.way[k]))
  }

  ghost predicate SuccSeen(g: Adjacency, st: Seen, k: int)
    requires 0 <= k < |st.order|
  {
    forall w <- Succ(g, st.order[k]) :: w in st.order
  }

  /** The nodes before position `h` are expanded, and so are the first `j` successors of the node at `h`. */
  ghost predicate Expanded(g: Adjacency, st: Seen, h: int, j: int)
    requires |st.order| == |st.parent| == |st.way| && 0 <= h <= |st.order|
  {
    && 0 <= j && (j > 0 ==> h < |st.order|)
    && (forall k :: 0 <= k < h ==> SuccSeen(g, st, k))
    && (forall i :: 1 <= i < |st.order| ==> st.parent[i] <= h)
    && (h < |st.order| ==>
          && j <= |Succ(g, st.order[h])|
          && (forall m :: 0 <= m < j ==> Succ(g, st.order[h])[m] in st.order)
          && (forall i :: 1 <= i < |st.order| && st.parent[i] == h ==> st.order[i] in Succ(g, st.order[h])[..j])
          && (forall i :: 0 <= i < |st.order| ==> |st.way[i]| <= |st.way[h]| + 1))
    && (h == |st.order| ==> forall i :: 1 <= i < |st.order| ==> st.parent[i] < h)
  }

  ghost predicate Inv(g: Adjacency, s: int, st: Seen, h: int, j: int)
  {
    Tree(g, s, st) && 0 <= h <= |st.order| && Expanded(g, st, h, j)
  }

  ghost function Initial(s: int): Seen
  {
    Seen([s], [-1], [[s]])
  }

  lemma InitialInv(g: Adjacency, s: int)
    ensures Inv(g, s, Initial(s), 0, 0)
  {
  }

  /** The node `w`, first reached from the node at position `h`, enters the queue. */
  ghost function Discover(st: Seen, h: int, w: int): Seen
    requires 0 <= h < |st.way|
  {
    Seen(st.order + [w], st.parent + [h], st.way + [st.way[h] + [w]])
  }

  /** The way to a newly found node comes after all ways found so far. */
  lemma DiscoverLast(g: Adjacency, s: int, st: Seen, h: int, j: int, i: int)
    requires Inv(g, s, st, h, j) && h < |st.order| && j < |Succ(g, st.order[h])| && 0 <= i < |st.order|
    requires Succ(g, st.order[h])[j] !in st.order
    ensures Before(g, st.way[i], st.way[h] + [Succ(g, st.order[h])[j]])
  {
    if i == 0 {
      assert IsPath(g, s, st.order[h], st.way[h]);
    } else {
      assert TreeAt(g, st, i);
      var p, x, out := st.parent[i], st.order[i], Succ(g, st.order[h]);
      if p < h {
        assert Before(g, st.way[p], st.way[h]);
        CousinLast(g, st.way[p], st.way[h], x, out[j]);
      } else {
        assert IsPath(g, s, st.order[h], st.way[h]);
        SiblingLast(g, st.way[h], st.order, out, j, x);
      }
    }
  }

  lemma CousinLast(g: Adjacency, p: seq<int>, q: seq<int>, x: int, y: int)
    requires Before(g, p, q)
    ensures Before(g, p + [x], q + [y])
  {
    if |p| == |q| {
      EarlierExtend(g, p, q, x, y);
    }
  }

  lemma SiblingLast(g: Adjacency, way: seq<int>, seen: seq<int>, out: seq<int>, j: int, x: int)
    requires |way| >= 1 && out == Succ(g, way[|way| - 1]) && 0 <= j < |out|
    requires x in out[..j] && out[j] !in seen && forall m :: 0 <= m < j ==> out[m] in seen
    ensures Before(g, way + [x], way + [out[j]])
  {
    var m :| 0 <= m < j && out[m] == x;
    RankBelow(out, m, x);
    RankAbove(out, j, out[j], seen);
    EarlierSibling(g, way, x, out[j]);
  }

  lemma {:induction false} RankBelow(s: seq<int>, m: int, x: int)
    requires 0 <= m < |s| && s[m] == x
    ensures Rank(s, x) <= m
  {
    if s[0] != x {
      RankBelow(s[1..], m - 1, x);
    }
  }

  lemma RankAbove(s: seq<int>, j: int, x: int, seen: seq<int>)
    requires 0 <= j < |s| && x !in seen
    requires forall m :: 0 <= m < j ==> s[m] in seen
    ensures Rank(s, x) >= j
  {
  }

  lemma DiscoverInv(g: Adjacency, s: int, st: Seen, h: int, j: int)
    requires Inv(g, s, st, h, j) && h < |st.order| && j < |Succ(g, st.order[h])|
    requires Succ(g, st.order[h])[j] !in st.order
    ensures Inv(g, s, Discover(st, h, Succ(g, st.order[h])[j]), h, j + 1)
  {
    DiscoverTree(g, s, st, h, j);
    DiscoverExpanded(g, st, h, j);
  }

  lemma DiscoverTree(g: Adjacency, s: int, st: Seen, h: int, j: int)
    requires Inv(g, s, st, h, j) && h < |st.order| && j < |Succ(g, st.order[h])|
    requires Succ(g, st.order[h])[j] !in st.order
    ensures Tree(g, s, Discover(st, h, Succ(g, st.order[h])[j]))
  {
    var n, w := |st.order|, Succ(g, st.order[h])[j];
    var st' := Discover(st, h, w);
    PathExtend(g, s, st.order[h], st.way[h], w);
    forall i | 1 <= i < n + 1 ensures TreeAt(g, st', i) {
      if i < n {
        assert TreeAt(g, st, i);
      } else {
        forall k | 0 <= k < h ensures w !in Succ(g, st.order[k]) {
          assert SuccSeen(g, st, k);
        }
      }
    }
    forall i, k | 0 <= i < k < n + 1 ensures Before(g, st'.way[i], st'.way[k]) {
      if k == n {
        DiscoverLast(g, s, st, h, j, i);
      }
    }
  }

  lemma DiscoverExpanded(g: Adjacency, st: Seen, h: int, j: int)
    requires |st.order| == |st.parent| == |st.way| && 0 <= h < |st.order| && 0 <= j < |Succ(g, st.order[h])|
    requires Expanded(g, st, h, j)
    ensures Expanded(g, Discover(st, h, Succ(g, st.order[h])[j]), h, j + 1)
  {
    var out := Succ(g, st.order[h]);
    var st' := Discover(st, h, out[j]);
    forall k | 0 <= k < h ensures SuccSeen(g, st', k) {
      assert SuccSeen(g, st, k);
    }
    assert st'.order[h] == st.order[h] && st'.way[h] == st.way[h];
    forall m | 0 <= m < j + 1 ensures out[m] in st'.order {
      if m < j {
        assert out[m] in st.order;
      }
    }
    assert out[..j + 1] == out[..j] + [out[j]];
    forall i | 1 <= i < |st'.order| && st'.parent[i] == h ensures st'.order[i] in out[..j + 1] {
      if i < |st.order| {
        assert st.order[i] in out[..j];
      }
    }
  }

  lemma SkipExpanded(g: Adjacency, st: Seen, h: int, j: int)
    requires |st.order| == |st.parent| == |st.way| && 0 <= h < |st.order| && 0 <= j < |Succ(g, st.order[h])|
    requires Expanded(g, st, h, j) && Succ(g, st.order[h])[j] in st.order
    ensures Expanded(g, st, h, j + 1)
  {
  }

  lemma AdvanceInv(g: Adjacency, s: int, st: Seen, h: int)
    requires Tree(g, s, st) && 0 <= h < |st.order| && Expanded(g, st, h, |Succ(g, st.order[h])|)
    ensures Inv(g, s, st, h + 1, 0)
  {
  }

  /**
   * Every way found is the preferred path to its node, whether or not the node has been expanded:
   * a competing path either runs through seen nodes, whose parents were taken as early as possible,
   * or leaves them at a node not yet expanded and is then longer.
   */
  lemma {:induction false} WayIsBest(g: Adjacency, s: int, st: Seen, h: int, i: int, q: seq<int>)
    requires Inv(g, s, st, h, 0) && 0 <= i < |st.order| && IsPath(g, s, st.order[i], q)
    ensures q == st.way[i] || Before(g, st.way[i], q)
    decreases |q|
  {
    if |q| == 1 {
      assert i == 0 && q == [s];
    } else if i > 0 {
      var n := |q| - 1;
      PathPrefix(g, s, st.order[i], q, n);
      if q[n - 1] in st.order {
        var u :| 0 <= u < |st.order| && st.order[u] == q[n - 1];
        WayIsBest(g, s, st, h, u, q[..n]);
        BestThroughSeen(g, s, st, i, u, q);
      } else {
        var k, x := LastSeenBefore(g, s, st, h, q, n - 1);
        PathPrefix(g, s, st.order[i], q, k);
        WayIsBest(g, s, st, h, x, q[..k]);
        LongerThroughUnseen(g, s, st, h, i, x, q, k);
      }
    }
  }

  /** A path whose last node but one is seen loses to the way that took the parent as early as possible. */
  lemma BestThroughSeen(g: Adjacency, s: int, st: Seen, i: int, u: int, q: seq<int>)
    requires Tree(g, s, st) && 1 <= i < |st.order| && 0 <= u < |st.order| && |q| >= 2
    requires IsPath(g, s, st.order[i], q) && st.order[u] == q[|q| - 2]
    requires q[..|q| - 1] == st.way[u] || Before(g, st.way[u], q[..|q| - 1])
    ensures q == st.way[i] || Before(g, st.way[i], q)
  {
    var n := |q| - 1;
    ParentBeforePredecessor(g, s, st, i, u, q);
    assert q == q[..n] + [st.order[i]];
    BeforeExtend(g, st.way[st.parent[i]], q[..n], st.order[i]);
  }

  /** A path that has left the seen nodes before its last node but one is longer than the way. */
  lemma LongerThroughUnseen(g: Adjacency, s: int, st: Seen, h: int, i: int, x: int, q: seq<int>, k: int)
    requires Inv(g, s, st, h, 0) && 1 <= i < |st.order| && h <= x < |st.order| && 1 <= k < |q| - 1
    requires q[..k] == st.way[x] || Before(g, st.way[x], q[..k])
    ensures Before(g, st.way[i], q)
  {
    assert TreeAt(g, st, i);
    assert h < x ==> Before(g, st.way[h], st.way[x]);
  }

  /** A node's parent is found no later than any predecessor of the node, so its way is preferred. */
  lemma ParentBeforePredecessor(g: Adjacency, s: int, st: Seen, i: int, u: int, q: seq<int>)
    requires Tree(g, s, st) && 1 <= i < |st.order| && 0 <= u < |st.order| && |q| >= 2
    requires IsPath(g, s, st.order[i], q) && st.order[u] == q[|q| - 2]
    requires q[..|q| - 1] == st.way[u] || Before(g, st.way[u], q[..|q| - 1])
    ensures TreeAt(g, st, i)
    ensures q[..|q| - 1] == st.way[st.parent[i]] || Before(g, st.way[st.parent[i]], q[..|q| - 1])
  {
    assert TreeAt(g, st, i);
    assert StepAt(g, q, |q| - 1);
    var p := st.parent[i];
    assert p <= u;
    if p < u {
      assert Before(g, st.way[p], st.way[u]);
      if q[..|q| - 1] != st.way[u] {
        BeforeTransitive(g, st.way[p], st.way[u], q[..|q| - 1]);
      }
    }
  }

  lemma UnexpandedIfEdgeLeaves(g: Adjacency, st: Seen, h: int, x: int, w: int)
    requires 0 <= h <= |st.order| && forall k :: 0 <= k < h ==> SuccSeen(g, st, k)
    requires 0 <= x < |st.order| && w in Succ(g, st.order[x]) && w !in st.order
    ensures h <= x
  {
    assert SuccSeen(g, st, x) ==> w in st.order;
  }

  /** A path that reaches an unseen node leaves the seen ones at a node that is not expanded. */
  lemma {:induction false} LastSeenBefore(g: Adjacency, s: int, st: Seen, h: int, q: seq<int>, m: int)
    returns (k: int, x: int)
    requires Inv(g, s, st, h, 0) && 0 <= m < |q| && q[m] !in st.order
    requires IsPath(g, s, q[|q| - 1], q)
    ensures 1 <= k <= m && h <= x < |st.order| && st.order[x] == q[k - 1]
    decreases m
  {
    assert st.order[0] in st.order;
    assert StepAt(g, q, m);
    if q[m - 1] in st.order {
      k := m;
      x :| 0 <= x < |st.order| && st.order[x] == q[m - 1];
      UnexpandedIfEdgeLeaves(g, st, h, x, q[m]);
    } else {
      k, x := LastSeenBefore(g, s, st, h, q, m - 1);
    }
  }

  /** When everything seen is expanded, everything reachable is seen. */
  lemma ClosedMeansReachable(g: Adjacency, s: int, st: Seen, b: int)
    requires Inv(g, s, st, |st.order|, 0) && b !in st.order
    ensures !Reachable(g, s, b)
  {
    if p :| IsPath(g, s, b, p) {
      var k, x := LastSeenBefore(g, s, st, |st.order|, p, |p| - 1);
    }
  }

  // ---------------------------------------------------------------- the search

  /** The program's variables agree with what the search knows: -1 is the parent of the start. */
  ghost predicate Represents(st: Seen, visited: set<int>, prev: map<int, int>)
  {
    && |st.order| == |st.parent| >= 1
    && (forall x :: x in visited <==> x in st.order)
    && prev.Keys == visited
    && prev[st.order[0]] == -1
    && forall i :: 1 <= i < |st.order| ==> 0 <= st.parent[i] < i && prev[st.order[i]] == st.order[st.parent[i]]
  }

  lemma DiscoverRepresents(st: Seen, visited: set<int>, prev: map<int, int>, h: int, w: int)
    requires |st.order| == |st.parent| == |st.way| && Represents(st, visited, prev)
    requires 0 <= h < |st.order| && w !in visited
    ensures Represents(Discover(st, h, w), visited + {w}, prev[w := st.order[h]])
  {
  }

  ghost function Nodes(g: Adjacency, start: int): set<int>
  {
    {start} + set x, y | x in g && y in g[x] :: y
  }

  lemma SuccessorsAreNodes(g: Adjacency, start: int, x: int)
    ensures forall y <- Succ(g, x) :: y in Nodes(g, start)
  {
  }

  lemma NoSentinelNode(g: Adjacency, start: int)
    requires start != -1 && forall x <- g :: -1 !in g[x]
    ensures -1 !in Nodes(g, start)
  {
  }

  lemma QueueGrows(order: seq<int>, h: int, w: int)
    requires 0 <= h <= |order|
    ensures (order + [w])[h..] == order[h..] + [w]
  {
  }

  /**
   * Returns the preferred path from `start` to `end`, and the empty list exactly when there is none.
   * Node -1 may not occur, because `prev` uses it for "no predecessor".
   */
  method ShortestPath(g: Adjacency, start: int, end: int) returns (path: seq<int>)
    requires start != -1 && forall x <- g :: -1 !in g[x]
    ensures path == [] <==> !Reachable(g, start, end)
    ensures path != [] ==> IsBest(g, start, end, path)
  {
    var visited, prev, st, h := Explore(g, start, end);
    if end !in visited {
      ClosedMeansReachable(g, start, st, end);
      return [];
    }
    ghost var e :| 0 <= e < |st.order| && st.order[e] == end;
    forall q | IsPath(g, start, end, q) ensures q == st.way[e] || Before(g, st.way[e], q) {
      WayIsBest(g, start, st, h, e, q);
    }
    assert IsPath(g, start, end, st.way[e]);
    path := WalkBack(g, start, end, st, visited, prev, e);
  }

  /** Visits nodes in breadth-first order until `end` leaves the queue or the queue is empty. */
  method Explore(g: Adjacency, start: int, end: int)
    returns (visited: set<int>, prev: map<int, int>, ghost st: Seen, ghost h: int)
    requires start != -1 && forall x <- g :: -1 !in g[x]
    ensures Inv(g, start, st, h, 0) && Represents(st, visited, prev) && -1 !in visited
    ensures end in visited || h == |st.order|
  {
    prev := map[start := -1];
    visited := {start};
    var queue := [start];
    ghost var all := Nodes(g, start);
    st, h := Initial(start), 0;
    InitialInv(g, start);
    NoSentinelNode(g, start);
    while |queue| > 0
      invariant Inv(g, start, st, h, 0) && Represents(st, visited, prev) && queue == st.order[h..]
      invariant visited <= all
      decreases |all| - |visited|, |queue|
    {
      var node := queue[0];
      queue := queue[1..];
      if node == end {
        break;
      }
      SuccessorsAreNodes(g, start, node);
      st, visited, prev, queue := Expand(g, start, node, st, visited, prev, queue, h, all);
      h := h + 1;
    }
  }

  /** Queues the unseen successors of `node`, which stands at position `h`. */
  method Expand(g: Adjacency, ghost start: int, node: int, ghost st: Seen,
                visited: set<int>, prev: map<int, int>, queue: seq<int>, ghost h: int, ghost all: set<int>)
    returns (ghost st': Seen, visited': set<int>, prev': map<int, int>, queue': seq<int>)
    requires Inv(g, start, st, h, 0) && Represents(st, visited, prev)
    requires h < |st.order| && node == st.order[h] && queue == st.order[h + 1..]
    requires visited <= all && forall y <- Succ(g, node) :: y in all
    ensures Inv(g, start, st', h + 1, 0) && Represents(st', visited', prev') && queue' == st'.order[h + 1..]
    ensures visited <= visited' <= all
    ensures |visited| < |visited'| <= |all| || (|visited'| == |visited| <= |all| && |queue'| == |queue|)
  {
    st', visited', prev', queue' := st, visited, prev, queue;
    var out := Succ(g, node);
    for j := 0 to |out|
      invariant Inv(g, start, st', h, j) && Represents(st', visited', prev')
      invariant h < |st'.order| && st'.order[h] == node && queue' == st'.order[h + 1..]
      invariant visited <= visited' <= all
      invariant |visited'| - |visited| == |queue'| - |queue| >= 0
    {
      var neighbor := out[j];
      if neighbor !in visited' {
        DiscoverInv(g, start, st', h, j);
        DiscoverRepresents(st', visited', prev', h, neighbor);
        QueueGrows(st'.order, h + 1, neighbor);
        st' := Discover(st', h, neighbor);
        prev' := prev'[neighbor := node];
        queue' := queue' + [neighbor];
        visited' := visited' + {neighbor};
      } else {
        SkipExpanded(g, st', h, j);
      }
    }
    AdvanceInv(g, start, st', h);
    SubsetSize(visited', all);
  }

  /** The nodes in `back` are the end of the way to position `e`, last node first, down to position `at`. */
  ghost predicate Unwound(st: Seen, e: int, at: int, back: seq<int>)
  {
    && 0 <= e < |st.way| && 0 <= at < |st.way| && |st.way[at]| >= 1
    && st.way[at][..|st.way[at]| - 1] + Reversed(back) == st.way[e]
  }

  lemma UnwindStep(g: Adjacency, s: int, st: Seen, e: int, at: int, back: seq<int>)
    requires Tree(g, s, st) && 1 <= at < |st.order| && Unwound(st, e, at, back)
    ensures 0 <= st.parent[at] < at && Unwound(st, e, st.parent[at], back + [st.order[st.parent[at]]])
  {
    assert TreeAt(g, st, at);
    var p := st.parent[at];
    assert IsPath(g, s, st.order[p], st.way[p]);
    MoveLast(st.way[p], st.order[at], back);
  }

  lemma MoveLast(way: seq<int>, x: int, back: seq<int>)
    requires |way| >= 1
    ensures way[..|way| - 1] + Reversed(back + [way[|way| - 1]]) == (way + [x])[..|way + [x]| - 1] + Reversed(back)
  {
  }

  /** Follows `prev` from `end` and reverses what it collected. */
  method WalkBack(g: Adjacency, ghost start: int, end: int, ghost st: Seen,
                  visited: set<int>, prev: map<int, int>, ghost e: int) returns (path: seq<int>)
    requires Tree(g, start, st) && Represents(st, visited, prev) && -1 !in visited
    requires 0 <= e < |st.order| && st.order[e] == end
    ensures path == st.way[e]
  {
    var back := Collect(g, start, end, st, visited, prev, e);
    var a := new int[|back|](i requires 0 <= i < |back| => back[i]);
    assert a[..] == back;
    ReverseInPlace(a);
    path := a[..];
  }

  method Collect(g: Adjacency, ghost start: int, end: int, ghost st: Seen,
                 visited: set<int>, prev: map<int, int>, ghost e: int) returns (back: seq<int>)
    requires Tree(g, start, st) && Represents(st, visited, prev) && -1 !in visited
    requires 0 <= e < |st.order| && st.order[e] == end
    ensures Reversed(back) == st.way[e]
  {
    back := [end];
    var next := prev[end];
    ghost var at := e;
    assert IsPath(g, start, end, st.way[e]);
    while next != -1
      invariant 0 <= at < |st.order| && next == prev[st.order[at]]
      invariant Unwound(st, e, at, back)
      decreases at
    {
      UnwindStep(g, start, st, e, at, back);
      back := back + [next];
      at := st.parent[at];
      next := prev[next];
    }
    assert at == 0;
  }

  ghost function Reversed(s: seq<int>): (r: seq<int>)
    ensures |r| == |s|
    ensures forall i :: 0 <= i < |s| ==> r[i] == s[|s| - 1 - i]
  {
    seq(|s|, i requires 0 <= i < |s| => s[|s| - 1 - i])
  }

  method ReverseInPlace(path: array<int>)
    modifies path
    ensures path[..] == Reversed(old(path[..]))
  {
    var i, j := 0, path.Length - 1;
    while i < j
      invariant 0 <= i <= j + 1 && i + j == path.Length - 1
      invariant forall k :: 0 <= k < i ==> path[k] == old(path[path.Length - 1 - k])
      invariant forall k :: j < k < path.Length ==> path[k] == old(path[path.Length - 1 - k])
      invariant forall k :: i <= k <= j ==> path[k] == old(path[k])
    {
      path[i], path[j] := path[j], path[i];
      i, j := i + 1, j - 1;
    }
  }
}
