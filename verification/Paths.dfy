/**
 * Paths in a finite directed graph given by ordered successor lists, and the order in which a
 * breadth-first search prefers them: fewer nodes first; among paths with equally many nodes, the one
 * whose first different node comes earlier in the successor list of the node before it.
 */
module Paths {
  type Adjacency = map<int, seq<int>>

  function Succ(g: Adjacency, x: int): seq<int>
  {
    if x in g then g[x] else []
  }

  ghost predicate StepAt(g: Adjacency, p: seq<int>, i: int)
    requires 1 <= i < |p|
  {
    p[i] in Succ(g, p[i - 1])
  }

  /** `p` leads from `a` to `b` along edges of `g`. */
  ghost predicate IsPath(g: Adjacency, a: int, b: int, p: seq<int>)
  {
    && |p| >= 1 && p[0] == a && p[|p| - 1] == b
    && forall i :: 1 <= i < |p| ==> StepAt(g, p, i)
  }

  ghost predicate Reachable(g: Adjacency, a: int, b: int)
  {
    exists p :: IsPath(g, a, b, p)
  }

  /** Position of the first `x` in `s`, or `|s|`. */
  function Rank(s: seq<int>, x: int): (r: nat)
    ensures r <= |s|
    ensures r < |s| <==> x in s
    ensures r < |s| ==> s[r] == x
  {
    if s == [] then 0
    else if s[0] == x then 0
    else
      var r := Rank(s[1..], x);
      assert s == [s[0]] + s[1..];
      r + 1
  }

  /** `p` and `q` agree before `k`, and at `k` path `p` takes the earlier successor. */
  ghost predicate EarlierAt(g: Adjacency, p: seq<int>, q: seq<int>, k: int)
  {
    && 0 < k < |p| == |q|
    && (forall i :: 0 <= i < k ==> p[i] == q[i])
    && Rank(Succ(g, p[k - 1]), p[k]) < Rank(Succ(g, p[k - 1]), q[k])
  }

  ghost predicate Earlier(g: Adjacency, p: seq<int>, q: seq<int>)
  {
    exists k :: EarlierAt(g, p, q, k)
  }

  ghost predicate Before(g: Adjacency, p: seq<int>, q: seq<int>)
  {
    |p| < |q| || (|p| == |q| && Earlier(g, p, q))
  }

  /** `p` is the one path from `a` to `b` that comes before all others. */
  ghost predicate IsBest(g: Adjacency, a: int, b: int, p: seq<int>)
  {
    && IsPath(g, a, b, p)
    && forall q :: IsPath(g, a, b, q) ==> q == p || Before(g, p, q)
  }

  // ---------------------------------------------------------------- paths

  lemma PathPrefix(g: Adjacency, a: int, b: int, p: seq<int>, k: int)
    requires IsPath(g, a, b, p) && 1 <= k <= |p|
    ensures IsPath(g, a, p[k - 1], p[..k])
  {
    forall i | 1 <= i < k ensures StepAt(g, p[..k], i) {
      assert StepAt(g, p, i);
    }
  }

  lemma PathExtend(g: Adjacency, a: int, b: int, p: seq<int>, c: int)
    requires IsPath(g, a, b, p) && c in Succ(g, b)
    ensures IsPath(g, a, c, p + [c])
  {
    var r := p + [c];
    forall i | 1 <= i < |r| ensures StepAt(g, r, i) {
      if i < |p| {
        assert StepAt(g, p, i);
      }
    }
  }

  /** Cutting the part between two visits of one node leaves a path. */
  lemma PathShortcut(g: Adjacency, a: int, b: int, p: seq<int>, i: int, j: int)
    requires IsPath(g, a, b, p) && 0 <= i < j < |p| && p[i] == p[j]
    ensures IsPath(g, a, b, p[..i] + p[j..])
  {
    var r := p[..i] + p[j..];
    forall k | 1 <= k < |r| ensures StepAt(g, r, k) {
      if k < i {
        assert StepAt(g, p, k);
      } else if k == i {
        assert StepAt(g, p, i);
      } else {
        assert StepAt(g, p, k - i + j);
      }
    }
  }

  // ---------------------------------------------------------------- the preference order

  lemma EarlierAtTransitive(g: Adjacency, p: seq<int>, q: seq<int>, r: seq<int>, k: int, m: int)
    requires EarlierAt(g, p, q, k) && EarlierAt(g, q, r, m)
    ensures EarlierAt(g, p, r, if k <= m then k else m)
  {
  }

  lemma EarlierTransitive(g: Adjacency, p: seq<int>, q: seq<int>, r: seq<int>)
    requires Earlier(g, p, q) && Earlier(g, q, r)
    ensures Earlier(g, p, r)
  {
    var k :| EarlierAt(g, p, q, k);
    var m :| EarlierAt(g, q, r, m);
    EarlierAtTransitive(g, p, q, r, k, m);
  }

  lemma BeforeTransitive(g: Adjacency, p: seq<int>, q: seq<int>, r: seq<int>)
    requires Before(g, p, q) && Before(g, q, r)
    ensures Before(g, p, r)
  {
    if |p| == |q| == |r| {
      EarlierTransitive(g, p, q, r);
    }
  }

  lemma BeforeAsymmetric(g: Adjacency, p: seq<int>, q: seq<int>)
    ensures !(Before(g, p, q) && Before(g, q, p))
  {
  }

  /** Appending one node each keeps the order of two paths. */
  lemma EarlierExtend(g: Adjacency, p: seq<int>, q: seq<int>, x: int, y: int)
    requires Earlier(g, p, q)
    ensures Earlier(g, p + [x], q + [y])
  {
    var k :| EarlierAt(g, p, q, k);
    assert EarlierAt(g, p + [x], q + [y], k);
  }

  lemma BeforeExtend(g: Adjacency, p: seq<int>, q: seq<int>, x: int)
    requires p == q || Before(g, p, q)
    ensures p + [x] == q + [x] || Before(g, p + [x], q + [x])
  {
    if p != q && |p| == |q| {
      EarlierExtend(g, p, q, x, x);
    }
  }

  /** Two different successors of the same last node are ordered by their ranks. */
  lemma EarlierSibling(g: Adjacency, p: seq<int>, x: int, y: int)
    requires |p| >= 1
    requires Rank(Succ(g, p[|p| - 1]), x) < Rank(Succ(g, p[|p| - 1]), y)
    ensures Earlier(g, p + [x], p + [y])
  {
    assert EarlierAt(g, p + [x], p + [y], |p|);
  }

  lemma BestIsUnique(g: Adjacency, a: int, b: int, p: seq<int>, q: seq<int>)
    requires IsBest(g, a, b, p) && IsBest(g, a, b, q)
    ensures p == q
  {
    BeforeAsymmetric(g, p, q);
  }

  ghost predicate Simple(s: seq<int>)
  {
    forall i, j :: 0 <= i < j < |s| ==> s[i] != s[j]
  }

  /** The preferred path is no longer than any other and visits no node twice. */
  lemma BestIsShortestAndSimple(g: Adjacency, a: int, b: int, p: seq<int>)
    requires IsBest(g, a, b, p)
    ensures forall q :: IsPath(g, a, b, q) ==> |p| <= |q|
    ensures Simple(p)
  {
    forall i, j | 0 <= i < j < |p| ensures p[i] != p[j] {
      if p[i] == p[j] {
        PathShortcut(g, a, b, p, i, j);
      }
    }
  }
}
