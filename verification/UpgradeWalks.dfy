/** What a walk across channels guarantees, over all services, names and versions. */
module UpgradeWalks {
  import opened Outcome
  import opened Text
  import opened Semver
  import opened UpgradeGraph
  import opened Cincinnati
  import opened ChannelNames
  import opened CrossChannel
  import opened Repeats

  // ---------------------------------------------------------------- the walk is determined

  lemma ContainsEq(nodes: seq<Node>, v: Version, w: Version)
    requires Eq(v, w)
    ensures Contains(nodes, v) <==> Contains(nodes, w)
  {
    forall i | 0 <= i < |nodes| ensures Eq(v, nodes[i].version) <==> Eq(w, nodes[i].version) {
      EqSubstitutes(v, w, nodes[i].version);
    }
  }

  lemma GoalsEq(trip: Trip, source: Version, goal: Version, goal': Version)
    requires IsGoal(trip, source, goal) && IsGoal(trip, source, goal')
    ensures Eq(goal, goal')
  {
    if AtTarget(trip, source) {
      EqIgnoresBuildOnly(goal, goal);
    } else {
      CompareAntisymmetric(goal, goal');
    }
  }

  lemma LegContains(svc: Service, arch: string, leg: Leg)
    requires IsLeg(svc, arch, leg)
    ensures Contains(ChannelNodes(svc, arch, leg.channel), leg.from) &&
            Contains(ChannelNodes(svc, arch, leg.channel), leg.to)
  {
    PlanFindsRequested(svc.graphs[(arch, leg.channel)], leg.from, leg.to, leg.plan);
  }

  /** A step that can be made does not fail. */
  lemma LegDoesNotFail(trip: Trip, source: Version, v: Version, legs: seq<Leg>, end: End, k: nat, w: Version)
    requires k < |legs| && LegAt(trip, source, v, legs, end, k) && Eq(legs[k].from, w)
    ensures !EndsAt(trip, SourceAfter(source, k), w, Failed)
    ensures Contains(NodesOf(trip, legs[k].channel), w)
  {
    LegContains(trip.svc, trip.arch, legs[k]);
    ContainsEq(NodesOf(trip, legs[k].channel), legs[k].from, w);
  }

  /** A blocked step with a successful lookup does not fail. */
  lemma BlockDoesNotFail(trip: Trip, source: Version, v: Version, end: End, w: Version)
    requires EndsAt(trip, source, v, end) && end.Blocked? && Eq(v, w)
    ensures !EndsAt(trip, source, w, Failed)
  {
    ContainsEq(NodesOf(trip, NextChannel(trip, source)), v, w);
    forall other | IsGoal(trip, source, other) ensures Contains(NodesOf(trip, trip.targetChannel), other) {
      GoalsEq(trip, source, end.goal, other);
      ContainsEq(NodesOf(trip, trip.targetChannel), end.goal, other);
    }
  }

  /** Two walks from equal precedence have equal precedence wherever both are. */
  lemma {:induction false} ReachedEq(trip: Trip, source: Version, v: Version, legs: seq<Leg>, end: End,
                                     v': Version, legs': seq<Leg>, end': End, k: nat)
    requires Walk(trip, source, v, legs, end) && Walk(trip, source, v', legs', end') && Eq(v, v')
    requires k <= |legs| && k <= |legs'|
    ensures Eq(Reached(v, legs, k), Reached(v', legs', k))
  {
    if k > 0 {
      assert LegAt(trip, source, v, legs, end, k - 1) && LegAt(trip, source, v', legs', end', k - 1);
      GoalsEq(trip, SourceAfter(source, k - 1), legs[k - 1].to, legs'[k - 1].to);
    }
  }

  lemma TargetIsLast(trip: Trip, source: Version, v: Version, legs: seq<Leg>, end: End, k: nat)
    requires Walk(trip, source, v, legs, end) && k < |legs|
    ensures AtTarget(trip, SourceAfter(source, k)) ==> k == |legs| - 1
  {
    assert LegAt(trip, source, v, legs, end, k);
  }

  lemma LastIsTarget(trip: Trip, source: Version, v: Version, legs: seq<Leg>)
    requires Walk(trip, source, v, legs, Arrived)
    ensures AtTarget(trip, SourceAfter(source, |legs| - 1))
  {
    assert LegAt(trip, source, v, legs, Arrived, |legs| - 1);
  }

  /** A walk does not stop where another one goes on. */
  lemma NoLonger(trip: Trip, source: Version, v: Version, legs: seq<Leg>, end: End,
                 v': Version, legs': seq<Leg>, end': End)
    requires Walk(trip, source, v, legs, end) && Walk(trip, source, v', legs', end') && Eq(v, v')
    ensures |legs| >= |legs'|
  {
    if |legs| < |legs'| {
      var n := |legs|;
      ReachedEq(trip, source, v, legs, end, v', legs', end', n);
      CompareAntisymmetric(Reached(v, legs, n), Reached(v', legs', n));
      if end.Arrived? {
        TargetIsLast(trip, source, v', legs', end', n - 1);
        LastIsTarget(trip, source, v, legs);
        assert false;
      }
      LegDoesNotFail(trip, source, v', legs', end', n, Reached(v, legs, n));
      assert false;
    }
  }

  ghost predicate SameLeg(leg: Leg, leg': Leg)
  {
    leg.channel == leg'.channel && Eq(leg.from, leg'.from) && Eq(leg.to, leg'.to)
  }

  lemma LegStands(trip: Trip, source: Version, v: Version, legs: seq<Leg>, end: End, k: nat)
    requires Walk(trip, source, v, legs, end) && k < |legs|
    ensures legs[k].channel == NextChannel(trip, SourceAfter(source, k))
    ensures legs[k].from == Reached(v, legs, k) && legs[k].to == Reached(v, legs, k + 1)
  {
    assert LegAt(trip, source, v, legs, end, k);
  }

  lemma LegIsDetermined(trip: Trip, source: Version, v: Version, legs: seq<Leg>, end: End,
                        v': Version, legs': seq<Leg>, end': End, k: nat)
    requires Walk(trip, source, v, legs, end) && Walk(trip, source, v', legs', end') && Eq(v, v')
    requires k < |legs| && k < |legs'|
    ensures SameLeg(legs[k], legs'[k])
  {
    LegStands(trip, source, v, legs, end, k);
    LegStands(trip, source, v', legs', end', k);
    ReachedEq(trip, source, v, legs, end, v', legs', end', k);
    ReachedEq(trip, source, v, legs, end, v', legs', end', k + 1);
  }

  /** Two walks with the same channels, versions up to precedence, and kind of end. */
  ghost predicate SameCourse(legs: seq<Leg>, end: End, legs': seq<Leg>, end': End)
  {
    && |legs| == |legs'|
    && (forall k :: 0 <= k < |legs| ==> SameLeg(legs[k], legs'[k]))
    && (end.Failed? <==> end'.Failed?) && (end.Blocked? <==> end'.Blocked?)
  }

  /** How ties in precedence are broken changes neither the course of a walk nor whether it fails or is blocked. */
  lemma WalkIsDetermined(trip: Trip, source: Version, v: Version, legs: seq<Leg>, end: End,
                         v': Version, legs': seq<Leg>, end': End)
    requires Walk(trip, source, v, legs, end) && Walk(trip, source, v', legs', end') && Eq(v, v')
    ensures SameCourse(legs, end, legs', end')
  {
    CompareAntisymmetric(v, v');
    NoLonger(trip, source, v, legs, end, v', legs', end');
    NoLonger(trip, source, v', legs', end', v, legs, end);
    forall k | 0 <= k < |legs| ensures SameLeg(legs[k], legs'[k]) {
      LegIsDetermined(trip, source, v, legs, end, v', legs', end', k);
    }
    SameEnd(trip, source, v, legs, end, v', legs', end');
  }

  lemma SameEnd(trip: Trip, source: Version, v: Version, legs: seq<Leg>, end: End,
                v': Version, legs': seq<Leg>, end': End)
    requires Walk(trip, source, v, legs, end) && Walk(trip, source, v', legs', end') && Eq(v, v')
    requires |legs| == |legs'|
    ensures (end.Failed? <==> end'.Failed?) && (end.Blocked? <==> end'.Blocked?)
  {
    var n := |legs|;
    var s := SourceAfter(source, n);
    ReachedEq(trip, source, v, legs, end, v', legs', end', n);
    CompareAntisymmetric(Reached(v, legs, n), Reached(v', legs', n));
    if n > 0 {
      assert LegAt(trip, source, v, legs, end, n - 1) && LegAt(trip, source, v', legs', end', n - 1);
    }
    if end.Blocked? {
      BlockDoesNotFail(trip, s, Reached(v, legs, n), end, Reached(v', legs', n));
    }
    if end'.Blocked? {
      BlockDoesNotFail(trip, s, Reached(v', legs', n), end', Reached(v, legs, n));
    }
  }

  // ---------------------------------------------------------------- where the walk goes

  /** The walk arrives after as many legs as the target's minor is ahead, counted in 64-bit arithmetic. */
  lemma ArrivalDistance(trip: Trip, source: Version, v: Version, legs: seq<Leg>)
    requires Walk(trip, source, v, legs, Arrived)
    ensures source.major == trip.target.major
    ensures (source.minor + |legs|) % U64_LIMIT == trip.target.minor
    ensures legs[|legs| - 1].channel == trip.targetChannel
  {
    var n := |legs| - 1;
    assert LegAt(trip, source, v, legs, Arrived, n);
    EqIgnoresBuildOnly(Bumped(SourceAfter(source, n)), trip.target);
    if n > 0 {
      MinorAfterLast(source.minor, n);
    }
  }

  lemma MinorAfterLast(minor: U64, n: nat)
    ensures NextMinor(MinorAfter(minor, n)) == MinorAfter(minor, n + 1)
  {
    var q: int, m: int := (minor + n) / U64_LIMIT, MinorAfter(minor, n);
    assert minor + n == q * U64_LIMIT + m;
    if m + 1 == U64_LIMIT {
      assert minor + (n + 1) == (q + 1) * U64_LIMIT;
    } else {
      assert minor + (n + 1) == q * U64_LIMIT + (m + 1);
    }
  }

  /**
   * The requested node has the requested version when the walk arrives or is blocked at the target channel;
   * a walk blocked before it returns the greatest version of the channel that blocked it.
   */
  lemma RequestedVersion(trip: Trip, source: Version, v: Version, legs: seq<Leg>, end: End)
    requires Walk(trip, source, v, legs, end) && !end.Failed?
    ensures end.Blocked? || legs != []
    ensures end.Arrived? || AtTarget(trip, SourceAfter(source, |legs|)) ==>
              Eq(trip.reqVer, Requested(legs, end).version)
    ensures !end.Arrived? && !AtTarget(trip, SourceAfter(source, |legs|)) ==>
              exists goal :: Eq(goal, Requested(legs, end).version) &&
                IsBound(NodesOf(trip, NextChannel(trip, SourceAfter(source, |legs|))), trip.svc.matches, false, goal)
  {
    if end.Blocked? {
      FoundHasVersion(NodesOf(trip, trip.targetChannel), end.goal, end.requested);
    } else {
      assert LegAt(trip, source, v, legs, end, |legs| - 1);
      LegRequested(trip.svc, trip.arch, legs[|legs| - 1]);
    }
  }

  /** The greatest version the channel after `source` offers has the precedence of `v`. */
  ghost predicate GreatestIs(trip: Trip, source: Version, v: Version)
  {
    exists goal :: IsBound(NodesOf(trip, NextChannel(trip, source)), trip.svc.matches, false, goal) && Eq(goal, v)
  }

  /**
   * The node returned has the requested version if and only if the walk arrives, is blocked at the target channel,
   * or is blocked by a channel whose greatest version happens to be the requested one.
   */
  lemma RequestedExactlyWhen(trip: Trip, source: Version, v: Version, legs: seq<Leg>, end: End)
    requires Walk(trip, source, v, legs, end) && !end.Failed?
    ensures end.Blocked? || legs != []
    ensures Eq(trip.reqVer, Requested(legs, end).version) <==>
            || end.Arrived? || AtTarget(trip, SourceAfter(source, |legs|))
            || GreatestIs(trip, SourceAfter(source, |legs|), trip.reqVer)
  {
    RequestedVersion(trip, source, v, legs, end);
    var s := SourceAfter(source, |legs|);
    if end.Blocked? && !AtTarget(trip, s) {
      BlockedRequested(trip, s, Reached(v, legs, |legs|), end);
    }
  }

  lemma BlockedRequested(trip: Trip, source: Version, v: Version, end: End)
    requires end.Blocked? && EndsAt(trip, source, v, end) && !AtTarget(trip, source)
    ensures Eq(trip.reqVer, end.requested.version) <==> GreatestIs(trip, source, trip.reqVer)
  {
    FoundHasVersion(NodesOf(trip, trip.targetChannel), end.goal, end.requested);
    EqSubstitutes(end.goal, end.requested.version, trip.reqVer);
    CompareAntisymmetric(end.goal, trip.reqVer);
    if GreatestIs(trip, source, trip.reqVer) {
      var goal :| IsBound(NodesOf(trip, NextChannel(trip, source)), trip.svc.matches, false, goal) &&
        Eq(goal, trip.reqVer);
      GoalsEq(trip, source, end.goal, goal);
      EqSubstitutes(end.goal, goal, trip.reqVer);
    }
  }

  lemma FoundHasVersion(nodes: seq<Node>, v: Version, n: Node)
    requires IsFound(nodes, v, n)
    ensures Eq(v, n.version)
  {
  }

  lemma LegRequested(svc: Service, arch: string, leg: Leg)
    requires IsLeg(svc, arch, leg)
    ensures Eq(leg.to, leg.plan.requested.version)
  {
    var g := svc.graphs[(arch, leg.channel)];
    PlanFindsRequested(g, leg.from, leg.to, leg.plan);
    FoundHasVersion(g.nodes, leg.to, leg.plan.requested);
  }

  // ---------------------------------------------------------------- strictly rising upgrades

  ghost predicate EdgesRaise(g: Graph)
  {
    forall e <- g.edges :: Lt(VersionAt(g.nodes, e.origin), VersionAt(g.nodes, e.destination))
  }

  /** An edge leads from a node with the image of `x` to `y`. */
  ghost predicate EdgeBetween(g: Graph, x: Node, y: Node)
  {
    exists e :: e in g.edges && 0 <= e.origin < |g.nodes| && 0 <= e.destination < |g.nodes| &&
                g.nodes[e.origin].image == x.image && g.nodes[e.destination] == y
  }

  lemma {:induction false} RouteRises(g: Graph, a: int, b: int, p: seq<int>, i: int, j: int)
    requires InRange(g) && EdgesRaise(g) && IsRoute(g, a, b, p) && 0 <= i < j < |p|
    ensures Lt(VersionAt(g.nodes, p[i]), VersionAt(g.nodes, p[j]))
    decreases j
  {
    assert EdgeAt(g, p, j);
    assert Edge(p[j - 1], p[j]) in g.edges;
    if i < j - 1 {
      RouteRises(g, a, b, p, i, j - 1);
      LtTransitive(VersionAt(g.nodes, p[i]), VersionAt(g.nodes, p[j - 1]), VersionAt(g.nodes, p[j]));
    }
  }

  /** `s` rises along edges of `g` from version `from` to version `to`. */
  ghost predicate ClimbsIn(g: Graph, from: Version, to: Version, s: seq<Node>)
  {
    && s != [] && Rising(s) && Eq(from, s[0].version) && Eq(to, s[|s| - 1].version)
    && (forall n <- s :: n in g.nodes)
    && forall i :: 1 <= i < |s| ==> EdgeBetween(g, s[i - 1], s[i])
  }

  lemma PlanClimbs(g: Graph, from: Version, to: Version, plan: Plan)
    requires InRange(g) && EdgesRaise(g) && IsPlan(g, from, to, plan) && plan.updates != []
    ensures ClimbsIn(g, from, to, plan.updates)
  {
    var a, b, p :| IsPlanVia(g, from, to, plan, a, b, p);
    RouteNodesClimb(g, a, b, p);
  }

  lemma RouteNodesClimb(g: Graph, a: int, b: int, p: seq<int>)
    requires InRange(g) && EdgesRaise(g) && IsRoute(g, a, b, p) && AreNodes(g, p)
    ensures Rising(NodesAt(g, p))
    ensures forall n <- NodesAt(g, p) :: n in g.nodes
    ensures forall i :: 1 <= i < |p| ==> EdgeBetween(g, NodesAt(g, p)[i - 1], NodesAt(g, p)[i])
  {
    var s := NodesAt(g, p);
    forall i, j | 0 <= i < j < |s| ensures Lt(s[i].version, s[j].version) {
      RouteRises(g, a, b, p, i, j);
    }
    forall i | 1 <= i < |s| ensures EdgeBetween(g, s[i - 1], s[i]) {
      assert EdgeAt(g, p, i);
      assert Edge(p[i - 1], p[i]) in g.edges;
    }
  }

  /** A node of one of the channels the legs are in. */
  ghost predicate Visited(svc: Service, arch: string, legs: seq<Leg>, n: Node)
  {
    exists k :: 0 <= k < |legs| && n in ChannelNodes(svc, arch, legs[k].channel)
  }

  /** Images and versions match one to one across the visited channels. */
  ghost predicate OneToOne(svc: Service, arch: string, legs: seq<Leg>)
  {
    forall x, y {:trigger SameTogether(x, y)} ::
      Visited(svc, arch, legs, x) && Visited(svc, arch, legs, y) ==> SameTogether(x, y)
  }

  /** Some visited channel has an edge from the image of `x` to `y`. */
  ghost predicate UpgradeStep(svc: Service, arch: string, legs: seq<Leg>, x: Node, y: Node)
  {
    exists k :: 0 <= k < |legs| && (arch, legs[k].channel) in svc.graphs &&
           EdgeBetween(svc.graphs[(arch, legs[k].channel)], x, y)
  }

  ghost predicate Follows(legs: seq<Leg>, k: int)
    requires 1 <= k < |legs|
  {
    legs[k].from == legs[k - 1].to
  }

  lemma {:induction false} JoinedSnoc(legs: seq<Leg>, n: int)
    requires 1 <= n <= |legs|
    ensures Joined(legs[..n]) == Joined(legs[..n - 1]) + legs[n - 1].plan.updates
    decreases |legs|
  {
    if n == 1 {
      assert legs[..1] == [legs[0]] + [] && legs[..0] == [];
      JoinedCons(legs[0], []);
    } else {
      var rest := legs[1..];
      JoinedSnoc(rest, n - 1);
      assert legs[..n] == [legs[0]] + rest[..n - 1] && legs[..n - 1] == [legs[0]] + rest[..n - 2];
      JoinedCons(legs[0], rest[..n - 1]);
      JoinedCons(legs[0], rest[..n - 2]);
    }
  }

  ghost function LegPaths(legs: seq<Leg>): (r: seq<seq<Node>>)
    ensures |r| == |legs| && forall k :: 0 <= k < |legs| ==> r[k] == legs[k].plan.updates
  {
    seq(|legs|, k requires 0 <= k < |legs| => legs[k].plan.updates)
  }

  /** The version each leg starts with, and the version the last one ends with. */
  ghost function Marks(legs: seq<Leg>): (r: seq<Version>)
    requires legs != []
    ensures |r| == |legs| + 1 && r[|legs|] == legs[|legs| - 1].to
    ensures forall k :: 0 <= k < |legs| ==> r[k] == legs[k].from
  {
    seq(|legs|, k requires 0 <= k < |legs| => legs[k].from) + [legs[|legs| - 1].to]
  }

  lemma {:induction false} ConcatIsJoined(legs: seq<Leg>, n: nat)
    requires n <= |legs|
    ensures Concat(LegPaths(legs), n) == Joined(legs[..n])
  {
    if n > 0 {
      ConcatIsJoined(legs, n - 1);
      JoinedSnoc(legs, n);
    }
  }

  lemma LegClimbs(svc: Service, arch: string, legs: seq<Leg>, k: int,
                  step: (Node, Node) -> bool, known: Node -> bool)
    requires 0 <= k < |legs| && IsLeg(svc, arch, legs[k]) && legs[k].plan.updates != []
    requires InRange(svc.graphs[(arch, legs[k].channel)]) && EdgesRaise(svc.graphs[(arch, legs[k].channel)])
    requires forall x, y :: step(x, y) <==> UpgradeStep(svc, arch, legs, x, y)
    requires forall x :: known(x) <==> Visited(svc, arch, legs, x)
    ensures Climb(step, legs[k].from, legs[k].to, legs[k].plan.updates) && UpTo(known, legs[k].plan.updates, legs[k].to)
  {
    var g, x := svc.graphs[(arch, legs[k].channel)], legs[k].plan.updates;
    PlanClimbs(g, legs[k].from, legs[k].to, legs[k].plan);
    forall i | 1 <= i < |x| ensures StepsAt(step, x, i) {
      assert EdgeBetween(g, x[i - 1], x[i]);
    }
    forall i | 0 <= i < |x| ensures known(x[i]) {
      assert x[i] in g.nodes;
    }
    RisingUpTo(known, x, legs[k].to);
  }

  lemma StepsAndNodesFit(svc: Service, arch: string, legs: seq<Leg>, step: (Node, Node) -> bool, known: Node -> bool)
    requires OneToOne(svc, arch, legs)
    requires forall x, y :: step(x, y) <==> UpgradeStep(svc, arch, legs, x, y)
    requires forall x :: known(x) <==> Visited(svc, arch, legs, x)
    ensures Setting(step, known)
  {
    forall x: Node, x': Node, y: Node | step(x, y) && x.image == x'.image ensures step(x', y) {
      var k :| 0 <= k < |legs| && (arch, legs[k].channel) in svc.graphs &&
        EdgeBetween(svc.graphs[(arch, legs[k].channel)], x, y);
      assert EdgeBetween(svc.graphs[(arch, legs[k].channel)], x', y);
    }
  }

  /**
   * If edges raise versions, images and versions match one to one, nothing blocks and each leg has a path,
   * then the upgrades returned rise strictly from the start version to the requested one, each an upgrade
   * that some visited channel offers from the one before.
   */
  lemma UpgradesRise(trip: Trip, source: Version, sourceChannel: string, startVer: Version,
                     legs: seq<Leg>, r: Result<Plan>)
    requires WellFormed(trip.svc) && CrossesVia(trip, source, sourceChannel, startVer, legs, Arrived, r) && r.Ok?
    requires forall k :: 0 <= k < |legs| ==> legs[k].plan.updates != []
    requires forall k :: 0 <= k < |legs| && (trip.arch, legs[k].channel) in trip.svc.graphs ==>
               EdgesRaise(trip.svc.graphs[(trip.arch, legs[k].channel)])
    requires OneToOne(trip.svc, trip.arch, legs)
    ensures var ups := r.value.updates;
      && ups != [] && Rising(ups)
      && Eq(startVer, ups[0].version) && Eq(trip.reqVer, ups[|ups| - 1].version)
      && forall i :: 1 <= i < |ups| ==> UpgradeStep(trip.svc, trip.arch, legs, ups[i - 1], ups[i])
  {
    WalkIsLinked(trip, source, legs);
    LinkedLegsRise(trip.svc, trip.arch, legs, FirstOccurrences(Joined(legs)));
  }

  /** Legs that each start where the one before ended make one rising list of upgrades. */
  lemma {:induction false} LinkedLegsRise(svc: Service, arch: string, legs: seq<Leg>, ups: seq<Node>)
    requires WellFormed(svc) && legs != [] && OneToOne(svc, arch, legs) && ups == FirstOccurrences(Joined(legs))
    requires forall k :: 0 <= k < |legs| ==> IsLeg(svc, arch, legs[k]) && legs[k].plan.updates != []
    requires forall k :: 0 <= k < |legs| && (arch, legs[k].channel) in svc.graphs ==>
             EdgesRaise(svc.graphs[(arch, legs[k].channel)])
    requires forall k :: 1 <= k < |legs| ==> Follows(legs, k)
    ensures ups != [] && Rising(ups)
    ensures Eq(legs[0].from, ups[0].version) && Eq(legs[|legs| - 1].to, ups[|ups| - 1].version)
    ensures forall i :: 1 <= i < |ups| ==> UpgradeStep(svc, arch, legs, ups[i - 1], ups[i])
  {
    var step := (x: Node, y: Node) => UpgradeStep(svc, arch, legs, x, y);
    var known := (x: Node) => Visited(svc, arch, legs, x);
    StepsAndNodesFit(svc, arch, legs, step, known);
    LegsClimb(svc, arch, legs, step, known);
    var f := LegsJoin(legs, step, known);
    forall i | 1 <= i < |f| ensures UpgradeStep(svc, arch, legs, f[i - 1], f[i]) {
      assert StepsAt(step, f, i);
    }
  }

  lemma LegsClimb(svc: Service, arch: string, legs: seq<Leg>, step: (Node, Node) -> bool, known: Node -> bool)
    requires WellFormed(svc) && legs != []
    requires forall k :: 0 <= k < |legs| ==> IsLeg(svc, arch, legs[k]) && legs[k].plan.updates != []
    requires forall k :: 0 <= k < |legs| && (arch, legs[k].channel) in svc.graphs ==>
             EdgesRaise(svc.graphs[(arch, legs[k].channel)])
    requires forall k :: 1 <= k < |legs| ==> Follows(legs, k)
    requires forall x, y :: step(x, y) <==> UpgradeStep(svc, arch, legs, x, y)
    requires forall x :: known(x) <==> Visited(svc, arch, legs, x)
    ensures forall k :: 0 <= k < |legs| ==> ClimbAt(step, known, Marks(legs), LegPaths(legs), k)
  {
    forall k | 0 <= k < |legs| ensures ClimbAt(step, known, Marks(legs), LegPaths(legs), k) {
      assert IsLeg(svc, arch, legs[k]);
      LegClimbs(svc, arch, legs, k, step, known);
      MarksFit(legs, k);
    }
  }

  lemma MarksFit(legs: seq<Leg>, k: int)
    requires 0 <= k < |legs| && forall k :: 1 <= k < |legs| ==> Follows(legs, k)
    ensures Marks(legs)[k] == legs[k].from && Marks(legs)[k + 1] == legs[k].to
  {
    assert k + 1 < |legs| ==> Follows(legs, k + 1);
  }

  lemma LegsJoin(legs: seq<Leg>, step: (Node, Node) -> bool, known: Node -> bool) returns (f: seq<Node>)
    requires legs != [] && Setting(step, known)
    requires forall k :: 0 <= k < |legs| ==> ClimbAt(step, known, Marks(legs), LegPaths(legs), k)
    ensures f == FirstOccurrences(Joined(legs)) && Climb(step, legs[0].from, legs[|legs| - 1].to, f)
  {
    f := JoinedClimbs(step, known, Marks(legs), LegPaths(legs), |legs|);
    ConcatIsJoined(legs, |legs|);
    assert legs[..|legs|] == legs;
  }

  lemma WalkIsLinked(trip: Trip, source: Version, legs: seq<Leg>)
    requires |legs| > 1 && IsLeg(trip.svc, trip.arch, legs[0])
    requires Walk(trip, source, legs[0].to, legs[1..], Arrived)
    ensures forall k :: 0 <= k < |legs| ==> IsLeg(trip.svc, trip.arch, legs[k])
    ensures forall k :: 1 <= k < |legs| ==> Follows(legs, k)
    ensures legs[|legs| - 1].to == trip.reqVer
  {
    forall k | 1 <= k < |legs| ensures Follows(legs, k) && IsLeg(trip.svc, trip.arch, legs[k]) {
      LegLinked(trip, source, legs[0].to, legs[1..], Arrived, k - 1);
    }
    LastReachesRequest(trip, source, legs[0].to, legs[1..]);
  }

  lemma LegLinked(trip: Trip, source: Version, v: Version, legs: seq<Leg>, end: End, k: nat)
    requires Walk(trip, source, v, legs, end) && k < |legs|
    ensures IsLeg(trip.svc, trip.arch, legs[k])
    ensures legs[k].from == Reached(v, legs, k)
  {
    assert LegAt(trip, source, v, legs, end, k);
  }

  lemma LastReachesRequest(trip: Trip, source: Version, v: Version, legs: seq<Leg>)
    requires Walk(trip, source, v, legs, Arrived)
    ensures legs[|legs| - 1].to == trip.reqVer
  {
    assert LegAt(trip, source, v, legs, Arrived, |legs| - 1);
  }
}
