/** From what the service holds: when a walk arrives, where it is blocked, and so which version it returns. */
module Arrivals {
  import opened Semver
  import opened UpgradeGraph
  import opened Cincinnati
  import opened CrossChannel
  import opened UpgradeWalks

  /** The nodes of the channel that a walk from `source` enters after `k` legs. */
  ghost function NodesAfter(trip: Trip, source: Version, k: nat): seq<Node>
  {
    NodesOf(trip, NextChannel(trip, SourceAfter(source, k)))
  }

  /** That channel holds the version it is entered with: the first one `v`, any other the greatest of the one before. */
  ghost predicate IsOpenAt(trip: Trip, source: Version, v: Version, k: nat)
  {
    if k == 0 then Contains(NodesAfter(trip, source, 0), v)
    else exists g :: IsBound(NodesAfter(trip, source, k - 1), trip.svc.matches, false, g) &&
                     Contains(NodesAfter(trip, source, k), g)
  }

  /** The target channel is the one entered after `d - 1` legs, and none before. */
  ghost predicate IsDistance(trip: Trip, source: Version, d: nat)
  {
    && d >= 1 && AtTarget(trip, SourceAfter(source, d - 1))
    && forall k :: 0 <= k < d - 1 ==> !AtTarget(trip, SourceAfter(source, k))
  }

  /** All channels on the way to the target are open, and the target holds the requested version. */
  ghost predicate WayIsOpen(trip: Trip, source: Version, v: Version, d: nat)
  {
    && (forall k :: 0 <= k < d ==> IsOpenAt(trip, source, v, k))
    && Contains(NodesOf(trip, trip.targetChannel), trip.reqVer)
  }

  /** The channel entered after `n` legs is the first that is not open. */
  ghost predicate IsFirstClosed(trip: Trip, source: Version, v: Version, n: nat)
  {
    !IsOpenAt(trip, source, v, n) && forall k :: 0 <= k < n ==> IsOpenAt(trip, source, v, k)
  }

  // ---------------------------------------------------------------- along a walk

  lemma BoundsEq(nodes: seq<Node>, matches: Version -> bool, v: Version, w: Version)
    requires IsBound(nodes, matches, false, v) && IsBound(nodes, matches, false, w)
    ensures Eq(v, w)
  {
    CompareAntisymmetric(v, w);
  }

  lemma HeldEq(nodes: seq<Node>, matches: Version -> bool, next: seq<Node>, w: Version)
    requires IsBound(nodes, matches, false, w)
    ensures (exists g :: IsBound(nodes, matches, false, g) && Contains(next, g)) <==> Contains(next, w)
  {
    if g :| IsBound(nodes, matches, false, g) && Contains(next, g) {
      BoundsEq(nodes, matches, g, w);
      ContainsEq(next, g, w);
    }
  }

  /** Where a walk leaves a channel that is not the target, it does so with the channel's greatest version. */
  lemma LeavesWithGreatest(trip: Trip, source: Version, v: Version, legs: seq<Leg>, end: End, k: nat)
    requires Walk(trip, source, v, legs, end) && k < |legs| && !(end.Arrived? && k == |legs| - 1)
    ensures IsBound(NodesAfter(trip, source, k), trip.svc.matches, false, legs[k].to)
  {
    assert LegAt(trip, source, v, legs, end, k);
  }

  /** A channel a walk comes to is open exactly if it holds the version the walk has reached. */
  lemma OpenMeansHeld(trip: Trip, source: Version, v: Version, legs: seq<Leg>, end: End, n: nat)
    requires Walk(trip, source, v, legs, end) && n <= |legs| && !(end.Arrived? && n == |legs|)
    ensures IsOpenAt(trip, source, v, n) <==> Contains(NodesAfter(trip, source, n), Reached(v, legs, n))
  {
    if n > 0 {
      LeavesWithGreatest(trip, source, v, legs, end, n - 1);
      HeldEq(NodesAfter(trip, source, n - 1), trip.svc.matches, NodesAfter(trip, source, n), legs[n - 1].to);
    }
  }

  lemma LegHolds(trip: Trip, source: Version, v: Version, legs: seq<Leg>, end: End, k: nat)
    requires Walk(trip, source, v, legs, end) && k < |legs|
    ensures Contains(NodesAfter(trip, source, k), Reached(v, legs, k))
    ensures Contains(NodesAfter(trip, source, k), legs[k].to)
    ensures AtTarget(trip, SourceAfter(source, k)) <==> end.Arrived? && k == |legs| - 1
  {
    LegStands(trip, source, v, legs, end, k);
    assert LegAt(trip, source, v, legs, end, k);
    LegContains(trip.svc, trip.arch, legs[k]);
  }

  /** The channels a walk makes legs in are open. */
  lemma LegsAreOpen(trip: Trip, source: Version, v: Version, legs: seq<Leg>, end: End, k: nat)
    requires Walk(trip, source, v, legs, end) && k < |legs|
    ensures IsOpenAt(trip, source, v, k)
  {
    LegHolds(trip, source, v, legs, end, k);
    OpenMeansHeld(trip, source, v, legs, end, k);
  }

  // ---------------------------------------------------------------- arriving

  lemma ArrivedWayIsOpen(trip: Trip, source: Version, v: Version, legs: seq<Leg>)
    requires Walk(trip, source, v, legs, Arrived)
    ensures legs != [] && IsDistance(trip, source, |legs|) && WayIsOpen(trip, source, v, |legs|)
  {
    ArrivedDistance(trip, source, v, legs);
    forall k | 0 <= k < |legs| ensures IsOpenAt(trip, source, v, k) {
      LegsAreOpen(trip, source, v, legs, Arrived, k);
    }
    TargetHoldsRequest(trip, source, v, legs);
  }

  lemma ArrivedDistance(trip: Trip, source: Version, v: Version, legs: seq<Leg>)
    requires Walk(trip, source, v, legs, Arrived)
    ensures IsDistance(trip, source, |legs|)
  {
    forall k | 0 <= k < |legs| ensures AtTarget(trip, SourceAfter(source, k)) <==> k == |legs| - 1 {
      LegHolds(trip, source, v, legs, Arrived, k);
    }
  }

  lemma TargetHoldsRequest(trip: Trip, source: Version, v: Version, legs: seq<Leg>)
    requires Walk(trip, source, v, legs, Arrived)
    ensures Contains(NodesOf(trip, trip.targetChannel), trip.reqVer)
  {
    LegHolds(trip, source, v, legs, Arrived, |legs| - 1);
    LastReachesRequest(trip, source, v, legs);
  }

  /** A walk does not end at an open channel on the way, nor at an open target that holds the requested version. */
  lemma OpenDoesNotEnd(trip: Trip, source: Version, v: Version, legs: seq<Leg>, end: End, d: nat)
    requires Walk(trip, source, v, legs, end) && IsDistance(trip, source, d) && WayIsOpen(trip, source, v, d)
    ensures |legs| >= d
  {
    var n := |legs|;
    if n < d {
      if end.Arrived? {
        LastIsTarget(trip, source, v, legs);
        assert false;
      }
      OpenMeansHeld(trip, source, v, legs, end, n);
      NotFailedHere(trip, source, v, n, d, Reached(v, legs, n));
      assert false;
    }
  }

  lemma NotFailedHere(trip: Trip, source: Version, v: Version, n: nat, d: nat, w: Version)
    requires IsDistance(trip, source, d) && WayIsOpen(trip, source, v, d) && n < d
    requires Contains(NodesAfter(trip, source, n), w)
    ensures !FailsAt(trip, SourceAfter(source, n), w)
  {
    if n < d - 1 {
      assert IsOpenAt(trip, source, v, n + 1);
      var g :| IsBound(NodesAfter(trip, source, n), trip.svc.matches, false, g) &&
               Contains(NodesAfter(trip, source, n + 1), g);
      assert IsAccepted(NodesAfter(trip, source, n), trip.svc.matches, g);
    }
  }

  /** With an open way the walk arrives. */
  lemma OpenWayArrives(trip: Trip, source: Version, v: Version, legs: seq<Leg>, end: End, d: nat)
    requires Walk(trip, source, v, legs, end) && IsDistance(trip, source, d) && WayIsOpen(trip, source, v, d)
    ensures end.Arrived? && |legs| == d
  {
    OpenDoesNotEnd(trip, source, v, legs, end, d);
    LegHolds(trip, source, v, legs, end, d - 1);
  }

  ghost predicate Arrives(trip: Trip, source: Version, v: Version)
  {
    exists d :: IsDistance(trip, source, d) && WayIsOpen(trip, source, v, d)
  }

  /**
   * A walk arrives if and only if each channel up to the target holds the greatest version of the one before, the
   * first one the version the walk starts with, and the target holds the requested version.
   */
  lemma ArrivesExactlyWhen(trip: Trip, source: Version, v: Version, legs: seq<Leg>, end: End)
    requires Walk(trip, source, v, legs, end)
    ensures end.Arrived? <==> Arrives(trip, source, v)
  {
    if end.Arrived? {
      ArrivedWayIsOpen(trip, source, v, legs);
    }
    if d :| IsDistance(trip, source, d) && WayIsOpen(trip, source, v, d) {
      OpenWayArrives(trip, source, v, legs, end, d);
    }
  }

  // ---------------------------------------------------------------- the version returned

  /** A walk is blocked at the first channel that is not open. */
  lemma BlockedAtFirstClosed(trip: Trip, source: Version, v: Version, legs: seq<Leg>, end: End)
    requires Walk(trip, source, v, legs, end) && end.Blocked?
    ensures IsFirstClosed(trip, source, v, |legs|)
  {
    forall k | 0 <= k < |legs| ensures IsOpenAt(trip, source, v, k) {
      LegsAreOpen(trip, source, v, legs, end, k);
    }
    OpenMeansHeld(trip, source, v, legs, end, |legs|);
  }

  lemma FirstClosedUnique(trip: Trip, source: Version, v: Version, m: nat, n: nat)
    requires IsFirstClosed(trip, source, v, m) && IsFirstClosed(trip, source, v, n)
    ensures m == n
  {
  }

  /** The first closed channel is the target, or its greatest version is the requested one. */
  ghost predicate ClosedAtRequest(trip: Trip, source: Version, v: Version)
  {
    exists n :: IsFirstClosed(trip, source, v, n) &&
                (AtTarget(trip, SourceAfter(source, n)) || GreatestIs(trip, SourceAfter(source, n), trip.reqVer))
  }

  /**
   * The node a successful walk returns has the requested version if and only if the service lets the walk arrive, or
   * the first channel it closes is the target or has the requested version as its greatest.
   */
  lemma RequestedOnService(trip: Trip, source: Version, v: Version, legs: seq<Leg>, end: End)
    requires Walk(trip, source, v, legs, end) && !end.Failed?
    ensures end.Blocked? || legs != []
    ensures Eq(trip.reqVer, Requested(legs, end).version) <==>
            Arrives(trip, source, v) || ClosedAtRequest(trip, source, v)
  {
    ArrivesExactlyWhen(trip, source, v, legs, end);
    RequestedExactlyWhen(trip, source, v, legs, end);
    if end.Blocked? {
      BlockedAtFirstClosed(trip, source, v, legs, end);
      if n :| IsFirstClosed(trip, source, v, n) &&
              (AtTarget(trip, SourceAfter(source, n)) || GreatestIs(trip, SourceAfter(source, n), trip.reqVer)) {
        FirstClosedUnique(trip, source, v, n, |legs|);
      }
    }
  }

  // ---------------------------------------------------------------- failing

  /**
   * The walk comes to the channel after `n` legs and fails there: the target lacks the requested version, or a channel
   * before it offers nothing, or is closed while the target lacks its greatest version.
   */
  ghost predicate FailsAfter(trip: Trip, source: Version, v: Version, n: nat)
  {
    && (forall k :: 0 <= k < n ==> IsOpenAt(trip, source, v, k) && !AtTarget(trip, SourceAfter(source, k)))
    && var nodes, target := NodesAfter(trip, source, n), NodesOf(trip, trip.targetChannel);
       if AtTarget(trip, SourceAfter(source, n)) then !Contains(target, trip.reqVer)
       else
         || !HasAccepted(nodes, trip.svc.matches)
         || (!IsOpenAt(trip, source, v, n) &&
             exists g :: IsBound(nodes, trip.svc.matches, false, g) && !Contains(target, g))
  }

  ghost predicate Fails(trip: Trip, source: Version, v: Version)
  {
    exists n :: FailsAfter(trip, source, v, n)
  }

  lemma FailedFailsAfter(trip: Trip, source: Version, v: Version, legs: seq<Leg>)
    requires Walk(trip, source, v, legs, Failed)
    ensures FailsAfter(trip, source, v, |legs|)
  {
    forall k | 0 <= k < |legs| ensures IsOpenAt(trip, source, v, k) && !AtTarget(trip, SourceAfter(source, k)) {
      LegsAreOpen(trip, source, v, legs, Failed, k);
      LegHolds(trip, source, v, legs, Failed, k);
    }
    OpenMeansHeld(trip, source, v, legs, Failed, |legs|);
  }

  /** A walk makes no leg in a channel where it fails. */
  lemma NoLegWhereItFails(trip: Trip, source: Version, v: Version, legs: seq<Leg>, end: End, n: nat)
    requires Walk(trip, source, v, legs, end) && n < |legs|
    ensures !FailsAfter(trip, source, v, n)
  {
    LegHolds(trip, source, v, legs, end, n);
    LegsAreOpen(trip, source, v, legs, end, n);
    if end.Arrived? && n == |legs| - 1 {
      TargetHoldsRequest(trip, source, v, legs);
    } else {
      LeavesWithGreatest(trip, source, v, legs, end, n);
      assert IsAccepted(NodesAfter(trip, source, n), trip.svc.matches, legs[n].to);
    }
  }

  /** Nor is it blocked there. */
  lemma NotBlockedWhereItFails(trip: Trip, source: Version, v: Version, legs: seq<Leg>, end: End)
    requires Walk(trip, source, v, legs, end) && end.Blocked?
    ensures !FailsAfter(trip, source, v, |legs|)
  {
    var n := |legs|;
    var nodes, target := NodesAfter(trip, source, n), NodesOf(trip, trip.targetChannel);
    assert EndsAt(trip, SourceAfter(source, n), Reached(v, legs, n), end);
    assert Contains(target, end.goal);
    if !AtTarget(trip, SourceAfter(source, n)) {
      assert IsAccepted(nodes, trip.svc.matches, end.goal);
      HeldEq(nodes, trip.svc.matches, target, end.goal);
      forall g | IsBound(nodes, trip.svc.matches, false, g) ensures Contains(target, g) {
        BoundsEq(nodes, trip.svc.matches, g, end.goal);
        ContainsEq(target, g, end.goal);
      }
    }
  }

  /** Beyond the channel a walk is blocked at, or beyond the target, there is none where it fails. */
  lemma NotBeyondTheEnd(trip: Trip, source: Version, v: Version, legs: seq<Leg>, end: End, n: nat)
    requires Walk(trip, source, v, legs, end) && !end.Failed? && n >= |legs| && (end.Blocked? ==> n > |legs|)
    ensures !FailsAfter(trip, source, v, n)
  {
    if end.Arrived? {
      LastIsTarget(trip, source, v, legs);
    } else {
      BlockedAtFirstClosed(trip, source, v, legs, end);
    }
  }

  lemma OtherEndsDoNotFail(trip: Trip, source: Version, v: Version, legs: seq<Leg>, end: End, n: nat)
    requires Walk(trip, source, v, legs, end) && !end.Failed?
    ensures !FailsAfter(trip, source, v, n)
  {
    if n < |legs| {
      NoLegWhereItFails(trip, source, v, legs, end, n);
    } else if end.Blocked? && n == |legs| {
      NotBlockedWhereItFails(trip, source, v, legs, end);
    } else {
      NotBeyondTheEnd(trip, source, v, legs, end, n);
    }
  }

  /**
   * A walk fails if and only if it comes to a target without the requested version, to a channel that offers nothing,
   * or to a closed channel whose greatest version the target lacks.
   */
  lemma FailsExactlyWhen(trip: Trip, source: Version, v: Version, legs: seq<Leg>, end: End)
    requires Walk(trip, source, v, legs, end)
    ensures end.Failed? <==> Fails(trip, source, v)
  {
    if end.Failed? {
      FailedFailsAfter(trip, source, v, legs);
    } else {
      forall n: nat ensures !FailsAfter(trip, source, v, n) {
        OtherEndsDoNotFail(trip, source, v, legs, end, n);
      }
    }
  }
}
