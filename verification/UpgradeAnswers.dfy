/** What an upgrade query answers, from what the service holds. */
module UpgradeAnswers {
  import opened Outcome
  import opened Text
  import opened Semver
  import opened UpgradeGraph
  import opened Cincinnati
  import opened ChannelNames
  import opened CrossChannel
  import opened Repeats
  import opened UpgradeWalks
  import opened Arrivals

  // ---------------------------------------------------------------- inside one graph

  /** The nodes of a preferred route from node `a` to node `b`; none if there is no route. */
  ghost predicate IsWayBetween(g: Graph, a: int, b: int, way: seq<Node>)
  {
    if exists q :: IsRoute(g, a, b, q)
    then exists p :: IsPreferred(g, a, b, p) && AreNodes(g, p) && way == NodesAt(g, p)
    else way == []
  }

  /** The same between the first nodes of two versions. */
  ghost predicate IsWay(g: Graph, from: Version, to: Version, way: seq<Node>)
  {
    exists a, b :: IsFirst(g.nodes, from, a) && IsFirst(g.nodes, to, b) && IsWayBetween(g, a, b, way)
  }

  /** A plan's updates are such a way, and its ends have the versions asked for. */
  lemma PlanIsWay(g: Graph, from: Version, to: Version, plan: Plan)
    requires IsPlan(g, from, to, plan)
    ensures IsWay(g, from, to, plan.updates)
    ensures Eq(from, plan.current.version) && Eq(to, plan.requested.version)
  {
    var a, b, p :| IsPlanVia(g, from, to, plan, a, b, p);
    assert IsWayBetween(g, a, b, plan.updates) by {
      if p != [] {
        assert IsRoute(g, a, b, p);
      }
    }
  }

  /** Where nodes `i` and `j` are the first with the precedences asked for, a plan begins and ends with them. */
  lemma PlanEndsAreFirst(g: Graph, from: Version, to: Version, plan: Plan, i: int, j: int)
    requires IsPlan(g, from, to, plan) && 0 <= i < |g.nodes| && 0 <= j < |g.nodes|
    requires Eq(from, g.nodes[i].version) && forall k :: 0 <= k < i ==> !Eq(from, g.nodes[k].version)
    requires Eq(to, g.nodes[j].version) && forall k :: 0 <= k < j ==> !Eq(to, g.nodes[k].version)
    ensures plan.current == g.nodes[i] && plan.requested == g.nodes[j]
    ensures IsWayBetween(g, i, j, plan.updates)
  {
    var a, b, p :| IsPlanVia(g, from, to, plan, a, b, p);
    assert a == i && b == j;
    if p != [] {
      assert IsRoute(g, a, b, p);
    }
  }

  /** The way from a version to itself is its node alone. */
  lemma PlanToItself(g: Graph, v: Version, plan: Plan)
    requires IsPlan(g, v, v, plan)
    ensures plan.current == plan.requested && plan.updates == [plan.current]
  {
    var a, b, p :| IsPlanVia(g, v, v, plan, a, b, p);
    assert a == b;
    assert IsRoute(g, a, a, [a]);
    assert |p| == 1;
  }

  // ---------------------------------------------------------------- two channels of one version

  ghost predicate SameVersion(sourceChannel: string, targetChannel: string)
  {
    && sourceChannel != targetChannel && ParseChannels(sourceChannel, targetChannel).Ok?
    && var c := ParseChannels(sourceChannel, targetChannel).value; Eq(c.0, c.1)
  }

  /** Channels of different prefixes and one major and minor, such as stable-4.13 and fast-4.13, are such. */
  lemma PrefixesOfOneVersion(prefix: string, prefix': string, major: U64, minor: U64)
    requires prefix != prefix'
    ensures SameVersion(ChannelName(prefix, major, minor), ChannelName(prefix', major, minor))
  {
    ParseChannelName(prefix, major, minor);
    ParseChannelName(prefix', major, minor);
    EqIgnoresBuildOnly(MinorVersion(major, minor), MinorVersion(major, minor));
  }

  /**
   * Between two channels of one version the answer succeeds exactly if the target holds the requested version. It is
   * then a preferred way in the target from the start version to the requested one if the target holds the start
   * version, and else the requested version alone.
   */
  lemma SameVersionAnswer(svc: Service, arch: string, sourceChannel: string, targetChannel: string, startVer: Version,
                          reqVer: Version, r: Result<Plan>)
    requires SameVersion(sourceChannel, targetChannel)
    requires IsUpgradeAnswer(svc, arch, sourceChannel, targetChannel, startVer, reqVer, r)
    ensures r.Ok? <==> Contains(ChannelNodes(svc, arch, targetChannel), reqVer)
    ensures r.Ok? ==> (arch, targetChannel) in svc.graphs && Eq(reqVer, r.value.requested.version)
    ensures r.Ok? && Contains(ChannelNodes(svc, arch, targetChannel), startVer) ==>
              && Eq(startVer, r.value.current.version)
              && IsWay(svc.graphs[(arch, targetChannel)], startVer, reqVer, r.value.updates)
    ensures r.Ok? && !Contains(ChannelNodes(svc, arch, targetChannel), startVer) ==>
              r.value.current == r.value.requested && r.value.updates == [r.value.current]
  {
    if r.Ok? {
      var g := svc.graphs[(arch, targetChannel)];
      if Contains(g.nodes, startVer) {
        PlanIsWay(g, startVer, reqVer, r.value);
      } else {
        PlanIsWay(g, reqVer, reqVer, r.value);
        PlanToItself(g, reqVer, r.value);
      }
    }
  }

  function Patch(patch: U64): Version
  {
    Version(4, 13, patch, [], [])
  }

  /** 4.13.1 and 4.13.5, with an edge between them. */
  const TWO_RELEASES := Graph([Node(Patch(1), "one"), Node(Patch(5), "five")], [Edge(0, 1)])

  /** Channel 4.13 of the prefix holds these two releases. */
  function TwoReleases(arch: string, prefix: string): Service
  {
    Service(map[(arch, ChannelName(prefix, 4, 13)) := TWO_RELEASES], _ => true)
  }

  lemma TwoReleasesWellFormed(arch: string, prefix: string)
    ensures WellFormed(TwoReleases(arch, prefix))
    ensures ChannelNodes(TwoReleases(arch, prefix), arch, ChannelName(prefix, 4, 13)) == TWO_RELEASES.nodes
  {
  }

  lemma PatchesDiffer()
    ensures forall m: U64, n: U64 :: Eq(Patch(m), Patch(n)) <==> m == n
  {
    forall m: U64, n: U64 ensures Eq(Patch(m), Patch(n)) <==> m == n {
      EqIgnoresBuildOnly(Patch(m), Patch(n));
    }
  }

  lemma HeldReleases()
    ensures Contains(TWO_RELEASES.nodes, Patch(1)) && Contains(TWO_RELEASES.nodes, Patch(5))
    ensures !Contains(TWO_RELEASES.nodes, Patch(0))
  {
    PatchesDiffer();
    assert Eq(Patch(1), TWO_RELEASES.nodes[0].version) && Eq(Patch(5), TWO_RELEASES.nodes[1].version);
  }

  lemma EdgeIsWay(way: seq<Node>)
    requires IsWayBetween(TWO_RELEASES, 0, 1, way)
    ensures way == TWO_RELEASES.nodes
  {
    var g := TWO_RELEASES;
    assert EdgeAt(g, [0, 1], 1);
    assert IsRoute(g, 0, 1, [0, 1]);
    var p :| IsPreferred(g, 0, 1, p) && AreNodes(g, p) && way == NodesAt(g, p);
    assert |p| == 2;
  }

  lemma WayOverEdge(plan: Plan)
    requires IsPlan(TWO_RELEASES, Patch(1), Patch(5), plan)
    ensures plan == Plan(TWO_RELEASES.nodes[0], TWO_RELEASES.nodes[1], TWO_RELEASES.nodes)
  {
    PatchesDiffer();
    PlanEndsAreFirst(TWO_RELEASES, Patch(1), Patch(5), plan, 0, 1);
    EdgeIsWay(plan.updates);
  }

  lemma RequestAlone(plan: Plan)
    requires IsPlan(TWO_RELEASES, Patch(5), Patch(5), plan)
    ensures plan == Plan(TWO_RELEASES.nodes[1], TWO_RELEASES.nodes[1], [TWO_RELEASES.nodes[1]])
  {
    PatchesDiffer();
    PlanToItself(TWO_RELEASES, Patch(5), plan);
    PlanEndsAreFirst(TWO_RELEASES, Patch(5), Patch(5), plan, 1, 1);
  }

  /** Such an answer comes from the target channel alone. */
  lemma AnswerFromTarget(svc: Service, arch: string, sourceChannel: string, targetChannel: string, startVer: Version,
                         reqVer: Version, r: Result<Plan>)
    requires SameVersion(sourceChannel, targetChannel) && Contains(ChannelNodes(svc, arch, targetChannel), reqVer)
    requires IsUpgradeAnswer(svc, arch, sourceChannel, targetChannel, startVer, reqVer, r)
    ensures r.Ok? && (arch, targetChannel) in svc.graphs
    ensures IsPlan(svc.graphs[(arch, targetChannel)],
                   if Contains(ChannelNodes(svc, arch, targetChannel), startVer) then startVer else reqVer, reqVer,
                   r.value)
  {
  }

  /**
   * Both cases occur: from another channel 4.13 the answer from 4.13.1 is the way over the edge, and from 4.13.0, which
   * the target lacks, it is 4.13.5 alone.
   */
  lemma BothCasesOccur(arch: string, prefix: string, prefix': string, r: Result<Plan>, r': Result<Plan>)
    requires prefix != prefix'
    requires IsUpgradeAnswer(TwoReleases(arch, prefix'), arch, ChannelName(prefix, 4, 13), ChannelName(prefix', 4, 13),
                             Patch(1), Patch(5), r)
    requires IsUpgradeAnswer(TwoReleases(arch, prefix'), arch, ChannelName(prefix, 4, 13), ChannelName(prefix', 4, 13),
                             Patch(0), Patch(5), r')
    ensures WellFormed(TwoReleases(arch, prefix'))
    ensures var one, five := Node(Patch(1), "one"), Node(Patch(5), "five");
            r == Ok(Plan(one, five, [one, five])) && r' == Ok(Plan(five, five, [five]))
  {
    var svc, source, target := TwoReleases(arch, prefix'), ChannelName(prefix, 4, 13), ChannelName(prefix', 4, 13);
    PrefixesOfOneVersion(prefix, prefix', 4, 13);
    TwoReleasesWellFormed(arch, prefix');
    HeldReleases();
    AnswerFromTarget(svc, arch, source, target, Patch(1), Patch(5), r);
    WayOverEdge(r.value);
    AnswerFromTarget(svc, arch, source, target, Patch(0), Patch(5), r');
    RequestAlone(r'.value);
  }

  // ---------------------------------------------------------------- channels of different versions

  /** What the walk across channels works with, after the source channel. */
  ghost function TripOf(svc: Service, arch: string, sourceChannel: string, targetChannel: string,
                        reqVer: Version): (Version, Trip)
    requires ParseChannels(sourceChannel, targetChannel).Ok?
  {
    var c := ParseChannels(sourceChannel, targetChannel).value;
    (c.0, Trip(svc, arch, c.2, c.1, targetChannel, reqVer))
  }

  ghost predicate OtherVersion(sourceChannel: string, targetChannel: string)
  {
    && ParseChannels(sourceChannel, targetChannel).Ok?
    && var c := ParseChannels(sourceChannel, targetChannel).value; !Eq(c.0, c.1)
  }

  ghost predicate IsGreatest(svc: Service, arch: string, channel: string, v: Version)
  {
    IsBound(ChannelNodes(svc, arch, channel), svc.matches, false, v)
  }

  /** The plan starts with a preferred way in the source channel from the start version to that channel's greatest. */
  ghost predicate StartsInSource(svc: Service, arch: string, sourceChannel: string, startVer: Version,
                                 greatest: Version, plan: Plan)
  {
    && IsGreatest(svc, arch, sourceChannel, greatest) && (arch, sourceChannel) in svc.graphs
    && Eq(startVer, plan.current.version) && plan.current in ChannelNodes(svc, arch, sourceChannel)
    && exists way :: IsWay(svc.graphs[(arch, sourceChannel)], startVer, greatest, way) &&
                     FirstOccurrences(way) <= plan.updates
  }

  lemma FirstLegStarts(trip: Trip, source: Version, sourceChannel: string, startVer: Version, legs: seq<Leg>, end: End,
                       plan: Plan)
    requires CrossesVia(trip, source, sourceChannel, startVer, legs, end, Ok(plan))
    ensures StartsInSource(trip.svc, trip.arch, sourceChannel, startVer, legs[0].to, plan)
  {
    var leg, g := legs[0], trip.svc.graphs[(trip.arch, sourceChannel)];
    PlanIsWay(g, startVer, leg.to, leg.plan);
    PlanFindsRequested(g, startVer, leg.to, leg.plan);
    KeptFirst(leg.plan.updates, Joined(legs[1..]));
  }

  /** The node a walk returns is one of the target channel, whether it arrives there or is blocked. */
  lemma RequestedInTarget(trip: Trip, source: Version, v: Version, legs: seq<Leg>, end: End)
    requires Walk(trip, source, v, legs, end) && !end.Failed?
    ensures end.Blocked? || legs != []
    ensures Requested(legs, end) in NodesOf(trip, trip.targetChannel)
  {
    if end.Arrived? {
      var leg := legs[|legs| - 1];
      ArrivalDistance(trip, source, v, legs);
      LegLinked(trip, source, v, legs, end, |legs| - 1);
      PlanFindsRequested(trip.svc.graphs[(trip.arch, leg.channel)], leg.from, leg.to, leg.plan);
    } else {
      assert EndsAt(trip, SourceAfter(source, |legs|), Reached(v, legs, |legs|), end);
    }
  }

  /**
   * Between channels of different versions the answer starts in the source channel with the way to its greatest
   * version and returns a node of the target channel, which has the requested version exactly if the service lets a
   * walk from that greatest version arrive, or closes it at the target or at a channel with the requested version as
   * its greatest.
   */
  lemma CrossingAnswer(svc: Service, arch: string, sourceChannel: string, targetChannel: string, startVer: Version,
                       reqVer: Version, r: Result<Plan>) returns (greatest: Version)
    requires OtherVersion(sourceChannel, targetChannel) && r.Ok?
    requires IsUpgradeAnswer(svc, arch, sourceChannel, targetChannel, startVer, reqVer, r)
    ensures StartsInSource(svc, arch, sourceChannel, startVer, greatest, r.value)
    ensures r.value.requested in ChannelNodes(svc, arch, targetChannel)
    ensures var (source, trip) := TripOf(svc, arch, sourceChannel, targetChannel, reqVer);
            Eq(reqVer, r.value.requested.version) <==>
            Arrives(trip, source, greatest) || ClosedAtRequest(trip, source, greatest)
  {
    NamesDiffer(sourceChannel, targetChannel);
    var (source, trip) := TripOf(svc, arch, sourceChannel, targetChannel, reqVer);
    var legs: seq<Leg>, end: End :| CrossesVia(trip, source, sourceChannel, startVer, legs, end, r);
    greatest := legs[0].to;
    FirstLegStarts(trip, source, sourceChannel, startVer, legs, end, r.value);
    RequestedInTarget(trip, source, greatest, legs[1..], end);
    RequestedOnService(trip, source, greatest, legs[1..], end);
  }

  lemma NamesDiffer(sourceChannel: string, targetChannel: string)
    requires OtherVersion(sourceChannel, targetChannel)
    ensures sourceChannel != targetChannel
  {
    var c := ParseChannels(sourceChannel, targetChannel).value;
    EqIgnoresBuildOnly(c.0, c.0);
  }

  /**
   * It fails exactly if the source channel offers nothing or lacks the start version, or the service makes the walk
   * from the source channel's greatest version fail.
   */
  lemma CrossingFailsExactlyWhen(svc: Service, arch: string, sourceChannel: string, targetChannel: string,
                                 startVer: Version, reqVer: Version, r: Result<Plan>)
    requires OtherVersion(sourceChannel, targetChannel)
    requires IsUpgradeAnswer(svc, arch, sourceChannel, targetChannel, startVer, reqVer, r)
    ensures var (source, trip) := TripOf(svc, arch, sourceChannel, targetChannel, reqVer);
            var nodes := ChannelNodes(svc, arch, sourceChannel);
            r.Err? <==>
            || !HasAccepted(nodes, svc.matches) || !Contains(nodes, startVer)
            || exists greatest :: IsGreatest(svc, arch, sourceChannel, greatest) && Fails(trip, source, greatest)
  {
    NamesDiffer(sourceChannel, targetChannel);
    var (source, trip) := TripOf(svc, arch, sourceChannel, targetChannel, reqVer);
    var nodes := ChannelNodes(svc, arch, sourceChannel);
    if HasAccepted(nodes, svc.matches) && Contains(nodes, startVer) {
      assert CrossesSomehow(trip, source, sourceChannel, startVer, r);
      var legs: seq<Leg>, end: End :| CrossesVia(trip, source, sourceChannel, startVer, legs, end, r);
      FailsExactlyWhen(trip, source, legs[0].to, legs[1..], end);
      forall greatest | IsGreatest(svc, arch, sourceChannel, greatest)
        ensures Fails(trip, source, greatest) <==> Fails(trip, source, legs[0].to)
      {
        BoundsEq(nodes, svc.matches, greatest, legs[0].to);
        FailsEq(trip, source, greatest, legs[0].to);
      }
    }
  }

  lemma FailsEq(trip: Trip, source: Version, v: Version, w: Version)
    requires Eq(v, w)
    ensures Fails(trip, source, v) <==> Fails(trip, source, w)
  {
    forall k: nat ensures IsOpenAt(trip, source, v, k) <==> IsOpenAt(trip, source, w, k) {
      ContainsEq(NodesAfter(trip, source, 0), v, w);
    }
    forall n: nat ensures FailsAfter(trip, source, v, n) <==> FailsAfter(trip, source, w, n) {
    }
  }

  // ---------------------------------------------------------------- in every case

  /** The start version is not part of the answer: two channels of one version, of which the target lacks it. */
  ghost predicate StartIsSkipped(svc: Service, arch: string, sourceChannel: string, targetChannel: string,
                                 startVer: Version)
  {
    SameVersion(sourceChannel, targetChannel) && !Contains(ChannelNodes(svc, arch, targetChannel), startVer)
  }

  /** Every answer starts with the start version, unless it is skipped, and returns a node of the target channel. */
  lemma AnswerEnds(svc: Service, arch: string, sourceChannel: string, targetChannel: string, startVer: Version,
                   reqVer: Version, plan: Plan)
    requires IsUpgradeAnswer(svc, arch, sourceChannel, targetChannel, startVer, reqVer, Ok(plan))
    ensures Eq(if StartIsSkipped(svc, arch, sourceChannel, targetChannel, startVer) then reqVer else startVer,
               plan.current.version)
    ensures plan.requested in ChannelNodes(svc, arch, targetChannel)
  {
    if sourceChannel == targetChannel {
      PlanIsWay(svc.graphs[(arch, targetChannel)], startVer, reqVer, plan);
      PlanFindsRequested(svc.graphs[(arch, targetChannel)], startVer, reqVer, plan);
    } else if SameVersion(sourceChannel, targetChannel) {
      SameVersionAnswer(svc, arch, sourceChannel, targetChannel, startVer, reqVer, Ok(plan));
      SameVersionRequested(svc, arch, sourceChannel, targetChannel, startVer, reqVer, plan);
    } else {
      var _ := CrossingAnswer(svc, arch, sourceChannel, targetChannel, startVer, reqVer, Ok(plan));
    }
  }

  lemma SameVersionRequested(svc: Service, arch: string, sourceChannel: string, targetChannel: string,
                             startVer: Version, reqVer: Version, plan: Plan)
    requires SameVersion(sourceChannel, targetChannel)
    requires IsUpgradeAnswer(svc, arch, sourceChannel, targetChannel, startVer, reqVer, Ok(plan))
    ensures plan.requested in ChannelNodes(svc, arch, targetChannel)
  {
    var g := svc.graphs[(arch, targetChannel)];
    var from := if Contains(g.nodes, startVer) then startVer else reqVer;
    PlanFindsRequested(g, from, reqVer, plan);
  }
}
