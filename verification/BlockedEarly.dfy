/** A service on which an upgrade query answers with a version nobody asked for. */
module BlockedEarly {
  import opened Outcome
  import opened Text
  import opened Semver
  import opened UpgradeGraph
  import opened Cincinnati
  import opened ChannelNames
  import opened CrossChannel
  import opened UpgradeWalks

  function Release(minor: U64): Version
  {
    MinorVersion(4, minor)
  }

  function Name(prefix: string, minor: U64): string
  {
    ChannelName(prefix, 4, minor)
  }

  /**
   * Channel 4.1 holds 4.1.0 and channel 4.2 holds 4.2.0 only, so that it blocks 4.1.0; channel 4.3 holds 4.2.0 and
   * 4.3.0.
   */
  ghost predicate Blocks(svc: Service, arch: string, prefix: string)
  {
    && svc.matches(Release(1)) && svc.matches(Release(2)) && svc.matches(Release(3))
    && ChannelNodes(svc, arch, Name(prefix, 1)) == [Node(Release(1), "a")]
    && ChannelNodes(svc, arch, Name(prefix, 2)) == [Node(Release(2), "b")]
    && ChannelNodes(svc, arch, Name(prefix, 3)) == [Node(Release(2), "b"), Node(Release(3), "c")]
  }

  function ThreeChannels(arch: string, prefix: string): Service
  {
    Service(map[(arch, Name(prefix, 1)) := Graph([Node(Release(1), "a")], []),
                (arch, Name(prefix, 2)) := Graph([Node(Release(2), "b")], []),
                (arch, Name(prefix, 3)) := Graph([Node(Release(2), "b"), Node(Release(3), "c")], [Edge(0, 1)])],
            _ => true)
  }

  lemma ThreeChannelsBlock(arch: string, prefix: string)
    ensures Blocks(ThreeChannels(arch, prefix), arch, prefix) && WellFormed(ThreeChannels(arch, prefix))
  {
    ChannelNameInjective(prefix, 4, 1, 2);
    ChannelNameInjective(prefix, 4, 1, 3);
    ChannelNameInjective(prefix, 4, 2, 3);
  }

  lemma ReleasesDiffer(m: U64, n: U64)
    ensures Eq(Release(m), Release(n)) <==> m == n
  {
    EqIgnoresBuildOnly(Release(m), Release(n));
  }

  /** In a channel of one accepted version that version is the greatest. */
  lemma OnlyVersionIsGreatest(nodes: seq<Node>, matches: Version -> bool, v: Version, w: Version)
    requires |nodes| == 1 && matches(nodes[0].version) && nodes[0].version == v
    ensures IsBound(nodes, matches, false, w) <==> w == v
  {
    EqIgnoresBuildOnly(v, v);
    assert IsAccepted(nodes, matches, v);
  }

  ghost function TripTo(svc: Service, arch: string, prefix: string): Trip
  {
    Trip(svc, arch, prefix, Release(3), Name(prefix, 3), Release(3))
  }

  /** The walk is blocked at once and returns 4.2.0 from the target channel. */
  lemma BlockedAtOnce(svc: Service, arch: string, prefix: string)
    requires Blocks(svc, arch, prefix)
    ensures !AtTarget(TripTo(svc, arch, prefix), Release(1))
    ensures NextChannel(TripTo(svc, arch, prefix), Release(1)) == Name(prefix, 2)
    ensures Walk(TripTo(svc, arch, prefix), Release(1), Release(1), [], Blocked(Release(2), Node(Release(2), "b")))
  {
    var trip := TripTo(svc, arch, prefix);
    ReleasesDiffer(2, 3);
    ReleasesDiffer(1, 2);
    ReleasesDiffer(2, 2);
    assert Bumped(Release(1)) == Release(2);
    OnlyVersionIsGreatest(NodesOf(trip, Name(prefix, 2)), svc.matches, Release(2), Release(2));
    assert IsFirst(NodesOf(trip, trip.targetChannel), Release(2), 0);
    assert EndsAt(trip, Release(1), Release(1), Blocked(Release(2), Node(Release(2), "b")));
  }

  /** Whatever walk is made, it is blocked before the target and does not return the requested version. */
  lemma WalkMissesRequest(svc: Service, arch: string, prefix: string, legs: seq<Leg>, end: End)
    requires Blocks(svc, arch, prefix) && Walk(TripTo(svc, arch, prefix), Release(1), Release(1), legs, end)
    ensures end.Blocked? && !Eq(Release(3), Requested(legs, end).version)
  {
    var trip := TripTo(svc, arch, prefix);
    BlockedAtOnce(svc, arch, prefix);
    ReleasesDiffer(1, 1);
    ReleasesDiffer(2, 3);
    WalkIsDetermined(trip, Release(1), Release(1), [], Blocked(Release(2), Node(Release(2), "b")), Release(1), legs,
                     end);
    RequestedExactlyWhen(trip, Release(1), Release(1), legs, end);
    if GreatestIs(trip, Release(1), Release(3)) {
      var goal :| IsBound(NodesOf(trip, Name(prefix, 2)), svc.matches, false, goal) && Eq(goal, Release(3));
      OnlyVersionIsGreatest(NodesOf(trip, Name(prefix, 2)), svc.matches, Release(2), goal);
    }
  }

  lemma NamesRead(prefix: string)
    ensures ParseChannels(Name(prefix, 1), Name(prefix, 3)) == Ok((Release(1), Release(3), prefix))
  {
    ParseChannelName(prefix, 4, 1);
    ParseChannelName(prefix, 4, 3);
  }

  /**
   * Asked for the way from 4.1.0 to 4.3.0, such a service's answer succeeds with another version than 4.3.0, although
   * the target channel holds 4.3.0.
   */
  lemma AnswerMissesRequest(svc: Service, arch: string, prefix: string, r: Result<Plan>)
    requires Blocks(svc, arch, prefix)
    requires IsUpgradeAnswer(svc, arch, Name(prefix, 1), Name(prefix, 3), Release(1), Release(3), r)
    ensures r.Ok? && !Eq(Release(3), r.value.requested.version)
    ensures Contains(ChannelNodes(svc, arch, Name(prefix, 3)), Release(3))
  {
    ReleasesDiffer(3, 3);
    assert Eq(Release(3), ChannelNodes(svc, arch, Name(prefix, 3))[1].version);
    NamesRead(prefix);
    ReleasesDiffer(1, 3);
    ChannelNameInjective(prefix, 4, 1, 3);
    CrossingMissesRequest(svc, arch, prefix, r);
  }

  lemma CrossingMissesRequest(svc: Service, arch: string, prefix: string, r: Result<Plan>)
    requires Blocks(svc, arch, prefix)
    requires Crosses(TripTo(svc, arch, prefix), Release(1), Name(prefix, 1), Release(1), r)
    ensures r.Ok? && !Eq(Release(3), r.value.requested.version)
  {
    var trip := TripTo(svc, arch, prefix);
    var nodes := NodesOf(trip, Name(prefix, 1));
    ReleasesDiffer(1, 1);
    assert IsAccepted(nodes, svc.matches, Release(1)) && Eq(Release(1), nodes[0].version);
    assert CrossesSomehow(trip, Release(1), Name(prefix, 1), Release(1), r);
    var legs: seq<Leg>, end: End :| CrossesVia(trip, Release(1), Name(prefix, 1), Release(1), legs, end, r);
    OnlyVersionIsGreatest(nodes, svc.matches, Release(1), legs[0].to);
    WalkMissesRequest(svc, arch, prefix, legs[1..], end);
  }
}
