/** `CalculateUpgrades` and `calculate`: upgrade paths stitched together across release channels. */
module CrossChannel {
  import opened Outcome
  import opened Text
  import opened Semver
  import opened UpgradeGraph
  import opened Cincinnati
  import opened ChannelNames
  import opened Repeats

  /** What stays fixed while the walk goes from channel to channel. */
  datatype Trip = Trip(svc: Service, arch: string, prefix: string, target: Version, targetChannel: string,
                       reqVer: Version)

  /** One channel of the walk, with the plan from the version it was entered with to the version it was left with. */
  datatype Leg = Leg(channel: string, from: Version, to: Version, plan: Plan)

  /**
   * How a walk ends: in the target channel, at a channel that does not hold the version reached so far,
   * or with an error.
   */
  datatype End = Arrived | Blocked(goal: Version, requested: Node) | Failed

  function Bumped(source: Version): Version
  {
    source.(minor := NextMinor(source.minor))
  }

  predicate AtTarget(trip: Trip, source: Version)
  {
    Eq(Bumped(source), trip.target)
  }

  function NextChannel(trip: Trip, source: Version): string
  {
    if AtTarget(trip, source) then trip.targetChannel
    else ChannelName(trip.prefix, source.major, NextMinor(source.minor))
  }

  /** The source version read back from the name of the channel just visited. */
  function NextSource(source: Version): Version
  {
    MinorVersion(source.major, NextMinor(source.minor))
  }

  ghost function NodesOf(trip: Trip, channel: string): seq<Node>
  {
    ChannelNodes(trip.svc, trip.arch, channel)
  }

  /** The version to reach in the next channel: the requested one in the target, else the channel's greatest. */
  ghost predicate IsGoal(trip: Trip, source: Version, goal: Version)
  {
    if AtTarget(trip, source) then goal == trip.reqVer
    else IsBound(NodesOf(trip, NextChannel(trip, source)), trip.svc.matches, false, goal)
  }

  ghost predicate IsLeg(svc: Service, arch: string, leg: Leg)
  {
    (arch, leg.channel) in svc.graphs && IsPlan(svc.graphs[(arch, leg.channel)], leg.from, leg.to, leg.plan)
  }

  ghost predicate IsFound(nodes: seq<Node>, v: Version, n: Node)
  {
    exists i :: IsFirst(nodes, v, i) && nodes[i] == n
  }

  /**
   * The step after `source`, entered with version `v`, fails: the channel has nothing to offer, or the
   * last lookup in the target channel finds nothing.
   */
  ghost predicate FailsAt(trip: Trip, source: Version, v: Version)
  {
    var nodes := NodesOf(trip, NextChannel(trip, source));
    || (if AtTarget(trip, source) then nodes == [] else !HasAccepted(nodes, trip.svc.matches))
    || (!Contains(nodes, v) &&
        exists goal :: IsGoal(trip, source, goal) && !Contains(NodesOf(trip, trip.targetChannel), goal))
    || (Contains(nodes, v) && AtTarget(trip, source) && !Contains(nodes, trip.reqVer))
  }

  /** The source version from which the walk makes its leg `k`. */
  function SourceAfter(source: Version, k: nat): Version
  {
    if k == 0 then source else MinorVersion(source.major, MinorAfter(source.minor, k))
  }

  /** The version with which the walk enters the channel after its first `k` legs. */
  function Reached(v: Version, legs: seq<Leg>, k: nat): Version
    requires k <= |legs|
  {
    if k == 0 then v else legs[k - 1].to
  }

  /**
   * A leg from `source` plans from the version reached to the goal of its channel; only the last may be in the
   * target.
   */
  ghost predicate LegFits(trip: Trip, source: Version, from: Version, leg: Leg, arrives: bool)
  {
    && leg.channel == NextChannel(trip, source) && leg.from == from
    && IsGoal(trip, source, leg.to)
    && IsLeg(trip.svc, trip.arch, leg)
    && (AtTarget(trip, source) <==> arrives)
  }

  ghost predicate EndsAt(trip: Trip, source: Version, v: Version, end: End)
  {
    match end
    case Arrived => true
    case Blocked(goal, requested) =>
      && IsGoal(trip, source, goal)
      && NodesOf(trip, NextChannel(trip, source)) != [] && !Contains(NodesOf(trip, NextChannel(trip, source)), v)
      && IsFound(NodesOf(trip, trip.targetChannel), goal, requested)
    case Failed => FailsAt(trip, source, v)
  }

  /** Which legs and ends a trip allows. */
  datatype Rules = Rules(fits: (Version, Version, Leg, bool) -> bool, ends: (Version, Version, End) -> bool)

  ghost function RulesOf(trip: Trip): Rules
  {
    Rules((source, from, leg, arrives) => LegFits(trip, source, from, leg, arrives),
          (source, v, end) => EndsAt(trip, source, v, end))
  }

  /** Leg `k` of a walk that starts from `source` with version `v`; an arriving walk does so with its last leg. */
  ghost predicate LegBy(rules: Rules, source: Version, v: Version, legs: seq<Leg>, end: End, k: nat)
    requires k < |legs|
  {
    rules.fits(SourceAfter(source, k), Reached(v, legs, k), legs[k], end.Arrived? && k == |legs| - 1)
  }

  ghost predicate WalkBy(rules: Rules, source: Version, v: Version, legs: seq<Leg>, end: End)
  {
    && (forall k :: 0 <= k < |legs| ==> LegBy(rules, source, v, legs, end, k))
    && (end.Arrived? ==> legs != [])
    && rules.ends(SourceAfter(source, |legs|), Reached(v, legs, |legs|), end)
  }

  ghost predicate LegAt(trip: Trip, source: Version, v: Version, legs: seq<Leg>, end: End, k: nat)
    requires k < |legs|
  {
    LegBy(RulesOf(trip), source, v, legs, end, k)
  }

  /**
   * From `source` and version `v` the walk makes `legs` through consecutive minors and then ends as
   * `end` says.
   */
  ghost predicate Walk(trip: Trip, source: Version, v: Version, legs: seq<Leg>, end: End)
  {
    WalkBy(RulesOf(trip), source, v, legs, end)
  }

  ghost function Joined(legs: seq<Leg>): seq<Node>
  {
    if legs == [] then [] else legs[0].plan.updates + Joined(legs[1..])
  }

  ghost function Requested(legs: seq<Leg>, end: End): Node
    requires end.Blocked? || legs != []
  {
    if end.Blocked? then end.requested else legs[|legs| - 1].plan.requested
  }

  // ---------------------------------------------------------------- termination

  ghost function Gap(svc: Service, arch: string, prefix: string, major: U64): (gap: U64)
    requires |svc.graphs| < U64_LIMIT
    ensures (arch, ChannelName(prefix, major, gap)) !in svc.graphs
  {
    assert exists m: U64 :: (arch, ChannelName(prefix, major, m)) !in svc.graphs.Keys by {
      var m := SomeNameIsFree(svc.graphs.Keys, arch, prefix, major);
    }
    var gap: U64 :| (arch, ChannelName(prefix, major, gap)) !in svc.graphs.Keys;
    gap
  }

  /** How many channels the walk can still enter before it meets a name without a channel. */
  ghost function Remaining(svc: Service, arch: string, sourceChannel: string): nat
    requires |svc.graphs| < U64_LIMIT
  {
    match ParseChannel(sourceChannel)
    case Err(_) => 0
    case Ok(c) => Distance(c.version.minor, Gap(svc, arch, c.prefix, c.version.major))
  }

  /** Number of minors strictly after `m` and before `gap`, going round after the greatest one. */
  ghost function Distance(m: U64, gap: U64): nat
  {
    if m < gap then gap - m - 1 else gap + U64_LIMIT - m - 1
  }

  /** The next call reads its source back from the printed name, and one channel less remains. */
  lemma NamesContinue(trip: Trip, source: Version, sourceChannel: string)
    requires |trip.svc.graphs| < U64_LIMIT && !AtTarget(trip, source)
    requires ParseChannels(sourceChannel, trip.targetChannel) == Ok((source, trip.target, trip.prefix))
    requires (trip.arch, NextChannel(trip, source)) in trip.svc.graphs
    ensures ParseChannels(NextChannel(trip, source), trip.targetChannel) ==
            Ok((NextSource(source), trip.target, trip.prefix))
    ensures Remaining(trip.svc, trip.arch, NextChannel(trip, source)) < Remaining(trip.svc, trip.arch, sourceChannel)
  {
    ParseChannelName(trip.prefix, source.major, NextMinor(source.minor));
    DistanceDecreases(source.minor, Gap(trip.svc, trip.arch, trip.prefix, source.major));
  }

  lemma DistanceDecreases(m: U64, gap: U64)
    requires gap != NextMinor(m)
    ensures Distance(NextMinor(m), gap) == Distance(m, gap) - 1
  {
  }

  // ---------------------------------------------------------------- the walk

  /** `r` is what the walk `legs` with this `end` reports: the requested node and the paths of all legs in turn. */
  ghost predicate Reports(trip: Trip, source: Version, v: Version, legs: seq<Leg>, end: End,
                          r: Result<(Node, seq<Node>)>)
  {
    && Walk(trip, source, v, legs, end)
    && (r.Err? <==> end.Failed?)
    && (r.Ok? ==> (end.Blocked? || legs != []) && r.value == (Requested(legs, end), Joined(legs)))
  }

  /** `r` is what some walk reports. */
  ghost predicate IsReport(trip: Trip, source: Version, v: Version, r: Result<(Node, seq<Node>)>)
  {
    exists legs, end :: Reports(trip, source, v, legs, end, r)
  }

  lemma ReportsArrival(trip: Trip, source: Version, leg: Leg)
    requires AtTarget(trip, source) && leg.channel == NextChannel(trip, source) && IsGoal(trip, source, leg.to)
    requires IsLeg(trip.svc, trip.arch, leg)
    ensures IsReport(trip, source, leg.from, Ok((leg.plan.requested, leg.plan.updates)))
  {
    JoinedCons(leg, []);
    assert [leg] + [] == [leg] && leg.plan.updates + [] == leg.plan.updates;
    assert LegAt(trip, source, leg.from, [leg], Arrived, 0);
    assert Reports(trip, source, leg.from, [leg], Arrived, Ok((leg.plan.requested, leg.plan.updates)));
  }

  lemma IsReportLonger(trip: Trip, source: Version, leg: Leg, r: Result<(Node, seq<Node>)>)
    requires !AtTarget(trip, source) && leg.channel == NextChannel(trip, source) && IsGoal(trip, source, leg.to)
    requires IsLeg(trip.svc, trip.arch, leg)
    requires IsReport(trip, NextSource(source), leg.to, r)
    ensures IsReport(trip, source, leg.from, if r.Err? then r else Ok((r.value.0, leg.plan.updates + r.value.1)))
  {
    var legs, end :| Reports(trip, NextSource(source), leg.to, legs, end, r);
    ReportsLonger(trip, source, leg, legs, end, r);
  }

  lemma ReportsLonger(trip: Trip, source: Version, leg: Leg, legs: seq<Leg>, end: End, r: Result<(Node, seq<Node>)>)
    requires !AtTarget(trip, source) && leg.channel == NextChannel(trip, source) && IsGoal(trip, source, leg.to)
    requires IsLeg(trip.svc, trip.arch, leg)
    requires Reports(trip, NextSource(source), leg.to, legs, end, r)
    ensures Reports(trip, source, leg.from, [leg] + legs, end,
                    if r.Err? then r else Ok((r.value.0, leg.plan.updates + r.value.1)))
  {
    WalkLonger(trip, source, leg, legs, end);
    JoinedCons(leg, legs);
    if r.Ok? {
      assert end.Blocked? || ([leg] + legs)[|legs|] == legs[|legs| - 1];
    }
  }

  lemma JoinedCons(leg: Leg, legs: seq<Leg>)
    ensures Joined([leg] + legs) == leg.plan.updates + Joined(legs)
  {
    assert ([leg] + legs)[1..] == legs;
  }

  /** A leg before a walk from the next minor is a walk from this one. */
  lemma WalkLonger(trip: Trip, source: Version, leg: Leg, legs: seq<Leg>, end: End)
    requires !AtTarget(trip, source) && leg.channel == NextChannel(trip, source) && IsGoal(trip, source, leg.to)
    requires IsLeg(trip.svc, trip.arch, leg)
    requires Walk(trip, NextSource(source), leg.to, legs, end)
    ensures Walk(trip, source, leg.from, [leg] + legs, end)
  {
    WalkByLonger(RulesOf(trip), source, leg, legs, end);
  }

  /** The same whatever the rules for legs and ends are. */
  lemma WalkByLonger(rules: Rules, source: Version, leg: Leg, legs: seq<Leg>, end: End)
    requires rules.fits(source, leg.from, leg, false) && WalkBy(rules, NextSource(source), leg.to, legs, end)
    ensures WalkBy(rules, source, leg.from, [leg] + legs, end)
  {
    var all := [leg] + legs;
    forall k | 0 <= k < |all| ensures LegBy(rules, source, leg.from, all, end, k) {
      if k > 0 {
        SourceAfterNext(source, k - 1);
        assert LegBy(rules, NextSource(source), leg.to, legs, end, k - 1);
        assert Reached(leg.from, all, k) == Reached(leg.to, legs, k - 1);
      }
    }
    SourceAfterNext(source, |legs|);
    assert Reached(leg.from, all, |all|) == Reached(leg.to, legs, |legs|);
  }

  lemma SourceAfterNext(source: Version, k: nat)
    ensures SourceAfter(NextSource(source), k) == SourceAfter(source, k + 1)
  {
    MinorAfterNext(source.minor, k);
  }

  /** `calculate`. */
  method Calculate(svc: Service, arch: string, sourceChannel: string, targetChannel: string, startVer: Version,
                   reqVer: Version)
    returns (r: Result<(Node, seq<Node>)>)
    requires WellFormed(svc)
    ensures match ParseChannels(sourceChannel, targetChannel)
            case Err(e) => r == Err(e)
            case Ok(c) => IsReport(Trip(svc, arch, c.2, c.1, targetChannel, reqVer), c.0, startVer, r)
    decreases Remaining(svc, arch, sourceChannel)
  {
    var names := ParseChannels(sourceChannel, targetChannel);
    if names.Err? {
      r := Err(names.reason);
      return;
    }
    var source, target, prefix := names.value.0, names.value.1, names.value.2;
    var trip := Trip(svc, arch, prefix, target, targetChannel, reqVer);
    var currChannel := NextChannel(trip, source);
    var goal := NextGoal(trip, source);
    if goal.Err? {
      ReportsFailure(trip, source, startVer, goal.reason);
      r := Err(goal.reason);
      return;
    }
    var targetVer := goal.value;
    var blocked := HandleBlockedEdges(svc, arch, currChannel, startVer);
    if blocked.Err? {
      AcceptedMeansNonEmpty(NodesOf(trip, currChannel), svc.matches);
      ReportsFailure(trip, source, startVer, blocked.reason);
      r := Err(blocked.reason);
      return;
    }
    if blocked.value {
      r := LookUpInTarget(trip, source, startVer, targetVer);
      return;
    }
    var plan := GetUpdates(svc, arch, currChannel, startVer, targetVer);
    if plan.Err? {
      BoundIsContained(NodesOf(trip, currChannel), svc.matches, false, targetVer);
      ReportsFailure(trip, source, startVer, plan.reason);
      r := Err(plan.reason);
      return;
    }
    ghost var leg := Leg(currChannel, startVer, targetVer, plan.value);
    if AtTarget(trip, source) {
      ReportsArrival(trip, source, leg);
      r := Ok((plan.value.requested, plan.value.updates));
      return;
    }
    NamesContinue(trip, source, sourceChannel);
    var rest := Calculate(svc, arch, currChannel, targetChannel, targetVer, reqVer);
    IsReportLonger(trip, source, leg, rest);
    r := if rest.Err? then rest else Ok((rest.value.0, plan.value.updates + rest.value.1));
  }

  /** The requested version in the target channel, else the greatest version of the next channel. */
  method NextGoal(trip: Trip, source: Version) returns (r: Result<Version>)
    ensures r.Ok? ==> IsGoal(trip, source, r.value)
    ensures r.Err? <==>
            !AtTarget(trip, source) && !HasAccepted(NodesOf(trip, NextChannel(trip, source)), trip.svc.matches)
  {
    if Eq(Bumped(source), trip.target) {
      r := Ok(trip.reqVer);
    } else {
      r := GetChannelMinOrMax(trip.svc, trip.arch, NextChannel(trip, source), false);
    }
  }

  lemma ReportsFailure(trip: Trip, source: Version, v: Version, reason: Reason)
    requires FailsAt(trip, source, v)
    ensures IsReport(trip, source, v, Err(reason))
  {
    assert Reports(trip, source, v, [], Failed, Err(reason));
  }

  lemma ReportsBlock(trip: Trip, source: Version, v: Version, goal: Version, requested: Node)
    requires EndsAt(trip, source, v, Blocked(goal, requested))
    ensures IsReport(trip, source, v, Ok((requested, [])))
  {
    assert Reports(trip, source, v, [], Blocked(goal, requested), Ok((requested, [])));
  }

  /** A blocked walk returns the node of its goal version from the target channel, if that holds one. */
  method LookUpInTarget(trip: Trip, ghost source: Version, ghost v: Version, goal: Version)
    returns (r: Result<(Node, seq<Node>)>)
    requires WellFormed(trip.svc) && IsGoal(trip, source, goal)
    requires NodesOf(trip, NextChannel(trip, source)) != [] && !Contains(NodesOf(trip, NextChannel(trip, source)), v)
    ensures IsReport(trip, source, v, r)
    ensures r.Ok? <==> Contains(NodesOf(trip, trip.targetChannel), goal)
    ensures r.Ok? ==> r.value.1 == [] && IsFound(NodesOf(trip, trip.targetChannel), goal, r.value.0)
  {
    var found := GetUpdates(trip.svc, trip.arch, trip.targetChannel, goal, goal);
    if found.Err? {
      ReportsFailure(trip, source, v, found.reason);
      r := Err(found.reason);
    } else {
      PlanFindsRequested(trip.svc.graphs[(trip.arch, trip.targetChannel)], goal, goal, found.value);
      r := Ok((found.value.requested, []));
      ReportsBlock(trip, source, v, goal, found.value.requested);
    }
  }

  lemma AcceptedMeansNonEmpty(nodes: seq<Node>, matches: Version -> bool)
    ensures HasAccepted(nodes, matches) ==> nodes != []
  {
  }

  lemma PlanFindsRequested(g: Graph, from: Version, to: Version, plan: Plan)
    requires IsPlan(g, from, to, plan)
    ensures IsFound(g.nodes, to, plan.requested) && IsFound(g.nodes, from, plan.current)
  {
    var a, b, p :| IsPlanVia(g, from, to, plan, a, b, p);
  }

  lemma BoundIsContained(nodes: seq<Node>, matches: Version -> bool, min: bool, v: Version)
    ensures IsBound(nodes, matches, min, v) ==> Contains(nodes, v)
  {
    if IsBound(nodes, matches, min, v) {
      var i :| 0 <= i < |nodes| && nodes[i].version == v;
      EqIgnoresBuildOnly(v, v);
    }
  }

  // ---------------------------------------------------------------- CalculateUpgrades

  /** `r` answers an upgrade query inside one channel. */
  ghost predicate IsAnswer(svc: Service, arch: string, channel: string, from: Version, to: Version, r: Result<Plan>)
  {
    var nodes := ChannelNodes(svc, arch, channel);
    && (r.Ok? <==> Contains(nodes, from) && Contains(nodes, to))
    && (r.Ok? ==> (arch, channel) in svc.graphs && IsPlan(svc.graphs[(arch, channel)], from, to, r.value))
  }

  /** The leg in the source channel, from the start version to the channel's greatest version. */
  ghost predicate IsFirstLeg(svc: Service, arch: string, sourceChannel: string, startVer: Version, leg: Leg)
  {
    && leg.channel == sourceChannel && leg.from == startVer
    && IsBound(ChannelNodes(svc, arch, sourceChannel), svc.matches, false, leg.to)
    && IsLeg(svc, arch, leg)
  }

  /** What a first leg and the walk after it give: the first occurrences of all their paths' nodes. */
  ghost predicate CrossesVia(trip: Trip, source: Version, sourceChannel: string, startVer: Version,
                             legs: seq<Leg>, end: End, r: Result<Plan>)
  {
    && legs != [] && IsFirstLeg(trip.svc, trip.arch, sourceChannel, startVer, legs[0])
    && Walk(trip, source, legs[0].to, legs[1..], end)
    && (r.Err? <==> end.Failed?)
    && (r.Ok? ==>
          && (end.Blocked? || |legs| > 1)
          && r.value == Plan(legs[0].plan.current, Requested(legs[1..], end), FirstOccurrences(Joined(legs))))
  }

  ghost predicate CrossesSomehow(trip: Trip, source: Version, sourceChannel: string, startVer: Version, r: Result<Plan>)
  {
    exists legs, end :: CrossesVia(trip, source, sourceChannel, startVer, legs, end, r)
  }

  /** What a walk over several channels returns; it fails at once without a version to start from. */
  ghost predicate Crosses(trip: Trip, source: Version, sourceChannel: string, startVer: Version, r: Result<Plan>)
  {
    if HasAccepted(NodesOf(trip, sourceChannel), trip.svc.matches) && Contains(NodesOf(trip, sourceChannel), startVer)
    then CrossesSomehow(trip, source, sourceChannel, startVer, r)
    else r.Err?
  }

  /**
   * Inside one channel, or between two channels of one version, the answer comes from the target channel
   * alone, from the requested version itself if the start version is blocked there; else from a walk.
   */
  ghost predicate IsUpgradeAnswer(svc: Service, arch: string, sourceChannel: string, targetChannel: string,
                                  startVer: Version, reqVer: Version, r: Result<Plan>)
  {
    if sourceChannel == targetChannel then IsAnswer(svc, arch, targetChannel, startVer, reqVer, r)
    else match ParseChannels(sourceChannel, targetChannel)
      case Err(e) => r == Err(e)
      case Ok(c) =>
        if Eq(c.0, c.1) then
          var nodes := ChannelNodes(svc, arch, targetChannel);
          IsAnswer(svc, arch, targetChannel, if Contains(nodes, startVer) then startVer else reqVer, reqVer, r)
        else
          Crosses(Trip(svc, arch, c.2, c.1, targetChannel, reqVer), c.0, sourceChannel, startVer, r)
  }

  /** `CalculateUpgrades`. */
  method CalculateUpgrades(svc: Service, arch: string, sourceChannel: string, targetChannel: string,
                           startVer: Version, reqVer: Version)
    returns (r: Result<Plan>)
    requires WellFormed(svc)
    ensures IsUpgradeAnswer(svc, arch, sourceChannel, targetChannel, startVer, reqVer, r)
  {
    if sourceChannel == targetChannel {
      r := GetUpdates(svc, arch, targetChannel, startVer, reqVer);
      return;
    }
    var names := ParseChannels(sourceChannel, targetChannel);
    if names.Err? {
      r := Err(names.reason);
      return;
    }
    if Eq(names.value.0, names.value.1) {
      var blocked := HandleBlockedEdges(svc, arch, targetChannel, startVer);
      if blocked.Err? {
        r := Err(blocked.reason);
      } else if blocked.value {
        r := GetUpdates(svc, arch, targetChannel, reqVer, reqVer);
      } else {
        r := GetUpdates(svc, arch, targetChannel, startVer, reqVer);
      }
      return;
    }
    r := Cross(Trip(svc, arch, names.value.2, names.value.1, targetChannel, reqVer), names.value.0, sourceChannel,
               startVer);
  }

  /** The part of `CalculateUpgrades` for channels of different versions. */
  method Cross(trip: Trip, ghost source: Version, sourceChannel: string, startVer: Version) returns (r: Result<Plan>)
    requires WellFormed(trip.svc)
    requires ParseChannels(sourceChannel, trip.targetChannel) == Ok((source, trip.target, trip.prefix))
    ensures Crosses(trip, source, sourceChannel, startVer, r)
  {
    var latest := GetChannelMinOrMax(trip.svc, trip.arch, sourceChannel, false);
    if latest.Err? {
      r := Err(latest.reason);
      return;
    }
    BoundIsContained(ChannelNodes(trip.svc, trip.arch, sourceChannel), trip.svc.matches, false, latest.value);
    var first := GetUpdates(trip.svc, trip.arch, sourceChannel, startVer, latest.value);
    if first.Err? {
      r := Err(first.reason);
      return;
    }
    var rest := Calculate(trip.svc, trip.arch, sourceChannel, trip.targetChannel, latest.value, trip.reqVer);
    r := Deduplicated(first.value, rest);
    CrossesFrom(trip, source, Leg(sourceChannel, startVer, latest.value, first.value), rest, r);
  }

  /** The first leg's path and the rest's become one list without repeated images. */
  method Deduplicated(first: Plan, rest: Result<(Node, seq<Node>)>) returns (r: Result<Plan>)
    ensures IsDeduplicated(first, rest, r)
  {
    if rest.Err? {
      r := Err(rest.reason);
      return;
    }
    var final := DropRepeatedImages(first.updates + rest.value.1);
    r := Ok(Plan(first.current, rest.value.0, final));
  }

  ghost predicate IsDeduplicated(first: Plan, rest: Result<(Node, seq<Node>)>, r: Result<Plan>)
  {
    if rest.Err? then r == Err(rest.reason)
    else r == Ok(Plan(first.current, rest.value.0, FirstOccurrences(first.updates + rest.value.1)))
  }

  /** The first leg and a report of the rest make the answer. */
  lemma CrossesFrom(trip: Trip, source: Version, leg: Leg, rest: Result<(Node, seq<Node>)>, r: Result<Plan>)
    requires IsFirstLeg(trip.svc, trip.arch, leg.channel, leg.from, leg) && IsReport(trip, source, leg.to, rest)
    requires IsDeduplicated(leg.plan, rest, r)
    ensures CrossesSomehow(trip, source, leg.channel, leg.from, r)
  {
    var legs, end :| Reports(trip, source, leg.to, legs, end, rest);
    CrossesAlong(trip, source, leg, legs, end, rest, r);
  }

  lemma CrossesAlong(trip: Trip, source: Version, leg: Leg, legs: seq<Leg>, end: End, rest: Result<(Node, seq<Node>)>,
                     r: Result<Plan>)
    requires IsFirstLeg(trip.svc, trip.arch, leg.channel, leg.from, leg) &&
             Reports(trip, source, leg.to, legs, end, rest)
    requires IsDeduplicated(leg.plan, rest, r)
    ensures CrossesVia(trip, source, leg.channel, leg.from, [leg] + legs, end, r)
  {
    JoinedCons(leg, legs);
    assert ([leg] + legs)[1..] == legs;
  }
}
