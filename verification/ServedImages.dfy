/** Every image a run asks for is one the service offers for a configured architecture. */
module ServedImages {
  import opened Outcome
  import opened Semver
  import opened UpgradeGraph
  import opened Cincinnati
  import opened Repeats
  import opened CrossChannel
  import opened Releases
  import opened Downloads
  import opened ReferenceRun

  /** `n` is a node of some channel's graph for the architecture. */
  ghost predicate NodeServed(svc: Service, arch: string, n: Node)
  {
    exists channel :: (arch, channel) in svc.graphs && n in svc.graphs[(arch, channel)].nodes
  }

  ghost predicate ImageServed(svc: Service, arch: string, image: string)
  {
    exists n :: NodeServed(svc, arch, n) && n.image == image
  }

  ghost predicate AllServed(svc: Service, arch: string, images: seq<string>)
  {
    forall image <- images :: ImageServed(svc, arch, image)
  }

  ghost predicate PlanServed(svc: Service, arch: string, plan: Plan)
  {
    && NodeServed(svc, arch, plan.current) && NodeServed(svc, arch, plan.requested)
    && forall n <- plan.updates :: NodeServed(svc, arch, n)
  }

  lemma PlanOfGraph(svc: Service, arch: string, channel: string, from: Version, to: Version, plan: Plan)
    requires (arch, channel) in svc.graphs && IsPlan(svc.graphs[(arch, channel)], from, to, plan)
    ensures PlanServed(svc, arch, plan)
  {
    var g := svc.graphs[(arch, channel)];
    var a, b, p :| IsPlanVia(g, from, to, plan, a, b, p);
    forall n | n in plan.updates ensures NodeServed(svc, arch, n) {
      var k :| 0 <= k < |plan.updates| && plan.updates[k] == n;
      assert n == g.nodes[p[k]];
    }
  }

  lemma GatheredServed(svc: Service, arch: string, plan: Plan)
    requires PlanServed(svc, arch, plan)
    ensures AllServed(svc, arch, Gathered(Some((plan.current, plan.requested)), plan.updates))
  {
    forall image | image in Gathered(Some((plan.current, plan.requested)), plan.updates)
      ensures ImageServed(svc, arch, image)
    {
      var n := ImageSource(plan, image);
    }
  }

  lemma RangeServed(svc: Service, arch: string, channel: string, inRange: Version -> bool)
    ensures AllServed(svc, arch, Gathered(None, NodesIn(ChannelNodes(svc, arch, channel), inRange)))
  {
    var kept := NodesIn(ChannelNodes(svc, arch, channel), inRange);
    NodesInRange(ChannelNodes(svc, arch, channel), inRange);
    forall image | image in Gathered(None, kept) ensures ImageServed(svc, arch, image) {
      var k :| 0 <= k < |kept| && kept[k].image == image;
      assert kept[k] in ChannelNodes(svc, arch, channel);
      assert NodeServed(svc, arch, kept[k]);
    }
  }

  lemma DownloadServed(svc: Service, arch: string, ch: ReleaseChannel, first: Version, last: Version,
                       r: Result<seq<string>>)
    requires IsDownload(svc, arch, ch, first, last, r)
    ensures AllServed(svc, arch, OrNothing(r))
  {
    if r.Ok? {
      if ch.shortestPath {
        var plan :| IsAnswer(svc, arch, ch.name, first, last, Ok(plan)) &&
                    r.value == Gathered(Some((plan.current, plan.requested)), plan.updates);
        PlanOfGraph(svc, arch, ch.name, first, last, plan);
        GatheredServed(svc, arch, plan);
      } else {
        RangeServed(svc, arch, ch.name, Ranges.RangeOf(first, last).value);
      }
    }
  }

  // ---------------------------------------------------------------- across channels

  lemma LegServed(svc: Service, arch: string, leg: Leg)
    requires IsLeg(svc, arch, leg)
    ensures PlanServed(svc, arch, leg.plan)
  {
    PlanOfGraph(svc, arch, leg.channel, leg.from, leg.to, leg.plan);
  }

  lemma {:induction false} JoinedServed(svc: Service, arch: string, legs: seq<Leg>, n: Node)
    requires (forall k :: 0 <= k < |legs| ==> PlanServed(svc, arch, legs[k].plan)) && n in Joined(legs)
    ensures NodeServed(svc, arch, n)
  {
    if n !in legs[0].plan.updates {
      JoinedServed(svc, arch, legs[1..], n);
    }
  }

  lemma WalkLegServed(trip: Trip, source: Version, v: Version, legs: seq<Leg>, end: End, k: int)
    requires Walk(trip, source, v, legs, end) && 0 <= k < |legs|
    ensures PlanServed(trip.svc, trip.arch, legs[k].plan)
  {
    assert LegAt(trip, source, v, legs, end, k);
    LegServed(trip.svc, trip.arch, legs[k]);
  }

  lemma BlockedServed(trip: Trip, source: Version, v: Version, end: End)
    requires end.Blocked? && EndsAt(trip, source, v, end)
    ensures NodeServed(trip.svc, trip.arch, end.requested)
  {
    assert IsFound(NodesOf(trip, trip.targetChannel), end.goal, end.requested);
  }

  lemma LegsServed(trip: Trip, source: Version, legs: seq<Leg>, end: End)
    requires legs != [] && IsLeg(trip.svc, trip.arch, legs[0]) && Walk(trip, source, legs[0].to, legs[1..], end)
    ensures forall k :: 0 <= k < |legs| ==> PlanServed(trip.svc, trip.arch, legs[k].plan)
  {
    LegServed(trip.svc, trip.arch, legs[0]);
    forall k | 1 <= k < |legs| ensures PlanServed(trip.svc, trip.arch, legs[k].plan) {
      WalkLegServed(trip, source, legs[0].to, legs[1..], end, k - 1);
    }
  }

  lemma CrossServed(trip: Trip, source: Version, sourceChannel: string, startVer: Version, legs: seq<Leg>, end: End,
                    plan: Plan)
    requires CrossesVia(trip, source, sourceChannel, startVer, legs, end, Ok(plan))
    ensures PlanServed(trip.svc, trip.arch, plan)
  {
    LegsServed(trip, source, legs, end);
    if end.Blocked? {
      BlockedServed(trip, SourceAfter(source, |legs[1..]|), Reached(legs[0].to, legs[1..], |legs[1..]|), end);
    } else {
      assert plan.requested == legs[|legs| - 1].plan.requested;
    }
    forall n | n in plan.updates ensures NodeServed(trip.svc, trip.arch, n) {
      FirstOccurrencesFrom(Joined(legs), n);
      JoinedServed(trip.svc, trip.arch, legs, n);
    }
  }

  lemma CrossesServed(trip: Trip, source: Version, sourceChannel: string, startVer: Version, plan: Plan)
    requires Crosses(trip, source, sourceChannel, startVer, Ok(plan))
    ensures PlanServed(trip.svc, trip.arch, plan)
  {
    assert CrossesSomehow(trip, source, sourceChannel, startVer, Ok(plan));
    var legs, end :| CrossesVia(trip, source, sourceChannel, startVer, legs, end, Ok(plan));
    CrossServed(trip, source, sourceChannel, startVer, legs, end, plan);
  }

  lemma AnswerServed(svc: Service, arch: string, channel: string, from: Version, to: Version, plan: Plan)
    requires IsAnswer(svc, arch, channel, from, to, Ok(plan))
    ensures PlanServed(svc, arch, plan)
  {
    PlanOfGraph(svc, arch, channel, from, to, plan);
  }

  /** The nodes of an upgrade answer are all the service's, for the architecture asked for. */
  lemma UpgradeAnswerServed(svc: Service, arch: string, sourceChannel: string, targetChannel: string,
                            startVer: Version, reqVer: Version, plan: Plan)
    requires IsUpgradeAnswer(svc, arch, sourceChannel, targetChannel, startVer, reqVer, Ok(plan))
    ensures PlanServed(svc, arch, plan)
  {
    if sourceChannel == targetChannel {
      AnswerServed(svc, arch, targetChannel, startVer, reqVer, plan);
    } else {
      var c := ChannelNames.ParseChannels(sourceChannel, targetChannel).value;
      if Eq(c.0, c.1) {
        var from := if Contains(ChannelNodes(svc, arch, targetChannel), startVer) then startVer else reqVer;
        AnswerServed(svc, arch, targetChannel, from, reqVer, plan);
      } else {
        CrossesServed(Trip(svc, arch, c.2, c.1, targetChannel, reqVer), c.0, sourceChannel, startVer, plan);
      }
    }
  }

  lemma CrossResultServed(svc: Service, arch: string, channels: seq<ReleaseChannel>, parse: Reader,
                          r: Result<seq<string>>)
    requires IsCrossResult(svc, arch, channels, parse, r)
    ensures AllServed(svc, arch, OrNothing(r))
  {
    var ocp := OcpOnly(channels);
    if r.Ok? && ocp != [] {
      var ends, plan :| IsCrossDownload(svc, arch, parse, ocp, ends, plan, r);
      UpgradeAnswerServed(svc, arch, ends.firstCh, ends.lastCh, ends.first, ends.last, plan.value);
      GatheredServed(svc, arch, plan.value);
    }
  }

  // ---------------------------------------------------------------- the whole run

  /** Served to one of a run's two clients. */
  ghost predicate ServedTo(job: Job, arch: string, image: string)
  {
    ImageServed(job.svc, arch, image) || (job.across.Some? && ImageServed(job.across.value, arch, image))
  }

  lemma ShareServed(job: Job, arch: string, c: Option<ReleaseChannel>, share: seq<string>)
    requires IsShare(job, arch, c, share)
    ensures AllServed(job.svc, arch, share)
  {
    if c.Some? {
      var r :| IsChannelDownload(job.svc, arch, c.value, job.parse, r) && share == OrNothing(r);
      if r.Ok? {
        DownloadServed(job.svc, arch, c.value, job.parse(c.value.minVersion).value,
                       job.parse(c.value.maxVersion).value, r);
      }
    }
  }

  lemma CrossingServed(job: Job, arch: string, channels: seq<ReleaseChannel>, crossing: seq<string>)
    requires IsCrossing(job, arch, channels, crossing)
    ensures forall image <- crossing :: ServedTo(job, arch, image)
  {
    if |channels| > 1 && job.across.Some? {
      var r :| IsCrossResult(job.across.value, arch, channels, job.parse, r) && crossing == OrNothing(r);
      CrossResultServed(job.across.value, arch, channels, job.parse, r);
    }
  }

  lemma {:induction false} FromShare(shares: seq<seq<string>>, image: string) returns (k: int)
    requires image in Flat(shares)
    ensures 0 <= k < |shares| && image in shares[k]
  {
    k := |shares| - 1;
    if image !in shares[k] {
      k := FromShare(shares[..k], image);
    }
  }

  lemma PassServed(job: Job, arch: string, pass: Pass, image: string)
    requires IsPass(job, arch, pass) && image in PassImages(pass)
    ensures ServedTo(job, arch, image)
  {
    if image in pass.crossing {
      CrossingServed(job, arch, pass.after, pass.crossing);
    } else {
      var k := FromShare(pass.shares, image);
      ShareServed(job, arch, pass.resolved[k], pass.shares[k]);
    }
  }

  lemma {:induction false} FromPass(passes: seq<Pass>, image: string) returns (a: int)
    requires image in RunImages(passes)
    ensures 0 <= a < |passes| && image in PassImages(passes[a])
  {
    a := |passes| - 1;
    if image !in PassImages(passes[a]) {
      a := FromPass(passes[..a], image);
    }
  }

  /** Every image of a run is offered by the service for one of the architectures. */
  lemma RunIsServed(job: Job, architectures: seq<string>, first: seq<ReleaseChannel>, passes: seq<Pass>, image: string)
    requires IsRun(job, architectures, first, passes) && image in RunImages(passes)
    ensures exists arch <- architectures :: ServedTo(job, arch, image)
  {
    var a := FromPass(passes, image);
    assert IsPassAt(job, architectures, first, passes, a);
    PassServed(job, architectures[a], passes[a], image);
  }
}
