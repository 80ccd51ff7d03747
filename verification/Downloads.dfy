/** Which release images are downloaded for a channel, on the shortest path or over a range, and across channels. */
module Downloads {
  import opened Outcome
  import opened Semver
  import opened UpgradeGraph
  import opened Cincinnati
  import opened Repeats
  import opened CrossChannel
  import opened UpgradeWalks
  import opened Releases
  import opened Ranges
  import opened UpgradeAnswers
  import opened ZeroedIdentifiers

  function ImagesOf(nodes: seq<Node>): (r: seq<string>)
    ensures |r| == |nodes| && forall i :: 0 <= i < |nodes| ==> r[i] == nodes[i].image
  {
    seq(|nodes|, i requires 0 <= i < |nodes| => nodes[i].image)
  }

  /** `gatherUpdates`; a range query passes no end points. */
  method GatherUpdates(ends: Option<(Node, Node)>, updates: seq<Node>) returns (images: seq<string>)
    ensures images == Gathered(ends, updates)
  {
    images := [];
    for i := 0 to |updates|
      invariant images == ImagesOf(updates[..i])
    {
      images := images + [updates[i].image];
    }
    assert updates[..|updates|] == updates;
    if ends.Some? {
      if ends.value.0.image != "" {
        images := images + [ends.value.0.image];
      }
      if ends.value.1.image != "" {
        images := images + [ends.value.1.image];
      }
    }
  }

  function NonEmpty(image: string): seq<string>
  {
    if image == "" then [] else [image]
  }

  function Gathered(ends: Option<(Node, Node)>, updates: seq<Node>): seq<string>
  {
    ImagesOf(updates) + if ends.None? then [] else NonEmpty(ends.value.0.image) + NonEmpty(ends.value.1.image)
  }

  /** The images a channel's mode selects between its bounds; range mode needs a range the library can read. */
  ghost predicate IsDownload(svc: Service, arch: string, ch: ReleaseChannel, first: Version, last: Version,
                             r: Result<seq<string>>)
  {
    if ch.shortestPath then
      && (r.Ok? <==>
          Contains(ChannelNodes(svc, arch, ch.name), first) && Contains(ChannelNodes(svc, arch, ch.name), last))
      && (r.Ok? ==> exists plan :: IsAnswer(svc, arch, ch.name, first, last, Ok(plan)) &&
                      r.value == Gathered(Some((plan.current, plan.requested)), plan.updates))
    else
      && (r.Ok? <==> RangeOf(first, last).Ok? && GraphOf(svc, arch, ch.name).Some?)
      && (r.Ok? ==> r.value == Gathered(None, NodesIn(ChannelNodes(svc, arch, ch.name), RangeOf(first, last).value)))
  }

  /** `getChannelDownloads` between two bounds. */
  method DownloadBetween(svc: Service, arch: string, ch: ReleaseChannel, first: Version, last: Version)
    returns (r: Result<seq<string>>)
    requires WellFormed(svc)
    ensures IsDownload(svc, arch, ch, first, last, r)
  {
    if ch.shortestPath {
      var plan := CalculateUpgrades(svc, arch, ch.name, ch.name, first, last);
      if plan.Err? {
        return Err(plan.reason);
      }
      assert IsAnswer(svc, arch, ch.name, first, last, Ok(plan.value));
      var images := GatherUpdates(Some((plan.value.current, plan.value.requested)), plan.value.updates);
      r := Ok(images);
    } else {
      var range := RangeOf(first, last);
      if range.Err? {
        return Err(range.reason);
      }
      var versions := GetUpdatesInRange(svc, ch.name, arch, range.value);
      if versions.Err? {
        return Err(versions.reason);
      }
      var images := GatherUpdates(None, versions.value);
      r := Ok(images);
    }
  }

  /** The same between the channel's own bounds; it fails when one does not read. */
  ghost predicate IsChannelDownload(svc: Service, arch: string, ch: ReleaseChannel, parse: Reader,
                                    r: Result<seq<string>>)
  {
    if parse(ch.minVersion).Ok? && parse(ch.maxVersion).Ok?
    then IsDownload(svc, arch, ch, parse(ch.minVersion).value, parse(ch.maxVersion).value, r)
    else r.Err?
  }

  /** `getChannelDownloads`; `parse` reads the bounds. */
  method GetChannelDownloads(svc: Service, arch: string, ch: ReleaseChannel, parse: Reader)
    returns (r: Result<seq<string>>)
    requires WellFormed(svc)
    ensures IsChannelDownload(svc, arch, ch, parse, r)
  {
    var first := parse(ch.minVersion);
    if first.Err? {
      return Err(first.reason);
    }
    var last := parse(ch.maxVersion);
    if last.Err? {
      return Err(last.reason);
    }
    r := DownloadBetween(svc, arch, ch, first.value, last.value);
  }

  /** Every node on an upgrade path lies between its ends. */
  lemma PlanWithinBounds(g: Graph, first: Version, last: Version, plan: Plan, n: Node)
    requires InRange(g) && EdgesRaise(g) && Le(first, last) && IsPlan(g, first, last, plan)
    requires n in plan.updates || n == plan.current || n == plan.requested
    ensures n in g.nodes && InBounds(first, last, n.version)
  {
    if n in plan.updates {
      PlanClimbs(g, first, last, plan);
      var s := plan.updates;
      var i :| 0 <= i < |s| && s[i] == n;
      BetweenEnds(first, last, s, i);
    } else {
      var a, b, p :| IsPlanVia(g, first, last, plan, a, b, p);
      EqSubstitutes(first, plan.current.version, first);
      EqSubstitutes(first, plan.current.version, last);
      EqSubstitutes(last, plan.requested.version, last);
      EqSubstitutes(last, plan.requested.version, first);
      CompareAntisymmetric(first, last);
      EqIgnoresBuildOnly(first, first);
      EqIgnoresBuildOnly(last, last);
    }
  }

  lemma BetweenEnds(first: Version, last: Version, s: seq<Node>, i: int)
    requires Rising(s) && 0 <= i < |s| && Eq(first, s[0].version) && Eq(last, s[|s| - 1].version)
    ensures InBounds(first, last, s[i].version)
  {
    EqSubstitutes(first, s[0].version, s[i].version);
    EqSubstitutes(last, s[|s| - 1].version, s[i].version);
    CompareAntisymmetric(s[0].version, s[i].version);
    EqIgnoresBuildOnly(s[i].version, s[i].version);
  }

  lemma PlanWithinRange(g: Graph, first: Version, last: Version, plan: Plan, inRange: Version -> bool, image: string)
    requires InRange(g) && EdgesRaise(g) && Le(first, last) && IsPlan(g, first, last, plan)
    requires forall v :: InBounds(first, last, v) ==> inRange(v)
    requires image in Gathered(Some((plan.current, plan.requested)), plan.updates)
    ensures image in Gathered(None, NodesIn(g.nodes, inRange))
  {
    var kept := NodesIn(g.nodes, inRange);
    NodesInRange(g.nodes, inRange);
    var n := ImageSource(plan, image);
    PlanWithinBounds(g, first, last, plan, n);
    assert n in kept;
    var k :| 0 <= k < |kept| && kept[k] == n;
    assert Gathered(None, kept)[k] == image;
  }

  /**
   * If edges raise versions and the bounds are in order, the images of shortest-path mode are among those of range
   * mode on the same channel, unless range mode fails: which it does exactly if the upper bound has an 'x' or an
   * identifier of the lower one is spoilt.
   */
  lemma ShortestPathWithinRange(svc: Service, arch: string, ch: ReleaseChannel, first: Version, last: Version,
                                short: Result<seq<string>>, range: Result<seq<string>>)
    requires WellFormed(svc) && (arch, ch.name) in svc.graphs && EdgesRaise(svc.graphs[(arch, ch.name)])
    requires Valid(first) && Valid(last) && Le(first, last)
    requires IsDownload(svc, arch, ch.(shortestPath := true), first, last, short) && short.Ok?
    requires IsDownload(svc, arch, ch.(shortestPath := false), first, last, range)
    ensures range.Ok? <==> PlainUpper(last) && !SpoiltPre(first.pre)
    ensures range.Ok? ==> forall image <- short.value :: image in range.value
  {
    RangeFailsExactlyWhen(first, last);
    if range.Ok? {
      forall v | InBounds(first, last, v) ensures RangeOf(first, last).value(v) {
        RangeContainsBounds(first, last, v);
      }
      var plan :| IsAnswer(svc, arch, ch.name, first, last, Ok(plan)) &&
                  short.value == Gathered(Some((plan.current, plan.requested)), plan.updates);
      forall image | image in short.value ensures image in range.value {
        PlanWithinRange(svc.graphs[(arch, ch.name)], first, last, plan, RangeOf(first, last).value, image);
      }
    }
  }

  /**
   * Shortest-path mode succeeds on all bounds the channel holds; range mode fails if the upper one has an 'x' or the
   * lower one is spoilt.
   */
  lemma OnlyRangeModeFails(svc: Service, arch: string, ch: ReleaseChannel, first: Version, last: Version,
                           short: Result<seq<string>>, range: Result<seq<string>>)
    requires Valid(first) && Valid(last) && (!PlainUpper(last) || SpoiltPre(first.pre))
    requires Contains(ChannelNodes(svc, arch, ch.name), first) && Contains(ChannelNodes(svc, arch, ch.name), last)
    requires IsDownload(svc, arch, ch.(shortestPath := true), first, last, short)
    requires IsDownload(svc, arch, ch.(shortestPath := false), first, last, range)
    ensures short.Ok? && range.Err?
  {
    RangeFailsExactlyWhen(first, last);
  }

  /**
   * What shortest-path mode downloads includes the non-empty images of the first nodes of either bound's precedence,
   * also when no route connects them.
   */
  lemma EndPointsIncluded(svc: Service, arch: string, ch: ReleaseChannel, first: Version, last: Version,
                          r: Result<seq<string>>, i: int)
    requires IsDownload(svc, arch, ch.(shortestPath := true), first, last, r) && r.Ok?
    requires IsFirst(ChannelNodes(svc, arch, ch.name), first, i) || IsFirst(ChannelNodes(svc, arch, ch.name), last, i)
    requires ChannelNodes(svc, arch, ch.name)[i].image != ""
    ensures ChannelNodes(svc, arch, ch.name)[i].image in r.value
  {
    var plan :| IsAnswer(svc, arch, ch.name, first, last, Ok(plan)) &&
                r.value == Gathered(Some((plan.current, plan.requested)), plan.updates);
    var g := svc.graphs[(arch, ch.name)];
    var a, b, p :| IsPlanVia(g, first, last, plan, a, b, p);
    FirstsAgree(g.nodes, first, a, i);
    FirstsAgree(g.nodes, last, b, i);
  }

  /** First the images of the way, in order, then those of its first and last node unless they are empty. */
  ghost predicate AreWayThenEnds(way: seq<Node>, from: Node, to: Node, images: seq<string>)
  {
    && |way| <= |images|
    && (forall k :: 0 <= k < |way| ==> images[k] == way[k].image)
    && images[|way|..] == (if from.image == "" then [] else [from.image]) + if to.image == "" then [] else [to.image]
  }

  lemma GatheredInOrder(from: Node, to: Node, way: seq<Node>)
    ensures AreWayThenEnds(way, from, to, Gathered(Some((from, to)), way))
  {
    assert Gathered(Some((from, to)), way)[|way|..] == NonEmpty(from.image) + NonEmpty(to.image);
  }

  /**
   * Shortest-path mode downloads first the images of a preferred route between the first nodes of the bounds'
   * precedences, in order, if there is a route, and then the images of these two nodes unless they are empty.
   */
  lemma PathIsDownloaded(svc: Service, arch: string, ch: ReleaseChannel, first: Version, last: Version,
                         r: Result<seq<string>>, a: int, b: int)
    requires IsDownload(svc, arch, ch.(shortestPath := true), first, last, r) && r.Ok?
    requires IsFirst(ChannelNodes(svc, arch, ch.name), first, a) && IsFirst(ChannelNodes(svc, arch, ch.name), last, b)
    ensures (arch, ch.name) in svc.graphs
    ensures var g := svc.graphs[(arch, ch.name)];
            exists way :: IsWayBetween(g, a, b, way) && AreWayThenEnds(way, g.nodes[a], g.nodes[b], r.value)
  {
    var plan :| IsAnswer(svc, arch, ch.name, first, last, Ok(plan)) &&
                r.value == Gathered(Some((plan.current, plan.requested)), plan.updates);
    PlanEndsAreFirst(svc.graphs[(arch, ch.name)], first, last, plan, a, b);
    GatheredInOrder(plan.current, plan.requested, plan.updates);
  }

  /** Range mode downloads the images of the nodes in the range, in order and each once. */
  lemma RangeIsDownloaded(svc: Service, arch: string, ch: ReleaseChannel, first: Version, last: Version,
                          r: Result<seq<string>>) returns (at: seq<int>)
    requires IsDownload(svc, arch, ch.(shortestPath := false), first, last, r) && r.Ok?
    ensures RangeOf(first, last).Ok? &&
            AreInRange(ChannelNodes(svc, arch, ch.name), RangeOf(first, last).value, at) && |r.value| == |at|
    ensures var nodes := ChannelNodes(svc, arch, ch.name);
            forall i :: 0 <= i < |at| ==> 0 <= at[i] < |nodes| && r.value[i] == nodes[at[i]].image
  {
    at := NodesInAt(ChannelNodes(svc, arch, ch.name), RangeOf(first, last).value);
  }

  lemma KeptImages(nodes: seq<Node>, range: Version -> bool, image: string)
    ensures image in Gathered(None, NodesIn(nodes, range)) <==>
            exists n :: n in nodes && n.image == image && range(n.version)
  {
    var kept := NodesIn(nodes, range);
    NodesInRange(nodes, range);
    if n :| n in nodes && n.image == image && range(n.version) {
      var k :| 0 <= k < |kept| && kept[k] == n;
      assert Gathered(None, kept)[k] == image;
    }
    if image in Gathered(None, kept) {
      var k :| 0 <= k < |kept| && ImagesOf(kept)[k] == image;
      assert kept[k] in kept;
    }
  }

  lemma PlainRangeMeans(first: Version, last: Version)
    requires Valid(first) && Valid(last) && PlainLower(first) && PlainUpper(last)
    ensures RangeOf(first, last).Ok?
    ensures forall v :: RangeOf(first, last).value(v) <==> Le(first, v) && Le(v, last)
  {
    RangeIsBoundsExactlyWhen(first, last);
    forall v ensures RangeOf(first, last).value(v) <==> Le(first, v) && Le(v, last) {
      CompareAntisymmetric(first, v);
    }
  }

  /** With plain bounds these are exactly the nodes from one bound to the other. */
  lemma PlainRangeIsDownloaded(svc: Service, arch: string, ch: ReleaseChannel, first: Version, last: Version,
                               r: Result<seq<string>>, image: string)
    requires Valid(first) && Valid(last) && PlainLower(first) && PlainUpper(last) && GraphOf(svc, arch, ch.name).Some?
    requires IsDownload(svc, arch, ch.(shortestPath := false), first, last, r)
    ensures r.Ok?
    ensures image in r.value <==> exists n :: n in ChannelNodes(svc, arch, ch.name) && n.image == image &&
                                              Le(first, n.version) && Le(n.version, last)
  {
    PlainRangeMeans(first, last);
    KeptImages(ChannelNodes(svc, arch, ch.name), RangeOf(first, last).value, image);
  }

  /** From a version to itself shortest-path mode downloads one image, that of the first node of the version. */
  lemma OneVersionIsDownloaded(svc: Service, arch: string, ch: ReleaseChannel, v: Version, r: Result<seq<string>>,
                               i: int)
    requires IsDownload(svc, arch, ch.(shortestPath := true), v, v, r)
    requires IsFirst(ChannelNodes(svc, arch, ch.name), v, i)
    ensures r.Ok? && r.value != [] && forall image <- r.value :: image == ChannelNodes(svc, arch, ch.name)[i].image
  {
    var plan :| IsAnswer(svc, arch, ch.name, v, v, Ok(plan)) &&
                r.value == Gathered(Some((plan.current, plan.requested)), plan.updates);
    PlanToItself(svc.graphs[(arch, ch.name)], v, plan);
    PlanEndsAreFirst(svc.graphs[(arch, ch.name)], v, v, plan, i, i);
    GatheredInOrder(plan.current, plan.requested, plan.updates);
    forall image | image in r.value ensures image == ChannelNodes(svc, arch, ch.name)[i].image {
      var n := ImageSource(plan, image);
    }
  }

  lemma FirstsAgree(nodes: seq<Node>, v: Version, i: int, j: int)
    requires IsFirst(nodes, v, i)
    ensures IsFirst(nodes, v, j) ==> i == j
  {
  }

  lemma ImageSource(plan: Plan, image: string) returns (n: Node)
    requires image in Gathered(Some((plan.current, plan.requested)), plan.updates)
    ensures n.image == image && (n in plan.updates || n == plan.current || n == plan.requested)
  {
    if image in ImagesOf(plan.updates) {
      var i :| 0 <= i < |plan.updates| && ImagesOf(plan.updates)[i] == image;
      n := plan.updates[i];
    } else {
      n := if image == plan.current.image then plan.current else plan.requested;
    }
  }

  // ---------------------------------------------------------------- across channels

  ghost function OcpOnly(channels: seq<ReleaseChannel>): seq<ReleaseChannel>
  {
    if channels == [] then []
    else
      var n := |channels| - 1;
      OcpOnly(channels[..n]) + if channels[n].kind.OCP? then [channels[n]] else []
  }

  /** Dropping the other channels keeps the OCP ones, and unique names unique. */
  lemma {:induction false} OcpOnlyKeeps(channels: seq<ReleaseChannel>)
    ensures forall c :: c in OcpOnly(channels) <==> c in channels && c.kind.OCP?
    ensures UniqueNames(channels) ==> UniqueNames(OcpOnly(channels))
  {
    if channels != [] {
      var n := |channels| - 1;
      OcpOnlyKeeps(channels[..n]);
      assert channels == channels[..n] + [channels[n]];
      forall c | UniqueNames(channels) && c in OcpOnly(channels[..n]) ensures c.name != channels[n].name {
        var k :| 0 <= k < n && channels[..n][k] == c;
        assert channels[k] == c;
      }
    }
  }

  /** The OCP channels of the configuration, in order. */
  method OcpChannels(channels: seq<ReleaseChannel>) returns (ocp: seq<ReleaseChannel>)
    ensures ocp == OcpOnly(channels)
  {
    ocp := [];
    for i := 0 to |channels|
      invariant ocp == OcpOnly(channels[..i])
    {
      assert channels[..i + 1][..i] == channels[..i];
      if channels[i].kind.OCP? {
        ocp := ocp + [channels[i]];
      }
    }
    assert channels[..|channels|] == channels;
  }

  /** Where the cross-channel walk starts and ends: a channel and a version each. */
  datatype Ends = Ends(firstCh: string, first: Version, lastCh: string, last: Version)

  /** The ends are those `FindRelease` picks among the OCP channels. */
  ghost predicate AreEnds(parse: Reader, ocp: seq<ReleaseChannel>, ends: Ends)
  {
    && (exists lows :: IsExtreme(parse, ocp, true, lows, ends.firstCh, ends.first))
    && (exists highs :: IsExtreme(parse, ocp, false, highs, ends.lastCh, ends.last))
  }

  ghost predicate BoundsInOrder(parse: Reader, c: ReleaseChannel)
  {
    && parse(c.minVersion).Ok? && parse(c.maxVersion).Ok?
    && Le(parse(c.minVersion).value, parse(c.maxVersion).value)
  }

  /** The images of an upgrade answer between the ends of the OCP channels. */
  ghost predicate IsCrossDownload(svc: Service, arch: string, parse: Reader, ocp: seq<ReleaseChannel>,
                                  ends: Ends, plan: Result<Plan>, r: Result<seq<string>>)
  {
    && AreEnds(parse, ocp, ends)
    && IsUpgradeAnswer(svc, arch, ends.firstCh, ends.lastCh, ends.first, ends.last, plan)
    && (r.Ok? <==> plan.Ok?)
    && (r.Ok? ==> r.value == Gathered(Some((plan.value.current, plan.value.requested)), plan.value.updates))
  }

  /** What is downloaded across channels: nothing without OCP channels, an error if a bound does not read. */
  ghost predicate IsCrossResult(svc: Service, arch: string, channels: seq<ReleaseChannel>, parse: Reader,
                                r: Result<seq<string>>)
  {
    var ocp := OcpOnly(channels);
    if ocp == [] then r == Ok([])
    else if AllParse(parse, ocp, true) && AllParse(parse, ocp, false)
    then exists ends, plan :: IsCrossDownload(svc, arch, parse, ocp, ends, plan, r)
    else r.Err?
  }

  /** `getCrossChannelDownloads`. */
  method GetCrossChannelDownloads(svc: Service, arch: string, channels: seq<ReleaseChannel>, parse: Reader)
    returns (r: Result<seq<string>>)
    requires WellFormed(svc)
    ensures IsCrossResult(svc, arch, channels, parse, r)
  {
    var ocp := OcpChannels(channels);
    if |ocp| == 0 {
      return Ok([]);
    }
    var first := FindRelease(ocp, true, parse);
    if first.Err? {
      return Err(first.reason);
    }
    var last := FindRelease(ocp, false, parse);
    if last.Err? {
      return Err(last.reason);
    }
    ghost var ends := Ends(first.value.0, first.value.1, last.value.0, last.value.1);
    assert AreEnds(parse, ocp, ends);
    var plan := CalculateUpgrades(svc, arch, first.value.0, last.value.0, first.value.1, last.value.1);
    if plan.Err? {
      r := Err(plan.reason);
    } else {
      var images := GatherUpdates(Some((plan.value.current, plan.value.requested)), plan.value.updates);
      r := Ok(images);
    }
    assert IsCrossDownload(svc, arch, parse, ocp, ends, plan, r);
  }

  /**
   * Across channels the images of all upgrades come first, in order, then those of the ends unless they are empty.
   * The answer starts with the first version found, unless that is skipped, and returns a node of the
   * last channel found.
   */
  lemma CrossingIsDownloaded(svc: Service, arch: string, parse: Reader, ocp: seq<ReleaseChannel>, ends: Ends,
                             plan: Result<Plan>, r: Result<seq<string>>)
    requires IsCrossDownload(svc, arch, parse, ocp, ends, plan, r) && r.Ok?
    ensures plan.Ok? && AreWayThenEnds(plan.value.updates, plan.value.current, plan.value.requested, r.value)
    ensures Eq(if StartIsSkipped(svc, arch, ends.firstCh, ends.lastCh, ends.first) then ends.last else ends.first,
               plan.value.current.version)
    ensures plan.value.requested in ChannelNodes(svc, arch, ends.lastCh)
  {
    GatheredInOrder(plan.value.current, plan.value.requested, plan.value.updates);
    AnswerEnds(svc, arch, ends.firstCh, ends.lastCh, ends.first, ends.last, plan.value);
  }

  /**
   * On validated channels the walk starts with the least minimum, of the channel it starts in, and ends with the
   * greatest maximum, of the channel it ends in.
   */
  lemma EndsAreBounds(parse: Reader, ocp: seq<ReleaseChannel>, ends: Ends) returns (i: int, j: int)
    requires UniqueNames(ocp) && AreEnds(parse, ocp, ends)
    ensures 0 <= i < |ocp| && ocp[i].name == ends.firstCh && parse(ocp[i].minVersion) == Ok(ends.first)
    ensures 0 <= j < |ocp| && ocp[j].name == ends.lastCh && parse(ocp[j].maxVersion) == Ok(ends.last)
    ensures forall k :: 0 <= k < |ocp| ==>
              && parse(ocp[k].minVersion).Ok? && Le(ends.first, parse(ocp[k].minVersion).value)
              && parse(ocp[k].maxVersion).Ok? && Ge(ends.last, parse(ocp[k].maxVersion).value)
  {
    var lows :| IsExtreme(parse, ocp, true, lows, ends.firstCh, ends.first);
    var highs :| IsExtreme(parse, ocp, false, highs, ends.lastCh, ends.last);
    forall k | 0 <= k < |ocp| ensures
        && parse(ocp[k].minVersion).Ok? && Le(ends.first, parse(ocp[k].minVersion).value)
        && parse(ocp[k].maxVersion).Ok? && Ge(ends.last, parse(ocp[k].maxVersion).value)
    {
      FindReleaseBounds(parse, ocp, true, lows, ends.firstCh, ends.first, k);
      FindReleaseBounds(parse, ocp, false, highs, ends.lastCh, ends.last, k);
    }
    i := ExtremeIsBound(parse, ocp, true, lows, ends.firstCh, ends.first);
    j := ExtremeIsBound(parse, ocp, false, highs, ends.lastCh, ends.last);
  }

  lemma ExtremeIsBound(parse: Reader, channels: seq<ReleaseChannel>, min: bool, vers: map<string, Version>,
                       name: string, v: Version) returns (i: int)
    requires IsExtreme(parse, channels, min, vers, name, v)
    ensures 0 <= i < |channels| && channels[i].name == name && parse(channels[i].Bound(min)) == Ok(v)
  {
    assert IsBoundOf(parse, channels, min, |channels|, name, vers[name]);
    i :| LastNamed(channels, |channels|, name, i) && parse(channels[i].Bound(min)) == Ok(vers[name]);
  }

  /** On validated channels the walk's start is not after its end if some OCP channel has its bounds in order. */
  lemma EndsInOrder(parse: Reader, ocp: seq<ReleaseChannel>, ends: Ends, k: int)
    requires UniqueNames(ocp) && AreEnds(parse, ocp, ends) && 0 <= k < |ocp| && BoundsInOrder(parse, ocp[k])
    ensures Le(ends.first, ends.last)
  {
    var lows :| IsExtreme(parse, ocp, true, lows, ends.firstCh, ends.first);
    var highs :| IsExtreme(parse, ocp, false, highs, ends.lastCh, ends.last);
    StartsBeforeEnd(parse, ocp, lows, highs, ends.firstCh, ends.first, ends.lastCh, ends.last, k);
  }
}
