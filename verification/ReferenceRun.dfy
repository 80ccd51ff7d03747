/** `GetReleaseReferenceImages`: the images of all architectures and channels, while bounds are written back. */
module ReferenceRun {
  import opened Outcome
  import opened Semver
  import opened Cincinnati
  import opened Releases
  import opened ReferenceImages
  import opened UpgradeGraph
  import opened CrossChannel
  import opened UpgradeAnswers
  import opened Downloads

  /**
   * What a run works with: the service its client talks to, whether that client refuses OCP channels, and
   * the client for upgrades across channels, which is made separately and may be missing.
   */
  datatype Job = Job(svc: Service, fail: bool, across: Option<Service>, parse: Reader)

  ghost predicate Usable(job: Job)
  {
    WellFormed(job.svc) && (job.across.Some? ==> WellFormed(job.across.value))
  }

  /** What one architecture did. */
  datatype Pass = Pass(before: seq<ReleaseChannel>, resolved: Resolutions, shares: seq<seq<string>>,
                       after: seq<ReleaseChannel>, crossing: seq<string>)

  function OrNothing(r: Result<seq<string>>): seq<string>
  {
    if r.Ok? then r.value else []
  }

  /** The images a resolved channel contributes: none when it was not resolved or its download failed. */
  ghost predicate IsShare(job: Job, arch: string, c: Option<ReleaseChannel>, share: seq<string>)
  {
    if c.None? then share == []
    else exists r :: IsChannelDownload(job.svc, arch, c.value, job.parse, r) && share == OrNothing(r)
  }

  /** The images of upgrades across channels, which need a second channel and their own client. */
  ghost predicate IsCrossing(job: Job, arch: string, channels: seq<ReleaseChannel>, crossing: seq<string>)
  {
    if |channels| <= 1 || job.across.None? then crossing == []
    else exists r :: IsCrossResult(job.across.value, arch, channels, job.parse, r) && crossing == OrNothing(r)
  }

  ghost predicate AllShares(job: Job, arch: string, resolved: Resolutions, shares: seq<seq<string>>)
  {
    |shares| == |resolved| && forall k :: 0 <= k < |shares| ==> IsShare(job, arch, resolved[k], shares[k])
  }

  ghost predicate IsPass(job: Job, arch: string, pass: Pass)
  {
    && AllResolved(job.svc, arch, job.fail, pass.before, pass.resolved)
    && AllShares(job, arch, pass.resolved, pass.shares)
    && IsWrittenBack(pass.before, pass.resolved, pass.after)
    && IsCrossing(job, arch, pass.after, pass.crossing)
  }

  ghost function Flat(shares: seq<seq<string>>): seq<string>
  {
    if shares == [] then [] else Flat(shares[..|shares| - 1]) + shares[|shares| - 1]
  }

  ghost function PassImages(pass: Pass): seq<string>
  {
    Flat(pass.shares) + pass.crossing
  }

  ghost function RunImages(passes: seq<Pass>): seq<string>
  {
    if passes == [] then [] else RunImages(passes[..|passes| - 1]) + PassImages(passes[|passes| - 1])
  }

  /** The channels as the next architecture finds them. */
  ghost function ChannelsAfter(first: seq<ReleaseChannel>, passes: seq<Pass>): seq<ReleaseChannel>
  {
    if passes == [] then first else passes[|passes| - 1].after
  }

  /** One pass for each of the first architectures, each on the channels the one before left. */
  ghost predicate IsRun(job: Job, architectures: seq<string>, first: seq<ReleaseChannel>, passes: seq<Pass>)
  {
    && |passes| <= |architectures|
    && forall a :: 0 <= a < |passes| ==> IsPassAt(job, architectures, first, passes, a)
  }

  ghost predicate IsPassAt(job: Job, architectures: seq<string>, first: seq<ReleaseChannel>, passes: seq<Pass>, a: int)
    requires 0 <= a < |passes| <= |architectures|
  {
    IsPass(job, architectures[a], passes[a]) && passes[a].before == ChannelsAfter(first, passes[..a])
  }

  lemma FlatNext(shares: seq<seq<string>>, share: seq<string>)
    ensures Flat(shares + [share]) == Flat(shares) + share
  {
    assert (shares + [share])[..|shares|] == shares;
  }

  lemma RunNext(job: Job, architectures: seq<string>, first: seq<ReleaseChannel>, passes: seq<Pass>, pass: Pass)
    requires IsRun(job, architectures, first, passes) && |passes| < |architectures|
    requires IsPass(job, architectures[|passes|], pass) && pass.before == ChannelsAfter(first, passes)
    ensures IsRun(job, architectures, first, passes + [pass])
  {
    var all := passes + [pass];
    assert all[..|passes|] == passes;
    forall a | 0 <= a < |all| ensures IsPassAt(job, architectures, first, all, a) {
      if a < |passes| {
        assert IsPassAt(job, architectures, first, passes, a) && all[..a] == passes[..a];
      }
    }
  }

  lemma RunImagesNext(passes: seq<Pass>, pass: Pass)
    ensures RunImages(passes + [pass]) == RunImages(passes) + PassImages(pass)
  {
    assert (passes + [pass])[..|passes|] == passes;
  }

  /** The configuration's platform section. */
  class Platform {
    var channels: seq<ReleaseChannel>

    constructor (channels: seq<ReleaseChannel>)
      ensures this.channels == channels
    {
      this.channels := channels;
    }

    /** Each channel is replaced by the entry of its name, if there is one. */
    method WriteBack(versionsByChannel: map<string, ReleaseChannel>)
      modifies this
      ensures IsUpdate(versionsByChannel, old(channels), channels)
    {
      for i := 0 to |channels|
        invariant |channels| == |old(channels)|
        invariant forall k :: 0 <= k < i ==> channels[k] == Replacement(versionsByChannel, old(channels)[k])
        invariant forall k :: i <= k < |channels| ==> channels[k] == old(channels)[k]
      {
        if channels[i].name in versionsByChannel {
          channels := channels[i := versionsByChannel[channels[i].name]];
        }
      }
    }

    /** One architecture: resolve and download every channel, write the bounds back, then cross channels. */
    method HandleArchitecture(job: Job, arch: string) returns (images: seq<string>, ghost pass: Pass)
      requires Usable(job)
      modifies this
      ensures IsPass(job, arch, pass) && pass.before == old(channels) && pass.after == channels
      ensures images == PassImages(pass)
    {
      var versionsByChannel;
      versionsByChannel, images := DownloadChannels(job, arch, channels);
      ghost var resolved, shares :| Downloaded(job, arch, channels, resolved, shares, versionsByChannel, images);
      WriteBack(versionsByChannel);
      assert IsWrittenBack(old(channels), resolved, channels) by {
        assert IsVersionMap(old(channels), resolved, versionsByChannel);
        assert IsUpdate(versionsByChannel, old(channels), channels);
      }
      var crossing := DownloadAcross(job, arch, channels);
      images := images + crossing;
      pass := Pass(old(channels), resolved, shares, channels, crossing);
    }

    /** `GetReleaseReferenceImages`, up to the signatures. */
    method GetReleaseReferenceImages(job: Job, architectures: seq<string>)
      returns (allImages: seq<string>, ghost passes: seq<Pass>)
      requires Usable(job)
      modifies this
      ensures |passes| == |architectures| && IsRun(job, architectures, old(channels), passes)
      ensures channels == ChannelsAfter(old(channels), passes) && allImages == RunImages(passes)
    {
      allImages, passes := [], [];
      for a := 0 to |architectures|
        invariant |passes| == a && IsRun(job, architectures, old(channels), passes)
        invariant channels == ChannelsAfter(old(channels), passes) && allImages == RunImages(passes)
      {
        var images;
        ghost var pass;
        images, pass := HandleArchitecture(job, architectures[a]);
        RunNext(job, architectures, old(channels), passes, pass);
        RunImagesNext(passes, pass);
        allImages := allImages + images;
        passes := passes + [pass];
      }
    }
  }

  /** What holds after the first `|resolved|` channels of an architecture. */
  ghost predicate Progress(job: Job, arch: string, channels: seq<ReleaseChannel>, resolved: Resolutions,
                           shares: seq<seq<string>>,
                           versionsByChannel: map<string, ReleaseChannel>, images: seq<string>)
  {
    && AllResolved(job.svc, arch, job.fail, channels, resolved) && AllShares(job, arch, resolved, shares)
    && IsVersionMap(channels, resolved, versionsByChannel)
    && images == Flat(shares)
  }

  lemma ProgressNext(job: Job, arch: string, channels: seq<ReleaseChannel>, resolved: Resolutions,
                     shares: seq<seq<string>>,
                     versionsByChannel: map<string, ReleaseChannel>, images: seq<string>,
                     ch: Option<ReleaseChannel>, share: seq<string>)
    requires Progress(job, arch, channels, resolved, shares, versionsByChannel, images) && |resolved| < |channels|
    requires IsResolution(job.svc, arch, job.fail, channels[|resolved|], ch) && IsShare(job, arch, ch, share)
    ensures var name := channels[|resolved|].name;
            Progress(job, arch, channels, resolved + [ch], shares + [share],
                     if ch.Some? then versionsByChannel[name := ch.value] else versionsByChannel, images + share)
  {
    ResolvedNext(job.svc, arch, job.fail, channels, resolved, ch);
    SharesNext(job, arch, resolved, shares, ch, share);
    VersionMapNext(channels, resolved, versionsByChannel, ch);
    FlatNext(shares, share);
  }

  lemma ResolvedNext(svc: Service, arch: string, fail: bool, channels: seq<ReleaseChannel>, resolved: Resolutions,
                     ch: Option<ReleaseChannel>)
    requires AllResolved(svc, arch, fail, channels, resolved) && |resolved| < |channels|
    requires IsResolution(svc, arch, fail, channels[|resolved|], ch)
    ensures AllResolved(svc, arch, fail, channels, resolved + [ch])
  {
  }

  lemma SharesNext(job: Job, arch: string, resolved: Resolutions, shares: seq<seq<string>>,
                   ch: Option<ReleaseChannel>, share: seq<string>)
    requires AllShares(job, arch, resolved, shares) && IsShare(job, arch, ch, share)
    ensures AllShares(job, arch, resolved + [ch], shares + [share])
  {
  }

  ghost predicate Downloaded(job: Job, arch: string, channels: seq<ReleaseChannel>, resolved: Resolutions,
                             shares: seq<seq<string>>,
                             versionsByChannel: map<string, ReleaseChannel>, images: seq<string>)
  {
    |resolved| == |channels| && Progress(job, arch, channels, resolved, shares, versionsByChannel, images)
  }

  /** The loop over the channels of one architecture. */
  method DownloadChannels(job: Job, arch: string, channels: seq<ReleaseChannel>)
    returns (versionsByChannel: map<string, ReleaseChannel>, images: seq<string>)
    requires Usable(job)
    ensures exists resolved, shares :: Downloaded(job, arch, channels, resolved, shares, versionsByChannel, images)
  {
    versionsByChannel, images := map[], [];
    ghost var resolved: Resolutions := [];
    ghost var shares := [];
    for i := 0 to |channels|
      invariant |resolved| == i && Progress(job, arch, channels, resolved, shares, versionsByChannel, images)
    {
      var ch, share := DownloadChannel(job, arch, channels[i]);
      ProgressNext(job, arch, channels, resolved, shares, versionsByChannel, images, ch, share);
      if ch.Some? {
        versionsByChannel := versionsByChannel[channels[i].name := ch.value];
      }
      images, resolved, shares := images + share, resolved + [ch], shares + [share];
    }
    assert Downloaded(job, arch, channels, resolved, shares, versionsByChannel, images);
  }

  method DownloadChannel(job: Job, arch: string, channel: ReleaseChannel)
    returns (ch: Option<ReleaseChannel>, share: seq<string>)
    requires Usable(job)
    ensures IsResolution(job.svc, arch, job.fail, channel, ch) && IsShare(job, arch, ch, share)
  {
    ch := ResolveChannel(job.svc, arch, job.fail, channel);
    share := [];
    if ch.Some? {
      var r := GetChannelDownloads(job.svc, arch, ch.value, job.parse);
      share := OrNothing(r);
    }
  }

  method DownloadAcross(job: Job, arch: string, channels: seq<ReleaseChannel>) returns (crossing: seq<string>)
    requires Usable(job)
    ensures IsCrossing(job, arch, channels, crossing)
  {
    crossing := [];
    if |channels| > 1 && job.across.Some? {
      var r := GetCrossChannelDownloads(job.across.value, arch, channels, job.parse);
      crossing := OrNothing(r);
    }
  }

  // ---------------------------------------------------------------- bounds over all architectures

  ghost predicate AllSettled(first: seq<ReleaseChannel>, channels: seq<ReleaseChannel>)
  {
    |channels| == |first| && forall i :: 0 <= i < |first| ==> Settled(first[i], channels[i])
  }

  /**
   * After every architecture of a run on validated channels a given bound is unchanged, a changed channel has
   * both bounds, and bounds that were both missing are in order.
   */
  lemma {:induction false} RunSettles(job: Job, architectures: seq<string>, first: seq<ReleaseChannel>,
                                      passes: seq<Pass>, n: nat)
    requires Usable(job) && UniqueNames(first) && IsRun(job, architectures, first, passes) && n <= |passes|
    ensures AllSettled(first, ChannelsAfter(first, passes[..n])) && UniqueNames(ChannelsAfter(first, passes[..n]))
  {
    if n > 0 {
      RunSettles(job, architectures, first, passes, n - 1);
      assert IsPassAt(job, architectures, first, passes, n - 1);
      PassSettles(job, architectures[n - 1], first, passes[n - 1]);
    }
  }

  lemma PassSettles(job: Job, arch: string, first: seq<ReleaseChannel>, pass: Pass)
    requires Usable(job) && IsPass(job, arch, pass) && AllSettled(first, pass.before) && UniqueNames(pass.before)
    ensures AllSettled(first, pass.after) && UniqueNames(pass.after)
  {
    ArchitectureSettles(job.svc, arch, job.fail, first, pass.before, pass.resolved, pass.after);
  }

  /** What is downloaded for a resolved channel is what the configuration written back says. */
  lemma SharesFollowConfig(job: Job, architectures: seq<string>, first: seq<ReleaseChannel>, passes: seq<Pass>, a: int,
                           k: int)
    requires Usable(job) && UniqueNames(first) && IsRun(job, architectures, first, passes)
    requires 0 <= a < |passes| && 0 <= k < |passes[a].before| &&
             !Unresolvable(job.svc, architectures[a], job.fail, passes[a].before[k])
    ensures var p := passes[a];
      && |p.after| == |p.shares| == |p.before| && IsShare(job, architectures[a], Some(p.after[k]), p.shares[k])
      && forall image <- p.shares[k] :: image in RunImages(passes)
  {
    RunSettles(job, architectures, first, passes, a);
    assert IsPassAt(job, architectures, first, passes, a);
    var p := passes[a];
    assert IsResolution(job.svc, architectures[a], job.fail, p.before[k], p.resolved[k]);
    OwnResolution(p.before, p.resolved, p.after, k);
    assert IsShare(job, architectures[a], p.resolved[k], p.shares[k]);
    forall image | image in p.shares[k] ensures image in RunImages(passes) {
      InFlat(p.shares, k, image);
      InRun(passes, a, image);
    }
  }

  /** Every image of a successful download of a resolved channel is in the result. */
  lemma DownloadsAreKept(job: Job, architectures: seq<string>, first: seq<ReleaseChannel>, passes: seq<Pass>, a: int,
                         k: int)
    requires Usable(job) && UniqueNames(first) && IsRun(job, architectures, first, passes)
    requires 0 <= a < |passes| && 0 <= k < |passes[a].before| &&
             !Unresolvable(job.svc, architectures[a], job.fail, passes[a].before[k])
    ensures |passes[a].after| == |passes[a].before|
    ensures exists r :: IsChannelDownload(job.svc, architectures[a], passes[a].after[k], job.parse, r) &&
                        (r.Ok? ==> forall image <- r.value :: image in RunImages(passes))
  {
    SharesFollowConfig(job, architectures, first, passes, a, k);
  }

  /** With two channels and a client every image of a successful download across channels is in the result. */
  lemma CrossingIsKept(job: Job, architectures: seq<string>, first: seq<ReleaseChannel>, passes: seq<Pass>, a: int)
    requires IsRun(job, architectures, first, passes) && 0 <= a < |passes|
    requires |passes[a].after| >= 2 && job.across.Some?
    ensures exists r :: IsCrossResult(job.across.value, architectures[a], passes[a].after, job.parse, r) &&
                        (r.Ok? ==> forall image <- r.value :: image in RunImages(passes))
  {
    assert IsPassAt(job, architectures, first, passes, a);
    var p := passes[a];
    var r :| IsCrossResult(job.across.value, architectures[a], p.after, job.parse, r) && p.crossing == OrNothing(r);
    forall image | r.Ok? && image in r.value ensures image in RunImages(passes) {
      InRun(passes, a, image);
    }
  }

  /** With one channel, or without a client, an architecture adds the images of its channels and no other. */
  lemma NoCrossing(job: Job, architectures: seq<string>, first: seq<ReleaseChannel>, passes: seq<Pass>, a: int)
    requires IsRun(job, architectures, first, passes) && 0 <= a < |passes|
    requires |passes[a].after| <= 1 || job.across.None?
    ensures PassImages(passes[a]) == Flat(passes[a].shares)
  {
    assert IsPassAt(job, architectures, first, passes, a);
  }

  /**
   * For every architecture and every resolved shortest-path channel whose bounds are found in its graph, the images of
   * a preferred route between them are in the result, if there is a route.
   */
  lemma RunFollowsPaths(job: Job, architectures: seq<string>, first: seq<ReleaseChannel>, passes: seq<Pass>, a: int,
                        k: int, lo: Version, hi: Version, i: int, j: int)
    requires Usable(job) && UniqueNames(first) && IsRun(job, architectures, first, passes)
    requires 0 <= a < |passes| && 0 <= k < |passes[a].before| && |passes[a].after| == |passes[a].before| &&
             !Unresolvable(job.svc, architectures[a], job.fail, passes[a].before[k])
    requires var ch := passes[a].after[k];
      && ch.shortestPath && job.parse(ch.minVersion) == Ok(lo) && job.parse(ch.maxVersion) == Ok(hi)
      && IsFirst(ChannelNodes(job.svc, architectures[a], ch.name), lo, i)
      && IsFirst(ChannelNodes(job.svc, architectures[a], ch.name), hi, j)
    ensures (architectures[a], passes[a].after[k].name) in job.svc.graphs
    ensures var g := job.svc.graphs[(architectures[a], passes[a].after[k].name)];
            exists way: seq<Node> :: IsWayBetween(g, i, j, way) && forall n <- way :: n.image in RunImages(passes)
  {
    DownloadsAreKept(job, architectures, first, passes, a, k);
    var ch, arch := passes[a].after[k], architectures[a];
    var r :| IsChannelDownload(job.svc, arch, ch, job.parse, r) &&
             (r.Ok? ==> forall image <- r.value :: image in RunImages(passes));
    assert ch.(shortestPath := true) == ch;
    PathIsDownloaded(job.svc, arch, ch, lo, hi, r, i, j);
    var nodes := ChannelNodes(job.svc, arch, ch.name);
    var way: seq<Node> :| IsWayBetween(job.svc.graphs[(arch, ch.name)], i, j, way) &&
               AreWayThenEnds(way, nodes[i], nodes[j], r.value);
    forall n | n in way ensures n.image in RunImages(passes) {
      var m :| 0 <= m < |way| && way[m] == n;
      assert r.value[m] == n.image;
    }
  }

  /**
   * A shortest-path channel that came without bounds and is not full is downloaded as one image, that of the first
   * node of its greatest version.
   */
  lemma HeadsOnlyDownload(svc: Service, arch: string, c: ReleaseChannel, c': ReleaseChannel, parse: Reader,
                          r: Result<seq<string>>) returns (v: Version, i: int)
    requires WellFormed(svc) && ReadsPrinted(parse) && Resolved(svc, arch, c, c')
    requires c.minVersion == "" && c.maxVersion == "" && !c.full && c.shortestPath
    requires IsChannelDownload(svc, arch, c', parse, r)
    ensures IsBound(ChannelNodes(svc, arch, c.name), svc.matches, false, v)
    ensures IsFirst(ChannelNodes(svc, arch, c.name), v, i)
    ensures r.Ok? && r.value != [] && forall image <- r.value :: image == ChannelNodes(svc, arch, c.name)[i].image
  {
    v :| IsBound(ChannelNodes(svc, arch, c.name), svc.matches, false, v) && c'.maxVersion == ToString(v);
    assert Valid(v) && parse(ToString(v)) == Ok(v);
    i := FirstOfBound(ChannelNodes(svc, arch, c.name), svc.matches, v);
    assert c'.(shortestPath := true) == c';
    OneVersionIsDownloaded(svc, arch, c', v, r, i);
  }

  lemma FirstOfBound(nodes: seq<Node>, matches: Version -> bool, v: Version) returns (i: int)
    requires IsBound(nodes, matches, false, v)
    ensures IsFirst(nodes, v, i)
  {
    BoundIsContained(nodes, matches, false, v);
    i := 0;
    while !Eq(v, nodes[i].version)
      invariant 0 <= i < |nodes| && forall k :: 0 <= k < i ==> !Eq(v, nodes[k].version)
      decreases |nodes| - i
    {
      i := i + 1;
    }
  }

  lemma {:induction false} InFlat(shares: seq<seq<string>>, k: int, image: string)
    requires 0 <= k < |shares| && image in shares[k]
    ensures image in Flat(shares)
  {
    if k < |shares| - 1 {
      InFlat(shares[..|shares| - 1], k, image);
    }
  }

  /** The images stand in the result architecture by architecture, those across channels last in each. */
  lemma {:induction false} ImagesInOrder(passes: seq<Pass>, a: nat)
    requires a < |passes|
    ensures RunImages(passes[..a]) + (Flat(passes[a].shares) + passes[a].crossing) <= RunImages(passes)
  {
    var n := |passes| - 1;
    if a < n {
      ImagesInOrder(passes[..n], a);
      assert passes[..n][..a] == passes[..a];
    }
  }

  /** Inside an architecture they stand channel by channel. */
  lemma {:induction false} SharesInOrder(shares: seq<seq<string>>, k: nat)
    requires k < |shares|
    ensures Flat(shares[..k]) + shares[k] <= Flat(shares)
  {
    var n := |shares| - 1;
    if k < n {
      SharesInOrder(shares[..n], k);
      assert shares[..n][..k] == shares[..k];
    }
  }

  lemma {:induction false} InRun(passes: seq<Pass>, a: int, image: string)
    requires 0 <= a < |passes| && image in PassImages(passes[a])
    ensures image in RunImages(passes)
  {
    if a < |passes| - 1 {
      InRun(passes[..|passes| - 1], a, image);
    }
  }

  /**
   * On validated channels, as soon as an OCP channel that came without bounds has been resolved, the upgrades
   * across channels do not start after they end.
   */
  lemma CrossingsInOrder(job: Job, architectures: seq<string>, first: seq<ReleaseChannel>, passes: seq<Pass>, a: int,
                         k: int, ends: Ends)
    requires Usable(job) && UniqueNames(first) && IsRun(job, architectures, first, passes) && ReadsPrinted(job.parse)
    requires 0 <= a < |passes| && 0 <= k < |first| && |passes[a].after| == |first|
    requires first[k].kind.OCP? && first[k].minVersion == "" && first[k].maxVersion == "" &&
             passes[a].after[k] != first[k]
    requires AreEnds(job.parse, OcpOnly(passes[a].after), ends)
    ensures Le(ends.first, ends.last)
  {
    SettledAfter(job, architectures, first, passes, a);
    SettledEndsInOrder(job.parse, first, passes[a].after, k, ends);
  }

  lemma SettledAfter(job: Job, architectures: seq<string>, first: seq<ReleaseChannel>, passes: seq<Pass>, a: int)
    requires Usable(job) && UniqueNames(first) && IsRun(job, architectures, first, passes) && 0 <= a < |passes|
    ensures AllSettled(first, passes[a].after) && UniqueNames(passes[a].after)
  {
    RunSettles(job, architectures, first, passes, a + 1);
    assert ChannelsAfter(first, passes[..a + 1]) == passes[a].after;
  }

  lemma SettledEndsInOrder(parse: Reader, first: seq<ReleaseChannel>, channels: seq<ReleaseChannel>, k: int, ends: Ends)
    requires ReadsPrinted(parse) && AllSettled(first, channels) && UniqueNames(channels) && 0 <= k < |first|
    requires first[k].kind.OCP? && first[k].minVersion == "" && first[k].maxVersion == "" && channels[k] != first[k]
    requires AreEnds(parse, OcpOnly(channels), ends)
    ensures Le(ends.first, ends.last)
  {
    FilledInOrder(first[k], channels[k], parse);
    OcpEndsInOrder(parse, channels, k, ends);
  }

  lemma FilledInOrder(c: ReleaseChannel, c': ReleaseChannel, parse: Reader)
    requires Settled(c, c') && c' != c && c.minVersion == "" && c.maxVersion == "" && ReadsPrinted(parse)
    ensures BoundsInOrder(parse, c')
  {
    InOrderReadsBack(parse, c');
  }

  lemma OcpEndsInOrder(parse: Reader, channels: seq<ReleaseChannel>, k: int, ends: Ends)
    requires UniqueNames(channels) && 0 <= k < |channels| && channels[k].kind.OCP? && BoundsInOrder(parse, channels[k])
    requires AreEnds(parse, OcpOnly(channels), ends)
    ensures Le(ends.first, ends.last)
  {
    OcpOnlyKeeps(channels);
    assert channels[k] in OcpOnly(channels);
    var i :| 0 <= i < |OcpOnly(channels)| && OcpOnly(channels)[i] == channels[k];
    EndsInOrder(parse, OcpOnly(channels), ends, i);
  }
}
