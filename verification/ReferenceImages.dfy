/** How one architecture fills in the bounds of the configured channels from the service. */
module ReferenceImages {
  import opened Outcome
  import opened Semver
  import opened Cincinnati
  import opened Releases

  /** `text` is the printed least, or greatest, version of the channel. */
  ghost predicate IsBoundText(svc: Service, arch: string, channel: string, min: bool, text: string)
  {
    exists v :: IsBound(ChannelNodes(svc, arch, channel), svc.matches, min, v) && text == ToString(v)
  }

  /** No client for the channel's type, or no versions to fill a missing bound with. */
  ghost predicate Unresolvable(svc: Service, arch: string, fail: bool, c: ReleaseChannel)
  {
    || c.kind.Unknown? || (c.kind.OCP? && fail)
    || ((c.minVersion == "" || c.maxVersion == "") && !HasAccepted(ChannelNodes(svc, arch, c.name), svc.matches))
  }

  /**
   * `c'` is `c` with its missing bounds filled in: the maximum by the channel's greatest version, the minimum
   * by the same version for a heads-only channel without maximum and by the least version otherwise.
   */
  ghost predicate Resolved(svc: Service, arch: string, c: ReleaseChannel, c': ReleaseChannel)
  {
    if c.minVersion != "" && c.maxVersion != "" then c' == c.(full := true)
    else
      && c' == c.(minVersion := c'.minVersion, maxVersion := c'.maxVersion)
      && (if c.maxVersion != "" then c'.maxVersion == c.maxVersion
          else IsBoundText(svc, arch, c.name, false, c'.maxVersion))
      && (if c.minVersion != "" then c'.minVersion == c.minVersion
          else if c.maxVersion == "" && !c.full then c'.minVersion == c'.maxVersion
          else IsBoundText(svc, arch, c.name, true, c'.minVersion))
  }

  /** `r` is what becomes of `c`: nothing when it cannot be resolved. */
  ghost predicate IsResolution(svc: Service, arch: string, fail: bool, c: ReleaseChannel, r: Option<ReleaseChannel>)
  {
    && (r.None? <==> Unresolvable(svc, arch, fail, c))
    && (r.Some? ==> Resolved(svc, arch, c, r.value))
  }

  /** The bounds of one channel. */
  method ResolveChannel(svc: Service, arch: string, fail: bool, channel: ReleaseChannel)
    returns (r: Option<ReleaseChannel>)
    ensures IsResolution(svc, arch, fail, channel, r)
  {
    var ch := channel;
    if ch.kind.Unknown? || (ch.kind.OCP? && fail) {
      return None;
    }
    if |ch.maxVersion| == 0 || |ch.minVersion| == 0 {
      if |ch.maxVersion| == 0 {
        var latest := GetChannelMinOrMax(svc, arch, ch.name, false);
        if latest.Err? {
          return None;
        }
        ch := ch.(maxVersion := ToString(latest.value));
        if |ch.minVersion| == 0 && !ch.full {
          ch := ch.(minVersion := ToString(latest.value));
          ToStringNonEmpty(latest.value);
        }
      }
      if |ch.minVersion| == 0 {
        var first := GetChannelMinOrMax(svc, arch, ch.name, true);
        if first.Err? {
          return None;
        }
        ch := ch.(minVersion := ToString(first.value));
      }
    } else {
      ch := ch.(full := true);
    }
    r := Some(ch);
  }

  lemma ToStringNonEmpty(v: Version)
    ensures ToString(v) != ""
  {
  }

  // ---------------------------------------------------------------- collecting by name and writing back

  type Resolutions = seq<Option<ReleaseChannel>>

  /** Position `k` is the last at which a channel with the name `x` was resolved. */
  ghost predicate LastResolved(channels: seq<ReleaseChannel>, resolved: Resolutions, x: string, k: int)
    requires |resolved| <= |channels|
  {
    && 0 <= k < |resolved| && channels[k].name == x && resolved[k].Some?
    && forall j :: k < j < |resolved| && channels[j].name == x ==> resolved[j].None?
  }

  /** `versionsByChannel` after the first `|resolved|` channels. */
  ghost predicate IsVersionMap(channels: seq<ReleaseChannel>, resolved: Resolutions, m: map<string, ReleaseChannel>)
    requires |resolved| <= |channels|
  {
    && (forall k :: 0 <= k < |resolved| && resolved[k].Some? ==> channels[k].name in m)
    && (forall x <- m :: exists k :: LastResolved(channels, resolved, x, k) && m[x] == resolved[k].value)
  }

  lemma VersionMapNext(channels: seq<ReleaseChannel>, resolved: Resolutions, m: map<string, ReleaseChannel>,
                       r: Option<ReleaseChannel>)
    requires |resolved| < |channels| && IsVersionMap(channels, resolved, m)
    ensures var name := channels[|resolved|].name;
            IsVersionMap(channels, resolved + [r], if r.Some? then m[name := r.value] else m)
  {
    var name, resolved' := channels[|resolved|].name, resolved + [r];
    var m' := if r.Some? then m[name := r.value] else m;
    forall x | x in m' ensures exists k :: LastResolved(channels, resolved', x, k) && m'[x] == resolved'[k].value {
      if x == name && r.Some? {
        assert LastResolved(channels, resolved', x, |resolved|);
      } else {
        var k :| LastResolved(channels, resolved, x, k) && m[x] == resolved[k].value;
        assert LastResolved(channels, resolved', x, k);
      }
    }
  }

  function Replacement(m: map<string, ReleaseChannel>, c: ReleaseChannel): ReleaseChannel
  {
    if c.name in m then m[c.name] else c
  }

  ghost predicate IsUpdate(m: map<string, ReleaseChannel>, before: seq<ReleaseChannel>, after: seq<ReleaseChannel>)
  {
    |after| == |before| && forall i :: 0 <= i < |after| ==> after[i] == Replacement(m, before[i])
  }

  /** `after` is `before` with the resolutions written back by name, the last of a name to all of that name. */
  ghost predicate IsWrittenBack(before: seq<ReleaseChannel>, resolved: Resolutions, after: seq<ReleaseChannel>)
  {
    |resolved| == |before| && exists m :: IsVersionMap(before, resolved, m) && IsUpdate(m, before, after)
  }

  /** All channels of one name get the resolution of the last of them that was resolved. */
  lemma LastResolvedWins(before: seq<ReleaseChannel>, resolved: Resolutions, after: seq<ReleaseChannel>, i: int, k: int)
    requires IsWrittenBack(before, resolved, after) && 0 <= i < |before| && 0 <= k < |before|
    requires before[k].name == before[i].name && resolved[k].Some?
    requires forall j :: k < j < |before| && before[j].name == before[i].name ==> resolved[j].None?
    ensures |after| == |before| && after[i] == resolved[k].value
  {
    var m :| IsVersionMap(before, resolved, m) && IsUpdate(m, before, after);
    var x := before[i].name;
    var j :| LastResolved(before, resolved, x, j) && m[x] == resolved[j].value;
    assert j == k;
  }

  /** With unique names every channel gets its own resolution. */
  lemma OwnResolution(before: seq<ReleaseChannel>, resolved: Resolutions, after: seq<ReleaseChannel>, i: int)
    requires UniqueNames(before) && IsWrittenBack(before, resolved, after) && 0 <= i < |before|
    ensures |after| == |before| && after[i] == if resolved[i].Some? then resolved[i].value else before[i]
  {
    var m :| IsVersionMap(before, resolved, m) && IsUpdate(m, before, after);
    var x := before[i].name;
    if x in m {
      var k :| LastResolved(before, resolved, x, k) && m[x] == resolved[k].value;
      assert k == i;
    }
  }

  /** One channel before and after an architecture was handled. */
  ghost predicate Stepped(svc: Service, arch: string, fail: bool, c: ReleaseChannel, c': ReleaseChannel)
  {
    if Unresolvable(svc, arch, fail, c) then c' == c else Resolved(svc, arch, c, c')
  }

  /**
   * A channel without bounds that is not full gets its greatest version for both, a full one its least and its
   * greatest; a single missing bound is filled by the least or the greatest, and with two bounds a channel is full.
   */
  lemma MissingBoundsFilled(svc: Service, arch: string, c: ReleaseChannel, c': ReleaseChannel)
    requires Resolved(svc, arch, c, c')
    ensures c.minVersion == "" && c.maxVersion == "" && !c.full ==>
              c'.minVersion == c'.maxVersion && IsBoundText(svc, arch, c.name, false, c'.maxVersion)
    ensures c.minVersion == "" && (c.maxVersion != "" || c.full) ==> IsBoundText(svc, arch, c.name, true, c'.minVersion)
    ensures c.maxVersion == "" ==> IsBoundText(svc, arch, c.name, false, c'.maxVersion)
    ensures c.minVersion != "" && c.maxVersion != "" ==> c'.full
  {
  }

  ghost predicate HasBounds(c: ReleaseChannel)
  {
    c.minVersion != "" && c.maxVersion != ""
  }

  /** There is a client for the channel's type, and it offers some version of the channel. */
  ghost predicate IsOffered(svc: Service, arch: string, fail: bool, c: ReleaseChannel)
  {
    && (c.kind.OKD? || (c.kind.OCP? && !fail))
    && exists n :: n in ChannelNodes(svc, arch, c.name) && svc.matches(n.version)
  }

  /** After an architecture a channel has both bounds exactly if it had them before or is offered. */
  lemma BoundsSetExactlyWhen(svc: Service, arch: string, fail: bool, c: ReleaseChannel, c': ReleaseChannel)
    requires Stepped(svc, arch, fail, c, c')
    ensures HasBounds(c') <==> HasBounds(c) || IsOffered(svc, arch, fail, c)
  {
    var nodes := ChannelNodes(svc, arch, c.name);
    assert HasAccepted(nodes, svc.matches) <==> exists n :: n in nodes && svc.matches(n.version) by {
      if v :| IsAccepted(nodes, svc.matches, v) {
        var i :| 0 <= i < |nodes| && nodes[i].version == v;
        assert nodes[i] in nodes;
      }
      if n :| n in nodes && svc.matches(n.version) {
        assert IsAccepted(nodes, svc.matches, n.version);
      }
    }
    if !Unresolvable(svc, arch, fail, c) {
      FilledHasBounds(svc, arch, c, c');
    }
  }

  lemma FilledHasBounds(svc: Service, arch: string, c: ReleaseChannel, c': ReleaseChannel)
    requires Resolved(svc, arch, c, c')
    ensures HasBounds(c')
  {
    MissingBoundsFilled(svc, arch, c, c');
    if c.maxVersion == "" {
      BoundTextNonEmpty(svc, arch, c.name, false, c'.maxVersion);
    }
    if c.minVersion == "" && (c.maxVersion != "" || c.full) {
      BoundTextNonEmpty(svc, arch, c.name, true, c'.minVersion);
    }
  }

  // ---------------------------------------------------------------- all architectures

  /** Both bounds are printed versions, the minimum not above the maximum. */
  ghost predicate InOrder(c: ReleaseChannel)
  {
    exists lo, hi ::
      Valid(lo) && Valid(hi) && Le(lo, hi) && c.minVersion == ToString(lo) && c.maxVersion == ToString(hi)
  }

  /** What a channel may have become: given bounds stay, and a changed channel has both. */
  ghost predicate Settled(c: ReleaseChannel, c': ReleaseChannel)
  {
    && c'.name == c.name && c'.kind == c.kind && c'.shortestPath == c.shortestPath
    && (c.minVersion != "" ==> c'.minVersion == c.minVersion)
    && (c.maxVersion != "" ==> c'.maxVersion == c.maxVersion)
    && (c' == c || (c'.minVersion != "" && c'.maxVersion != ""))
    && (c.minVersion == "" && c.maxVersion == "" ==> c' == c || InOrder(c'))
  }

  lemma BoundTextNonEmpty(svc: Service, arch: string, channel: string, min: bool, text: string)
    requires IsBoundText(svc, arch, channel, min, text)
    ensures text != ""
  {
  }

  lemma HeadsOnlyInOrder(svc: Service, arch: string, channel: string, c: ReleaseChannel)
    requires WellFormed(svc) && IsBoundText(svc, arch, channel, false, c.maxVersion) && c.minVersion == c.maxVersion
    ensures InOrder(c)
  {
  }

  lemma FullInOrder(svc: Service, arch: string, channel: string, c: ReleaseChannel)
    requires WellFormed(svc) && IsBoundText(svc, arch, channel, false, c.maxVersion) &&
             IsBoundText(svc, arch, channel, true, c.minVersion)
    ensures InOrder(c)
  {
  }

  lemma ResolvedSettles(svc: Service, arch: string, c: ReleaseChannel, c': ReleaseChannel)
    requires WellFormed(svc) && Resolved(svc, arch, c, c')
    ensures Settled(c, c')
  {
    if c.maxVersion == "" {
      BoundTextNonEmpty(svc, arch, c.name, false, c'.maxVersion);
      if c.minVersion == "" {
        if c.full {
          FullInOrder(svc, arch, c.name, c');
        } else {
          HeadsOnlyInOrder(svc, arch, c.name, c');
        }
      }
    }
    if c.minVersion == "" && (c.maxVersion != "" || c.full) {
      BoundTextNonEmpty(svc, arch, c.name, true, c'.minVersion);
    }
  }

  /** Settling is kept by one more architecture. */
  lemma SettledThenStepped(svc: Service, arch: string, fail: bool, c0: ReleaseChannel, c: ReleaseChannel,
                           c': ReleaseChannel)
    requires WellFormed(svc) && Settled(c0, c) && Stepped(svc, arch, fail, c, c')
    ensures Settled(c0, c')
  {
    if c' != c {
      ResolvedSettles(svc, arch, c, c');
      if c0.minVersion == "" && c0.maxVersion == "" && c != c0 {
        assert c' == c.(full := true);
        InOrderIgnoresFull(c, c');
      }
    }
  }

  lemma InOrderIgnoresFull(c: ReleaseChannel, c': ReleaseChannel)
    requires InOrder(c) && c'.minVersion == c.minVersion && c'.maxVersion == c.maxVersion
    ensures InOrder(c')
  {
  }

  /** `parse` reads printed versions back; the program's `Parse` does. */
  ghost predicate ReadsPrinted(parse: Reader)
  {
    forall v :: Valid(v) ==> parse(ToString(v)) == Ok(v)
  }

  lemma ParseReadsPrinted()
    ensures ReadsPrinted(Parse)
  {
    forall v | Valid(v) ensures Parse(ToString(v)) == Ok(v) {
      ParseToString(v);
    }
  }

  /** Bounds in order read back as versions in order. */
  lemma InOrderReadsBack(parse: Reader, c: ReleaseChannel)
    requires ReadsPrinted(parse) && InOrder(c)
    ensures parse(c.minVersion).Ok? && parse(c.maxVersion).Ok? &&
            Le(parse(c.minVersion).value, parse(c.maxVersion).value)
  {
    var lo, hi :| Valid(lo) && Valid(hi) && Le(lo, hi) && c.minVersion == ToString(lo) && c.maxVersion == ToString(hi);
  }

  ghost predicate AllResolved(svc: Service, arch: string, fail: bool, channels: seq<ReleaseChannel>,
                              resolved: Resolutions)
  {
    && |resolved| <= |channels|
    && forall k :: 0 <= k < |resolved| ==> IsResolution(svc, arch, fail, channels[k], resolved[k])
  }

  /** With unique names an architecture leaves a channel whose lookup failed as it was and resolves the others. */
  lemma ArchitectureSteps(svc: Service, arch: string, fail: bool, before: seq<ReleaseChannel>, resolved: Resolutions,
                          after: seq<ReleaseChannel>)
    requires UniqueNames(before) && AllResolved(svc, arch, fail, before, resolved) &&
             IsWrittenBack(before, resolved, after)
    ensures |after| == |before| && forall i :: 0 <= i < |after| ==> Stepped(svc, arch, fail, before[i], after[i])
  {
    forall i | 0 <= i < |before| ensures |after| == |before| && Stepped(svc, arch, fail, before[i], after[i]) {
      OwnResolution(before, resolved, after, i);
      assert IsResolution(svc, arch, fail, before[i], resolved[i]);
    }
  }

  /** What was settled stays settled. */
  lemma ArchitectureSettles(svc: Service, arch: string, fail: bool, first: seq<ReleaseChannel>,
                            before: seq<ReleaseChannel>, resolved: Resolutions, after: seq<ReleaseChannel>)
    requires WellFormed(svc) && UniqueNames(before) && |first| == |before|
    requires forall i :: 0 <= i < |before| ==> Settled(first[i], before[i])
    requires AllResolved(svc, arch, fail, before, resolved) && IsWrittenBack(before, resolved, after)
    ensures |after| == |before| && UniqueNames(after)
    ensures forall i :: 0 <= i < |after| ==> Settled(first[i], after[i])
  {
    ArchitectureSteps(svc, arch, fail, before, resolved, after);
    forall i | 0 <= i < |after| ensures Settled(first[i], after[i]) {
      assert Stepped(svc, arch, fail, before[i], after[i]);
      SettledThenStepped(svc, arch, fail, first[i], before[i], after[i]);
    }
    SettledNames(first, before, after);
  }

  lemma SettledNames(first: seq<ReleaseChannel>, before: seq<ReleaseChannel>, after: seq<ReleaseChannel>)
    requires |first| == |before| == |after| && UniqueNames(before)
    requires forall i :: 0 <= i < |before| ==> Settled(first[i], before[i]) && Settled(first[i], after[i])
    ensures UniqueNames(after)
  {
  }
}
