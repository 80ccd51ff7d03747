/** Queries to the update service: one graph for each architecture and channel. */
module Cincinnati {
  import opened Outcome
  import opened Text
  import opened Semver
  import opened Sorting
  import opened UpgradeGraph

  /**
   * The service's answers, the same for repeated queries; a query without an answer fails.
   * `matches` is the VERSION_FILTER expression, accepting everything when it is unset.
   */
  datatype Service = Service(graphs: map<(string, string), Graph>, matches: Version -> bool)

  /** Graphs as the service's JSON yields them; there are fewer than 2^64 channels. */
  ghost predicate WellFormed(svc: Service)
  {
    && |svc.graphs| < U64_LIMIT
    && forall k <- svc.graphs :: InRange(svc.graphs[k]) && forall n <- svc.graphs[k].nodes :: Valid(n.version)
  }

  function GraphOf(svc: Service, arch: string, channel: string): Option<Graph>
  {
    if (arch, channel) in svc.graphs then Some(svc.graphs[(arch, channel)]) else None
  }

  ghost function ChannelNodes(svc: Service, arch: string, channel: string): seq<Node>
  {
    if (arch, channel) in svc.graphs then svc.graphs[(arch, channel)].nodes else []
  }

  /** `GetUpdates`. */
  method GetUpdates(svc: Service, arch: string, channel: string, from: Version, to: Version) returns (r: Result<Plan>)
    requires WellFormed(svc)
    ensures r.Ok? <==>
            Contains(ChannelNodes(svc, arch, channel), from) && Contains(ChannelNodes(svc, arch, channel), to)
    ensures r.Err? ==> r.reason == if GraphOf(svc, arch, channel).None? then ApiRequestError else VersionNotFound
    ensures r.Ok? ==> (arch, channel) in svc.graphs && IsPlan(svc.graphs[(arch, channel)], from, to, r.value)
  {
    if GraphOf(svc, arch, channel).None? {
      return Err(ApiRequestError);
    }
    r := PlanUpdates(svc.graphs[(arch, channel)], from, to);
  }

  lemma VersionLessIsWeakOrder()
    ensures WeakOrder((u, v) => Lt(u, v))
  {
    forall x, y | Lt(x, y) ensures !Lt(y, x) {
      CompareAntisymmetric(x, y);
    }
    forall x, y, z | Lt(x, z) ensures Lt(x, y) || Lt(y, z) {
      TotalPreorder(y, x, z);
      TotalPreorder(z, y, x);
    }
  }

  /** `semver.Sort`. */
  method SortVersions(s: seq<Version>) returns (r: seq<Version>)
    ensures multiset(r) == multiset(s)
    ensures forall i, j :: 0 <= i < j < |r| ==> Le(r[i], r[j])
  {
    var less := (u, v) => Lt(u, v);
    VersionLessIsWeakOrder();
    r := Sort(s, less);
    forall i, j | 0 <= i < j < |r| ensures Le(r[i], r[j]) {
      assert !less(r[j], r[i]);
      CompareAntisymmetric(r[i], r[j]);
    }
  }

  /** `v` is a version of an accepted node. */
  ghost predicate IsAccepted(nodes: seq<Node>, matches: Version -> bool, v: Version)
  {
    matches(v) && exists i :: 0 <= i < |nodes| && nodes[i].version == v
  }

  /** `v` is the least, or the greatest, accepted version. */
  ghost predicate IsBound(nodes: seq<Node>, matches: Version -> bool, min: bool, v: Version)
  {
    && IsAccepted(nodes, matches, v)
    && forall w :: IsAccepted(nodes, matches, w) ==> if min then Le(v, w) else Ge(v, w)
  }

  ghost predicate HasAccepted(nodes: seq<Node>, matches: Version -> bool)
  {
    exists v :: IsAccepted(nodes, matches, v)
  }

  /** `GetChannelMinOrMax`. */
  method GetChannelMinOrMax(svc: Service, arch: string, channel: string, min: bool) returns (r: Result<Version>)
    ensures r.Ok? <==> HasAccepted(ChannelNodes(svc, arch, channel), svc.matches)
    ensures r.Err? ==> r.reason == if GraphOf(svc, arch, channel).None? then ApiRequestError else NoVersionsFound
    ensures r.Ok? ==> IsBound(ChannelNodes(svc, arch, channel), svc.matches, min, r.value)
    ensures r.Ok? ==> svc.matches(r.value) && forall n <- ChannelNodes(svc, arch, channel) ::
              svc.matches(n.version) ==> if min then Le(r.value, n.version) else Le(n.version, r.value)
  {
    if GraphOf(svc, arch, channel).None? {
      return Err(ApiRequestError);
    }
    var nodes := svc.graphs[(arch, channel)].nodes;
    var vers := [];
    for i := 0 to |nodes|
      invariant forall v :: v in vers <==> IsAccepted(nodes[..i], svc.matches, v)
    {
      AcceptedStep(nodes, svc.matches, i);
      if svc.matches(nodes[i].version) {
        vers := vers + [nodes[i].version];
      }
    }
    assert nodes[..|nodes|] == nodes;
    var sorted := SortVersions(vers);
    SameElements(sorted, vers);
    if |sorted| == 0 {
      return Err(NoVersionsFound);
    }
    var best := if min then 0 else |sorted| - 1;
    r := Ok(sorted[best]);
    assert sorted[best] in vers;
    forall w | w in vers ensures if min then Le(sorted[best], w) else Ge(sorted[best], w) {
      var k :| 0 <= k < |sorted| && sorted[k] == w;
      TotalPreorder(w, sorted[best], w);
    }
    BoundOfNodes(nodes, svc.matches, min, sorted[best]);
  }

  lemma BoundOfNodes(nodes: seq<Node>, matches: Version -> bool, min: bool, v: Version)
    requires IsBound(nodes, matches, min, v)
    ensures matches(v)
    ensures forall n <- nodes :: matches(n.version) ==> if min then Le(v, n.version) else Le(n.version, v)
  {
    forall n | n in nodes && matches(n.version) ensures if min then Le(v, n.version) else Le(n.version, v) {
      assert IsAccepted(nodes, matches, n.version);
      TotalPreorder(n.version, v, v);
    }
  }

  lemma AcceptedStep(nodes: seq<Node>, matches: Version -> bool, i: int)
    requires 0 <= i < |nodes|
    ensures forall v :: IsAccepted(nodes[..i + 1], matches, v) <==>
                        IsAccepted(nodes[..i], matches, v) || (matches(v) && v == nodes[i].version)
  {
  }

  ghost function VersionsOf(nodes: seq<Node>): (r: seq<Version>)
    ensures |r| == |nodes| && forall i :: 0 <= i < |nodes| ==> r[i] == nodes[i].version
  {
    seq(|nodes|, i requires 0 <= i < |nodes| => nodes[i].version)
  }

  /** `GetVersions`. */
  method GetVersions(svc: Service, arch: string, channel: string) returns (r: Result<seq<Version>>)
    ensures r.Ok? <==> ChannelNodes(svc, arch, channel) != []
    ensures r.Err? ==> r.reason == if GraphOf(svc, arch, channel).None? then ApiRequestError else NoVersionsFound
    ensures r.Ok? ==> forall i, j :: 0 <= i < j < |r.value| ==> Le(r.value[i], r.value[j])
    ensures r.Ok? ==> multiset(r.value) == multiset(VersionsOf(ChannelNodes(svc, arch, channel)))
  {
    if GraphOf(svc, arch, channel).None? {
      return Err(ApiRequestError);
    }
    var nodes := svc.graphs[(arch, channel)].nodes;
    var vers := [];
    for i := 0 to |nodes|
      invariant vers == VersionsOf(nodes[..i])
    {
      vers := vers + [nodes[i].version];
    }
    assert nodes[..|nodes|] == nodes;
    if |vers| == 0 {
      return Err(NoVersionsFound);
    }
    var sorted := SortVersions(vers);
    r := Ok(sorted);
  }

  /** `handleBlockedEdges`: a version is blocked in a channel that does not hold it. */
  method HandleBlockedEdges(svc: Service, arch: string, channel: string, v: Version) returns (r: Result<bool>)
    ensures r.Ok? <==> ChannelNodes(svc, arch, channel) != []
    ensures r.Err? ==> r.reason == if GraphOf(svc, arch, channel).None? then ApiRequestError else NoVersionsFound
    ensures r.Ok? ==> (r.value <==> !Contains(ChannelNodes(svc, arch, channel), v))
  {
    var vers := GetVersions(svc, arch, channel);
    if vers.Err? {
      return Err(vers.reason);
    }
    ghost var nodes := ChannelNodes(svc, arch, channel);
    SameElements(vers.value, VersionsOf(nodes));
    for i := 0 to |vers.value|
      invariant forall k :: 0 <= k < i ==> !Eq(vers.value[k], v)
    {
      CompareAntisymmetric(vers.value[i], v);
      if Eq(vers.value[i], v) {
        assert vers.value[i] in vers.value;
        return Ok(false);
      }
    }
    forall i | 0 <= i < |nodes| ensures !Eq(v, nodes[i].version) {
      assert VersionsOf(nodes)[i] in vers.value;
      CompareAntisymmetric(nodes[i].version, v);
    }
    return Ok(true);
  }

  ghost function NodesIn(nodes: seq<Node>, inRange: Version -> bool): seq<Node>
  {
    if nodes == [] then []
    else NodesIn(nodes[..|nodes| - 1], inRange) +
         if inRange(nodes[|nodes| - 1].version) then [nodes[|nodes| - 1]] else []
  }

  /** The nodes kept are those of the graph that lie in the range. */
  lemma {:induction false} NodesInRange(nodes: seq<Node>, inRange: Version -> bool)
    ensures forall n :: n in NodesIn(nodes, inRange) <==> n in nodes && inRange(n.version)
  {
    if nodes != [] {
      NodesInRange(nodes[..|nodes| - 1], inRange);
      assert nodes == nodes[..|nodes| - 1] + [nodes[|nodes| - 1]];
    }
  }

  /** `at` lists, in order, the positions of all nodes in the range. */
  ghost predicate AreInRange(nodes: seq<Node>, inRange: Version -> bool, at: seq<int>)
  {
    && (forall i, j :: 0 <= i < j < |at| ==> at[i] < at[j])
    && (forall k :: k in at <==> 0 <= k < |nodes| && inRange(nodes[k].version))
  }

  /** The nodes kept stand at these positions, in order. */
  lemma {:induction false} NodesInAt(nodes: seq<Node>, inRange: Version -> bool) returns (at: seq<int>)
    ensures AreInRange(nodes, inRange, at) && |NodesIn(nodes, inRange)| == |at|
    ensures forall i :: 0 <= i < |at| ==> 0 <= at[i] < |nodes| && NodesIn(nodes, inRange)[i] == nodes[at[i]]
  {
    if nodes == [] {
      at := [];
    } else {
      var n := |nodes| - 1;
      at := NodesInAt(nodes[..n], inRange);
      assert forall k :: 0 <= k < n ==> nodes[..n][k] == nodes[k];
      if inRange(nodes[n].version) {
        at := at + [n];
      }
    }
  }

  /** `GetUpdatesInRange`. */
  method GetUpdatesInRange(svc: Service, channel: string, arch: string, inRange: Version -> bool)
    returns (r: Result<seq<Node>>)
    ensures r.Err? <==> GraphOf(svc, arch, channel).None?
    ensures r.Err? ==> r.reason == ApiRequestError
    ensures r.Ok? ==> r.value == NodesIn(ChannelNodes(svc, arch, channel), inRange)
  {
    if GraphOf(svc, arch, channel).None? {
      return Err(ApiRequestError);
    }
    var nodes := svc.graphs[(arch, channel)].nodes;
    var updates := [];
    for i := 0 to |nodes|
      invariant updates == NodesIn(nodes[..i], inRange)
    {
      assert nodes[..i + 1][..i] == nodes[..i];
      if inRange(nodes[i].version) {
        updates := updates + [nodes[i]];
      }
    }
    assert nodes[..|nodes|] == nodes;
    r := Ok(updates);
  }
}
