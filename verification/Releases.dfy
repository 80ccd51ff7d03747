/** The release channels of the configuration: their bounds, and the global start and end among them. */
module Releases {
  import opened Outcome
  import opened Choice
  import opened Semver
  import opened Sorting

  /** `TypeOCP`, `TypeOKD`, and integers that are neither. */
  datatype PlatformType = OCP | OKD | Unknown(code: int)

  datatype ReleaseChannel = ReleaseChannel(name: string, kind: PlatformType, minVersion: string, maxVersion: string,
                                           shortestPath: bool, full: bool)
  {
    function Bound(min: bool): string
    {
      if min then minVersion else maxVersion
    }
  }

  ghost predicate UniqueNames(channels: seq<ReleaseChannel>)
  {
    forall i, j :: 0 <= i < j < |channels| ==> channels[i].name != channels[j].name
  }

  /** `validateReleaseChannels`. */
  method ValidateReleaseChannels(channels: seq<ReleaseChannel>) returns (ok: bool)
    ensures ok <==> UniqueNames(channels)
  {
    var seen: set<string> := {};
    for i := 0 to |channels|
      invariant forall i', j' :: 0 <= i' < j' < i ==> channels[i'].name != channels[j'].name
      invariant forall x :: x in seen <==> exists k :: 0 <= k < i && channels[k].name == x
    {
      if channels[i].name in seen {
        return false;
      }
      seen := seen + {channels[i].name};
    }
    return true;
  }

  // ---------------------------------------------------------------- the global start and end

  /** How bounds are read; the program uses `Parse`. */
  type Reader = string -> Result<Version>

  ghost predicate AllParse(parse: Reader, channels: seq<ReleaseChannel>, min: bool)
  {
    forall k :: 0 <= k < |channels| ==> parse(channels[k].Bound(min)).Ok?
  }

  /** Position `k` is the last of the first `n` channels with the name `x`. */
  ghost predicate LastNamed(channels: seq<ReleaseChannel>, n: int, x: string, k: int)
    requires n <= |channels|
  {
    0 <= k < n && channels[k].name == x && forall j :: k < j < n ==> channels[j].name != x
  }

  ghost predicate IsBoundOf(parse: Reader, channels: seq<ReleaseChannel>, min: bool, n: int, x: string, v: Version)
    requires n <= |channels|
  {
    exists k :: LastNamed(channels, n, x, k) && parse(channels[k].Bound(min)) == Ok(v)
  }

  /** `vers` gives each channel name the bound of the last of the first `n` channels so named. */
  ghost predicate IsBoundMap(parse: Reader, channels: seq<ReleaseChannel>, min: bool, n: int,
                             vers: map<string, Version>)
    requires n <= |channels|
  {
    && (forall k :: 0 <= k < n ==> channels[k].name in vers)
    && (forall x <- vers :: IsBoundOf(parse, channels, min, n, x, vers[x]))
  }

  lemma BoundMapNext(parse: Reader, channels: seq<ReleaseChannel>, min: bool, n: int, vers: map<string, Version>,
                     v: Version)
    requires 0 <= n < |channels| && IsBoundMap(parse, channels, min, n, vers) && parse(channels[n].Bound(min)) == Ok(v)
    ensures IsBoundMap(parse, channels, min, n + 1, vers[channels[n].name := v])
  {
  }

  /** `findReleases`. */
  method FindReleases(channels: seq<ReleaseChannel>, min: bool, parse: Reader) returns (r: Result<map<string, Version>>)
    ensures r.Ok? <==> channels != [] && AllParse(parse, channels, min)
    ensures r.Ok? ==> IsBoundMap(parse, channels, min, |channels|, r.value)
  {
    if |channels| == 0 {
      return Err(NoPreviousRelease);
    }
    var vers: map<string, Version> := map[];
    for i := 0 to |channels|
      invariant forall k :: 0 <= k < i ==> parse(channels[k].Bound(min)).Ok?
      invariant IsBoundMap(parse, channels, min, i, vers)
    {
      var parsed := parse(channels[i].Bound(min));
      if parsed.Err? {
        return Err(parsed.reason);
      }
      BoundMapNext(parse, channels, min, i, vers, parsed.value);
      vers := vers[channels[i].name := parsed.value];
    }
    r := Ok(vers);
  }

  /** Of channels of one name the last one's bound is found. */
  lemma LastChannelWins(parse: Reader, channels: seq<ReleaseChannel>, min: bool, vers: map<string, Version>, k: int)
    requires IsBoundMap(parse, channels, min, |channels|, vers) && 0 <= k < |channels|
    requires forall j :: k < j < |channels| ==> channels[j].name != channels[k].name
    ensures channels[k].name in vers && parse(channels[k].Bound(min)) == Ok(vers[channels[k].name])
  {
    var x := channels[k].name;
    assert IsBoundOf(parse, channels, min, |channels|, x, vers[x]);
    var j :| LastNamed(channels, |channels|, x, j) && parse(channels[j].Bound(min)) == Ok(vers[x]);
    assert j == k;
  }

  function VersionFor(vers: map<string, Version>, key: string): Version
  {
    if key in vers then vers[key] else ZERO
  }

  /** For the minimum the keys are sorted downwards, for the maximum upwards; the last one is returned. */
  predicate KeyLess(vers: map<string, Version>, min: bool, a: string, b: string)
  {
    if min then Gt(VersionFor(vers, a), VersionFor(vers, b)) else Lt(VersionFor(vers, a), VersionFor(vers, b))
  }

  lemma KeyLessIsWeakOrder(vers: map<string, Version>, min: bool)
    ensures WeakOrder((a, b) => KeyLess(vers, min, a, b))
  {
    forall x, y | KeyLess(vers, min, x, y) ensures !KeyLess(vers, min, y, x) {
      CompareAntisymmetric(VersionFor(vers, x), VersionFor(vers, y));
    }
    forall x, y, z | KeyLess(vers, min, x, z) ensures KeyLess(vers, min, x, y) || KeyLess(vers, min, y, z) {
      var u, v, w := VersionFor(vers, x), VersionFor(vers, y), VersionFor(vers, z);
      CompareAntisymmetric(u, v);
      CompareAntisymmetric(v, w);
      CompareAntisymmetric(u, w);
      TotalPreorder(u, v, w);
      TotalPreorder(w, v, u);
    }
  }

  /** The keys of a map in the order a `range` happens to give. */
  method KeysOf(vers: map<string, Version>) returns (keys: seq<string>)
    ensures forall x :: x in keys <==> x in vers
  {
    keys := [];
    var todo := vers.Keys;
    while todo != {}
      invariant todo <= vers.Keys
      invariant forall x :: x in keys <==> x in vers.Keys - todo
      decreases todo
    {
      var k := AnyOf(todo);
      keys := keys + [k];
      todo := todo - {k};
    }
  }

  ghost predicate IsExtreme(parse: Reader, channels: seq<ReleaseChannel>, min: bool, vers: map<string, Version>,
                            name: string, v: Version)
  {
    && IsBoundMap(parse, channels, min, |channels|, vers) && name in vers && vers[name] == v
    && forall x <- vers :: if min then Le(v, vers[x]) else Ge(v, vers[x])
  }

  /** `FindRelease`, whatever the iteration order of the map and the order the sort gives equal versions. */
  method FindRelease(channels: seq<ReleaseChannel>, min: bool, parse: Reader) returns (r: Result<(string, Version)>)
    ensures r.Ok? <==> channels != [] && AllParse(parse, channels, min)
    ensures r.Ok? ==> exists vers :: IsExtreme(parse, channels, min, vers, r.value.0, r.value.1)
  {
    var found := FindReleases(channels, min, parse);
    if found.Err? {
      return Err(found.reason);
    }
    var vers := found.value;
    assert channels[0].name in vers;
    var last := LastKey(vers, min);
    r := Ok((last, vers[last]));
    assert IsExtreme(parse, channels, min, vers, last, vers[last]);
  }

  /** The last of the sorted keys has the least, or the greatest, version. */
  method LastKey(vers: map<string, Version>, min: bool) returns (last: string)
    requires exists x :: x in vers
    ensures last in vers
    ensures forall x <- vers :: if min then Le(vers[last], vers[x]) else Ge(vers[last], vers[x])
  {
    var keys := KeysOf(vers);
    KeyLessIsWeakOrder(vers, min);
    var less := (a, b) => KeyLess(vers, min, a, b);
    var sorted := Sort(keys, less);
    SameElements(sorted, keys);
    last := sorted[|sorted| - 1];
    forall x | x in vers ensures if min then Le(vers[last], vers[x]) else Ge(vers[last], vers[x]) {
      var k :| 0 <= k < |sorted| && sorted[k] == x;
      assert k < |sorted| - 1 ==> !less(last, x);
      NotLess(vers, min, last, x);
    }
  }

  lemma NotLess(vers: map<string, Version>, min: bool, a: string, b: string)
    requires a in vers && b in vers && (a == b || !KeyLess(vers, min, a, b))
    ensures if min then Le(vers[a], vers[b]) else Ge(vers[a], vers[b])
  {
  }

  /** With unique names the version found is no greater than every minimum, or no smaller than every maximum. */
  lemma FindReleaseBounds(parse: Reader, channels: seq<ReleaseChannel>, min: bool, vers: map<string, Version>,
                          name: string, v: Version, k: int)
    requires UniqueNames(channels) && IsExtreme(parse, channels, min, vers, name, v) && 0 <= k < |channels|
    ensures parse(channels[k].Bound(min)).Ok?
    ensures if min then Le(v, parse(channels[k].Bound(min)).value) else Ge(v, parse(channels[k].Bound(min)).value)
  {
    var x := channels[k].name;
    assert IsBoundOf(parse, channels, min, |channels|, x, vers[x]);
    var j :| LastNamed(channels, |channels|, x, j) && parse(channels[j].Bound(min)) == Ok(vers[x]);
    assert j == k;
  }

  /** The cross-channel walk starts no later than it ends if some channel's bounds are in order. */
  lemma StartsBeforeEnd(parse: Reader, channels: seq<ReleaseChannel>, lows: map<string, Version>,
                        highs: map<string, Version>,
                        firstCh: string, first: Version, lastCh: string, last: Version, k: int)
    requires UniqueNames(channels)
    requires IsExtreme(parse, channels, true, lows, firstCh, first) &&
             IsExtreme(parse, channels, false, highs, lastCh, last)
    requires 0 <= k < |channels| && parse(channels[k].minVersion).Ok? && parse(channels[k].maxVersion).Ok?
    requires Le(parse(channels[k].minVersion).value, parse(channels[k].maxVersion).value)
    ensures Le(first, last)
  {
    FindReleaseBounds(parse, channels, true, lows, firstCh, first, k);
    FindReleaseBounds(parse, channels, false, highs, lastCh, last, k);
    var lo, hi := parse(channels[k].minVersion).value, parse(channels[k].maxVersion).value;
    CompareAntisymmetric(last, hi);
    TotalPreorder(first, lo, hi);
    TotalPreorder(first, hi, last);
  }
}
