/** Versions in the names of channel entries, and the two ways of picking entries by them. */
module ChannelEntries {
  import opened Outcome
  import opened Text
  import opened Semver

  function Without(s: string, c: char): (r: string)
    ensures c !in r
  {
    if s == "" then "" else (if s[0] == c then "" else [s[0]]) + Without(s[1..], c)
  }

  /** The version in an entry name: its second, third and fourth dot-separated parts, up to a dash. */
  function EntryVersion(name: string): Result<Version>
  {
    var hld := Split(name, '.');
    if |hld| < 4 then Err(InvalidEntryName)
    else Parse(Join([Without(hld[1], 'v'), hld[2], Split(hld[3], '-')[0]], '.'))
  }

  lemma {:induction false} WithoutAvoids(s: string, c: char, d: char)
    requires d !in s
    ensures d !in Without(s, c)
  {
    if s != "" {
      WithoutAvoids(s[1..], c, d);
    }
  }

  /** Entry versions are releases, so none is below the zero version. */
  lemma EntryVersionIsRelease(name: string)
    requires EntryVersion(name).Ok?
    ensures EntryVersion(name).value.pre == [] && Le(ZERO, EntryVersion(name).value)
  {
    var hld := Split(name, '.');
    var a, b, c := Without(hld[1], 'v'), hld[2], Split(hld[3], '-')[0];
    WithoutAvoids(hld[1], 'v', '.');
    assert '.' !in hld[1] && '.' !in hld[2] && '.' !in hld[3] && '-' !in c;
    assert Join([b, c], '.') == b + ['.'] + c;
    assert Join([a, b, c], '.') == a + ['.'] + (b + ['.'] + c);
    DashlessIsRelease(a, b, c);
  }

  lemma DashlessIsRelease(a: string, b: string, c: string)
    requires '.' !in a && '.' !in b && '-' !in c && Parse(a + ['.'] + (b + ['.'] + c)).Ok?
    ensures var v := Parse(a + ['.'] + (b + ['.'] + c)).value; v.pre == [] && Le(ZERO, v)
  {
    CutFound(a, '.', b + ['.'] + c);
    CutFound(b, '.', c);
    DashlessTail(c);
  }

  lemma DashlessTail(c: string)
    requires '-' !in c && ParseTail(c).Some?
    ensures ParseTail(c).value.1 == []
  {
  }

  lemma {:induction false} WithoutAbsent(s: string, c: char)
    requires c !in s
    ensures Without(s, c) == s
  {
    if s != "" {
      WithoutAbsent(s[1..], c);
    }
  }

  lemma ThreeJoined(a: string, b: string, c: string)
    ensures Join([a, b, c], '.') == a + ['.'] + (b + ['.'] + c)
  {
    JoinCons(b, [c], '.');
    JoinCons(a, [b, c], '.');
    assert [a] + [b, c] == [a, b, c] && [b] + [c] == [b, c];
  }

  lemma FourParts(a: string, b: string, c: string, end: string)
    requires '.' !in a && '.' !in b && '.' !in c
    ensures Split(a + ['.'] + (b + ['.'] + (c + ['.'] + end)), '.') == [a] + ([b] + ([c] + Split(end, '.')))
  {
    var tail := c + ['.'] + end;
    var rest := b + ['.'] + tail;
    SplitConcat(a, '.', rest);
    SplitConcat(b, '.', tail);
    SplitConcat(c, '.', end);
  }

  lemma WithoutMark(major: string)
    requires 'v' !in major
    ensures Without("v" + major, 'v') == major
  {
    WithoutAbsent(major, 'v');
    assert ("v" + major)[1..] == major;
  }

  /** The dot-separated parts of a name; the fourth is followed by nothing or by a dash and any text. */
  lemma NameParts(operator: string, major: string, minor: string, patch: string, rest: string)
    requires '.' !in operator && '.' !in major && '.' !in minor && '.' !in patch
    requires '-' !in patch && 'v' !in major && (rest != "" ==> rest[0] == '-')
    ensures EntryVersion(operator + ['.'] + ("v" + major + ['.'] + (minor + ['.'] + (patch + rest)))) ==
            Parse(major + ['.'] + (minor + ['.'] + patch))
  {
    FourParts(operator, "v" + major, minor, patch + rest);
    WithoutMark(major);
    FourthPart(patch, rest);
    ThreeJoined(major, minor, patch);
  }

  lemma FourthPart(patch: string, rest: string)
    requires '.' !in patch && '-' !in patch && (rest != "" ==> rest[0] == '-')
    ensures Split(Split(patch + rest, '.')[0], '-')[0] == patch
  {
    SplitHead(patch, rest, '.');
    SplitFirst(patch, Split(rest, '.')[0], '-');
  }

  /** The name of an operator's entry for a version. */
  function EntryNameOf(operator: string, v: Version): string
  {
    operator + ".v" + ToString(v)
  }

  lemma ReleaseText(v: Version)
    requires v.pre == [] && v.build == []
    ensures ToString(v) == Itoa(v.major) + ['.'] + (Itoa(v.minor) + ['.'] + Itoa(v.patch))
  {
    assert TailString(v.patch, [], []) == Itoa(v.patch);
  }

  lemma EntryText(operator: string, major: string, minor: string, patch: string, rest: string)
    ensures operator + ".v" + (major + ['.'] + (minor + ['.'] + patch)) + rest ==
            operator + ['.'] + ("v" + major + ['.'] + (minor + ['.'] + (patch + rest)))
  {
  }

  lemma EntryNameWith(operator: string, v: Version, rest: string)
    requires '.' !in operator && v.pre == [] && v.build == [] && (rest != "" ==> rest[0] == '-')
    ensures EntryVersion(EntryNameOf(operator, v) + rest) == Ok(v)
  {
    ReleaseText(v);
    EntryText(operator, Itoa(v.major), Itoa(v.minor), Itoa(v.patch), rest);
    NameParts(operator, Itoa(v.major), Itoa(v.minor), Itoa(v.patch), rest);
    ParseToString(v);
  }

  lemma NothingAdded(s: string)
    ensures s + "" == s
  {
  }

  /** A name of the documented form reads as its release: major, minor and patch are each their own part. */
  lemma EntryNameReads(operator: string, v: Version)
    requires '.' !in operator && v.pre == [] && v.build == []
    ensures EntryVersion(EntryNameOf(operator, v)) == Ok(v)
  {
    EntryNameWith(operator, v, "");
    NothingAdded(EntryNameOf(operator, v));
  }

  /** What follows a dash behind them does not matter. */
  lemma SuffixedNameReads(operator: string, v: Version, suffix: string)
    requires '.' !in operator && v.pre == [] && v.build == []
    ensures EntryVersion(EntryNameOf(operator, v) + ("-" + suffix)) == Ok(v)
  {
    EntryNameWith(operator, v, "-" + suffix);
  }

  /** How versions are read from names; the program uses `EntryVersion`. */
  type Reader = string -> Result<Version>

  ghost predicate ReadsReleases(read: Reader)
  {
    forall s :: read(s).Ok? ==> Le(ZERO, read(s).value)
  }

  lemma EntryVersionReadsReleases()
    ensures ReadsReleases(EntryVersion)
  {
    forall s | EntryVersion(s).Ok? ensures Le(ZERO, EntryVersion(s).value) {
      EntryVersionIsRelease(s);
    }
  }

  ghost predicate AllVersioned(read: Reader, entries: seq<string>)
  {
    forall i :: 0 <= i < |entries| ==> read(entries[i]).Ok?
  }

  ghost function VersionOf(read: Reader, entries: seq<string>, i: int): Version
    requires AllVersioned(read, entries) && 0 <= i < |entries|
  {
    read(entries[i]).value
  }

  /** Entry `i` is the first of the first `n` with the greatest version. */
  ghost predicate IsFirstMax(read: Reader, entries: seq<string>, n: int, i: int)
    requires AllVersioned(read, entries) && n <= |entries|
  {
    && 0 <= i < n
    && (forall k :: 0 <= k < n ==> Le(VersionOf(read, entries, k), VersionOf(read, entries, i)))
    && (forall k :: 0 <= k < i ==> Lt(VersionOf(read, entries, k), VersionOf(read, entries, i)))
  }

  lemma FirstMaxUnique(read: Reader, entries: seq<string>, i: int, j: int)
    requires AllVersioned(read, entries)
    requires IsFirstMax(read, entries, |entries|, i) && IsFirstMax(read, entries, |entries|, j)
    ensures i == j
  {
    if i != j {
      CompareAntisymmetric(VersionOf(read, entries, i), VersionOf(read, entries, j));
    }
  }

  /** `max` has the greatest version among the first `n` entries, and `index` is the first of them to have it. */
  ghost predicate MaxSoFar(read: Reader, entries: seq<string>, n: int, index: int, max: Version)
    requires AllVersioned(read, entries) && n <= |entries|
  {
    if n == 0 then index == 0 && max == ZERO
    else IsFirstMax(read, entries, n, index) && Eq(VersionOf(read, entries, index), max)
  }

  lemma MaxSoFarNext(read: Reader, entries: seq<string>, n: int, index: int, max: Version)
    requires ReadsReleases(read) && AllVersioned(read, entries) && 0 <= n < |entries| &&
             MaxSoFar(read, entries, n, index, max)
    ensures var v := VersionOf(read, entries, n);
            if Gt(v, max) then MaxSoFar(read, entries, n + 1, n, v) else MaxSoFar(read, entries, n + 1, index, max)
  {
    var v := VersionOf(read, entries, n);
    CompareAntisymmetric(v, max);
    EqIgnoresBuildOnly(v, v);
    if n > 0 {
      var top := VersionOf(read, entries, index);
      EqSubstitutes(top, max, v);
      forall k | 0 <= k < n ensures Gt(v, max) ==> Lt(VersionOf(read, entries, k), v) {
        TotalPreorder(VersionOf(read, entries, k), top, v);
      }
    }
  }

  /** `semverFindMax`, which indexes `entries` even when there are none. */
  method SemverFindMax(entries: seq<string>, read: Reader) returns (r: Result<string>)
    requires entries != [] && ReadsReleases(read)
    ensures r.Ok? <==> AllVersioned(read, entries)
    ensures r.Ok? ==> exists i :: IsFirstMax(read, entries, |entries|, i) && r.value == entries[i]
  {
    var max, index := ZERO, 0;
    for id := 0 to |entries|
      invariant forall k :: 0 <= k < id ==> read(entries[k]).Ok?
      invariant 0 <= index < |entries|
      invariant AllVersioned(read, entries) ==> MaxSoFar(read, entries, id, index, max)
    {
      var version := read(entries[id]);
      if version.Err? {
        return Err(version.reason);
      }
      if AllVersioned(read, entries) {
        MaxSoFarNext(read, entries, id, index, max);
      }
      if Compare(version.value, max) == 1 {
        max, index := version.value, id;
      }
    }
    r := Ok(entries[index]);
  }

  /** A bound given as text, or the default when the text is empty. */
  function BoundOf(text: string, default: Version): Result<Version>
  {
    if text != "" then Parse(text) else Ok(default)
  }

  const MIN_DEFAULT := Version(0, 0, 0, [], [])
  const MAX_DEFAULT := Version(9, 9, 9, [], [])

  /** The lower bound itself is outside, the upper one inside. */
  predicate Within(v: Version, lo: Version, hi: Version)
  {
    Le(v, hi) && Gt(v, lo)
  }

  ghost predicate EntryWithin(read: Reader, entry: string, lo: Version, hi: Version)
  {
    read(entry).Ok? && Within(read(entry).value, lo, hi)
  }

  ghost function NamesWithin(read: Reader, entries: seq<string>, lo: Version, hi: Version): seq<string>
  {
    if entries == [] then []
    else
      var n := |entries| - 1;
      NamesWithin(read, entries[..n], lo, hi) + if EntryWithin(read, entries[n], lo, hi) then [entries[n]] else []
  }

  lemma {:induction false} NamesWithinMembers(read: Reader, entries: seq<string>, lo: Version, hi: Version, x: string)
    ensures x in NamesWithin(read, entries, lo, hi) <==> x in entries && EntryWithin(read, x, lo, hi)
  {
    if entries != [] {
      var n := |entries| - 1;
      NamesWithinMembers(read, entries[..n], lo, hi, x);
      assert entries == entries[..n] + [entries[n]];
    }
  }

  /** `semverFindRange`, with the bounds already read. */
  method NamesInRange(entries: seq<string>, read: Reader, lo: Version, hi: Version) returns (r: Result<seq<string>>)
    ensures r.Ok? <==> AllVersioned(read, entries)
    ensures r.Ok? ==> r.value == NamesWithin(read, entries, lo, hi)
  {
    var results := [];
    for i := 0 to |entries|
      invariant forall k :: 0 <= k < i ==> read(entries[k]).Ok?
      invariant results == NamesWithin(read, entries[..i], lo, hi)
    {
      assert entries[..i + 1][..i] == entries[..i];
      var version := read(entries[i]);
      if version.Err? {
        return Err(version.reason);
      }
      if Compare(version.value, hi) <= 0 && Compare(version.value, lo) >= 1 {
        results := results + [entries[i]];
      }
    }
    assert entries[..|entries|] == entries;
    r := Ok(results);
  }

  /** `semverFindRange`. */
  method SemverFindRange(entries: seq<string>, read: Reader, min: string, max: string) returns (r: Result<seq<string>>)
    ensures r.Ok? <==> BoundOf(min, MIN_DEFAULT).Ok? && BoundOf(max, MAX_DEFAULT).Ok? && AllVersioned(read, entries)
    ensures r.Ok? ==>
            r.value == NamesWithin(read, entries, BoundOf(min, MIN_DEFAULT).value, BoundOf(max, MAX_DEFAULT).value)
  {
    var lo := BoundOf(min, MIN_DEFAULT);
    if lo.Err? {
      return Err(lo.reason);
    }
    var hi := BoundOf(max, MAX_DEFAULT);
    if hi.Err? {
      return Err(hi.reason);
    }
    r := NamesInRange(entries, read, lo.value, hi.value);
  }
}

/** The operator catalog filter: which bundles, and with which related images, one pass over a catalog selects. */
module Catalog {
  import opened ChannelEntries

  datatype RelatedImage = RelatedImage(name: string, image: string)

  /** One object of a catalog; `entries` holds the names of a channel's entries. */
  datatype Object = Object(schema: string, name: string, entries: seq<string>, relatedImages: seq<RelatedImage>,
                           defaultChannel: string)

  /** What the configuration asks of a package. */
  datatype Package = Package(channel: string, minVersion: string, maxVersion: string, full: bool)

  type Images = map<string, seq<RelatedImage>>

  const CHANNEL := "olm.channel"
  const BUNDLE := "olm.bundle"
  const PACKAGE := "olm.package"

  // ---------------------------------------------------------------- what is taken

  /** The name of the greatest entry; the empty name when an entry has no version. */
  ghost predicate IsMaxName(read: Reader, entries: seq<string>, name: string)
  {
    if AllVersioned(read, entries) then exists i :: IsFirstMax(read, entries, |entries|, i) && name == entries[i]
    else name == ""
  }

  /** The names of the entries in the range the package gives; none when a bound or an entry has no version. */
  ghost predicate IsNameInRange(read: Reader, entries: seq<string>, pkg: Package, x: string)
  {
    && AllVersioned(read, entries)
    && BoundOf(pkg.minVersion, MIN_DEFAULT).Ok? && BoundOf(pkg.maxVersion, MAX_DEFAULT).Ok?
    && x in NamesWithin(read, entries, BoundOf(pkg.minVersion, MIN_DEFAULT).value,
                        BoundOf(pkg.maxVersion, MAX_DEFAULT).value)
  }

  /** Object `obj` chooses the bundle name `x`. */
  ghost predicate Chooses(read: Reader, obj: Object, pkg: Package, x: string)
  {
    if obj.schema == CHANNEL then
      if pkg.channel != "" then pkg.channel == obj.name && IsNameInRange(read, obj.entries, pkg, x)
      else IsMaxName(read, obj.entries, x)
    else obj.schema == PACKAGE && x == obj.defaultChannel
  }

  /** Some object before position `i` chooses `x`. */
  ghost predicate ChosenBefore(read: Reader, olm: seq<Object>, pkg: Package, i: int, x: string)
  {
    exists j :: 0 <= j < i && j < |olm| && Chooses(read, olm[j], pkg, x)
  }

  /** The bundle at position `i` is taken: its name was chosen before it, or all bundles are wanted. */
  ghost predicate TakenAt(read: Reader, olm: seq<Object>, pkg: Package, i: int)
  {
    0 <= i < |olm| && olm[i].schema == BUNDLE && (pkg.full || ChosenBefore(read, olm, pkg, i, olm[i].name))
  }

  ghost function Taken(read: Reader, olm: seq<Object>, pkg: Package): int -> bool
  {
    i => TakenAt(read, olm, pkg, i)
  }

  // ---------------------------------------------------------------- the last one taken wins

  /** Of the first `n` objects, the last that is taken under the name `x` stands at `i`. */
  ghost predicate LastTaken(olm: seq<Object>, taken: int -> bool, n: int, x: string, i: int)
    requires n <= |olm|
  {
    && 0 <= i < n && taken(i) && olm[i].name == x
    && forall k :: i < k < n && taken(k) ==> olm[k].name != x
  }

  /** `images` maps each name under which a bundle is taken to the images of the last such bundle. */
  ghost predicate IsSelection(olm: seq<Object>, taken: int -> bool, n: int, images: Images)
    requires n <= |olm|
  {
    && (forall x <- images :: exists i :: LastTaken(olm, taken, n, x, i) && images[x] == olm[i].relatedImages)
    && (forall i :: 0 <= i < n && taken(i) ==> olm[i].name in images)
  }

  lemma SelectionTake(olm: seq<Object>, taken: int -> bool, n: int, images: Images)
    requires 0 <= n < |olm| && IsSelection(olm, taken, n, images) && taken(n)
    ensures IsSelection(olm, taken, n + 1, images[olm[n].name := olm[n].relatedImages])
  {
  }

  lemma SelectionSkip(olm: seq<Object>, taken: int -> bool, n: int, images: Images)
    requires 0 <= n < |olm| && IsSelection(olm, taken, n, images) && !taken(n)
    ensures IsSelection(olm, taken, n + 1, images)
  {
    forall x | x in images ensures exists i :: LastTaken(olm, taken, n + 1, x, i) && images[x] == olm[i].relatedImages {
      var i :| LastTaken(olm, taken, n, x, i) && images[x] == olm[i].relatedImages;
      assert LastTaken(olm, taken, n + 1, x, i);
    }
  }

  lemma SelectionNext(olm: seq<Object>, taken: int -> bool, n: int, images: Images)
    requires 0 <= n < |olm| && IsSelection(olm, taken, n, images)
    ensures IsSelection(olm, taken, n + 1, if taken(n) then images[olm[n].name := olm[n].relatedImages] else images)
  {
    if taken(n) {
      SelectionTake(olm, taken, n, images);
    } else {
      SelectionSkip(olm, taken, n, images);
    }
  }

  // ---------------------------------------------------------------- the pass

  lemma ChosenNext(read: Reader, olm: seq<Object>, pkg: Package, i: int)
    requires 0 <= i < |olm|
    ensures forall x :: ChosenBefore(read, olm, pkg, i + 1, x) <==>
            ChosenBefore(read, olm, pkg, i, x) || Chooses(read, olm[i], pkg, x)
  {
  }

  /** The names a channel object adds to the bundles wanted. */
  method ChannelChoice(obj: Object, pkg: Package, read: Reader) returns (names: set<string>)
    requires ReadsReleases(read) && obj.schema == CHANNEL && (pkg.channel == "" ==> obj.entries != [])
    ensures forall x :: x in names <==> Chooses(read, obj, pkg, x)
  {
    names := {};
    if pkg.channel != "" {
      if pkg.channel == obj.name {
        var found := SemverFindRange(obj.entries, read, pkg.minVersion, pkg.maxVersion);
        if found.Ok? {
          names := set x | x in found.value;
        }
      }
    } else {
      var found := SemverFindMax(obj.entries, read);
      if found.Ok? {
        names := {found.value};
        MaxNameUnique(read, obj.entries, found.value);
      } else {
        names := {""};
      }
    }
  }

  lemma MaxNameUnique(read: Reader, entries: seq<string>, name: string)
    requires IsMaxName(read, entries, name)
    ensures forall x :: IsMaxName(read, entries, x) <==> x == name
  {
    forall x | IsMaxName(read, entries, x) ensures x == name {
      if AllVersioned(read, entries) {
        var i :| IsFirstMax(read, entries, |entries|, i) && name == entries[i];
        var j :| IsFirstMax(read, entries, |entries|, j) && x == entries[j];
        FirstMaxUnique(read, entries, i, j);
      }
    }
  }

  /** The loop of `getRelatedImageByFilter`. */
  method FilterCatalog(olm: seq<Object>, pkg: Package, read: Reader) returns (relatedImages: Images)
    requires ReadsReleases(read) && forall o <- olm :: o.schema == CHANNEL && pkg.channel == "" ==> o.entries != []
    ensures IsSelection(olm, Taken(read, olm, pkg), |olm|, relatedImages)
  {
    relatedImages := map[];
    var bundles: set<string> := {};
    ghost var taken := Taken(read, olm, pkg);
    for i := 0 to |olm|
      invariant forall x :: x in bundles <==> ChosenBefore(read, olm, pkg, i, x)
      invariant IsSelection(olm, taken, i, relatedImages)
    {
      var obj := olm[i];
      ChosenNext(read, olm, pkg, i);
      SelectionNext(olm, taken, i, relatedImages);
      if obj.schema == CHANNEL {
        var names := ChannelChoice(obj, pkg, read);
        bundles := bundles + names;
      } else if obj.schema == BUNDLE {
        if obj.name in bundles && !pkg.full {
          relatedImages := relatedImages[obj.name := obj.relatedImages];
        }
        if pkg.full {
          relatedImages := relatedImages[obj.name := obj.relatedImages];
        }
      } else if obj.schema == PACKAGE {
        bundles := bundles + {obj.defaultChannel};
      }
    }
  }

  /**
   * `getRelatedImageByFilter`, for any order of objects. A channel without entries is an index error when
   * the greatest entry is wanted.
   */
  method GetRelatedImageByFilter(olm: seq<Object>, pkg: Package) returns (relatedImages: Images)
    requires forall o <- olm :: o.schema == CHANNEL && pkg.channel == "" ==> o.entries != []
    ensures IsSelection(olm, Taken(EntryVersion, olm, pkg), |olm|, relatedImages)
  {
    EntryVersionReadsReleases();
    relatedImages := FilterCatalog(olm, pkg, EntryVersion);
  }
}
