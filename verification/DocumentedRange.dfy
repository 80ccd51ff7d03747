/** Where the versions a catalog filter takes differ from the ones its configuration documents. */
module DocumentedRange {
  import opened Outcome
  import opened Text
  import opened Semver
  import opened ChannelEntries
  import opened Catalog
  import opened CatalogMeaning

  // ---------------------------------------------------------------- what is documented

  /** Both bounds that are given can be read. */
  ghost predicate BoundsRead(pkg: Package)
  {
    (pkg.minVersion != "" ==> Parse(pkg.minVersion).Ok?) && (pkg.maxVersion != "" ==> Parse(pkg.maxVersion).Ok?)
  }

  /** As documented: a minimum and a maximum that are given are included, and a missing one excludes nothing. */
  ghost predicate EntryDocumented(read: Reader, entry: string, pkg: Package)
    requires BoundsRead(pkg)
  {
    && read(entry).Ok?
    && (pkg.minVersion != "" ==> Le(Parse(pkg.minVersion).value, read(entry).value))
    && (pkg.maxVersion != "" ==> Le(read(entry).value, Parse(pkg.maxVersion).value))
  }

  /**
   * The three kinds of documented entries that are not taken: at the minimum given, above 9.9.9 with no maximum given,
   * and not above 0.0.0 with no minimum given.
   */
  ghost predicate EntryMissed(read: Reader, entry: string, pkg: Package)
    requires BoundsRead(pkg)
  {
    && EntryDocumented(read, entry, pkg)
    && var v := read(entry).value;
      || (pkg.minVersion != "" && Eq(Parse(pkg.minVersion).value, v))
      || (pkg.maxVersion == "" && Gt(v, Version(9, 9, 9, [], [])))
      || (pkg.minVersion == "" && Le(v, Version(0, 0, 0, [], [])))
  }

  ghost function Lowest(pkg: Package): Result<Version>
  {
    BoundOf(pkg.minVersion, MIN_DEFAULT)
  }

  ghost function Highest(pkg: Package): Result<Version>
  {
    BoundOf(pkg.maxVersion, MAX_DEFAULT)
  }

  /** Exactly these are documented but not taken. */
  lemma OnlyMissedDiffer(read: Reader, entry: string, pkg: Package)
    requires BoundsRead(pkg)
    ensures EntryWithin(read, entry, Lowest(pkg).value, Highest(pkg).value) <==>
            EntryDocumented(read, entry, pkg) && !EntryMissed(read, entry, pkg)
  {
    if read(entry).Ok? {
      MissedVersion(read(entry).value, pkg);
    }
  }

  lemma MissedVersion(v: Version, pkg: Package)
    requires BoundsRead(pkg)
    ensures Gt(v, Lowest(pkg).value) <==>
            if pkg.minVersion != "" then Le(Parse(pkg.minVersion).value, v) && !Eq(Parse(pkg.minVersion).value, v)
            else !Le(v, Version(0, 0, 0, [], []))
    ensures Le(v, Highest(pkg).value) <==>
            if pkg.maxVersion != "" then Le(v, Parse(pkg.maxVersion).value) else !Gt(v, Version(9, 9, 9, [], []))
  {
    CompareAntisymmetric(v, Lowest(pkg).value);
  }

  ghost function NamesKept(entries: seq<string>, keep: string -> bool): seq<string>
  {
    if entries == [] then []
    else
      var n := |entries| - 1;
      NamesKept(entries[..n], keep) + if keep(entries[n]) then [entries[n]] else []
  }

  lemma {:induction false} NamesKeptMembers(entries: seq<string>, keep: string -> bool, x: string)
    ensures x in NamesKept(entries, keep) <==> x in entries && keep(x)
  {
    if entries != [] {
      var n := |entries| - 1;
      NamesKeptMembers(entries[..n], keep, x);
      assert entries == entries[..n] + [entries[n]];
    }
  }

  ghost function NamesDocumented(read: Reader, entries: seq<string>, pkg: Package): seq<string>
    requires BoundsRead(pkg)
  {
    NamesKept(entries, x => EntryDocumented(read, x, pkg))
  }

  lemma NamesDocumentedMembers(read: Reader, entries: seq<string>, pkg: Package, x: string)
    requires BoundsRead(pkg)
    ensures x in NamesDocumented(read, entries, pkg) <==> x in entries && EntryDocumented(read, x, pkg)
  {
    NamesKeptMembers(entries, x => EntryDocumented(read, x, pkg), x);
  }

  /**
   * The names taken from a channel are the documented ones, in order, if and only if no entry is of the three kinds.
   */
  lemma {:induction false} DocumentedExactlyWhen(read: Reader, entries: seq<string>, pkg: Package)
    requires BoundsRead(pkg)
    ensures NamesWithin(read, entries, Lowest(pkg).value, Highest(pkg).value) == NamesDocumented(read, entries,
                                                                                                 pkg) <==>
            forall x <- entries :: !EntryMissed(read, x, pkg)
  {
    if x :| x in entries && EntryMissed(read, x, pkg) {
      NamesWithinMembers(read, entries, Lowest(pkg).value, Highest(pkg).value, x);
      NamesDocumentedMembers(read, entries, pkg, x);
      OnlyMissedDiffer(read, x, pkg);
    } else {
      SameWithoutMissed(read, entries, pkg);
    }
  }

  lemma SameWithoutMissed(read: Reader, entries: seq<string>, pkg: Package)
    requires BoundsRead(pkg) && forall x <- entries :: !EntryMissed(read, x, pkg)
    ensures NamesWithin(read, entries, Lowest(pkg).value, Highest(pkg).value) == NamesDocumented(read, entries, pkg)
  {
    var keep := x => EntryDocumented(read, x, pkg);
    forall x | x in entries ensures EntryWithin(read, x, Lowest(pkg).value, Highest(pkg).value) <==> keep(x) {
      OnlyMissedDiffer(read, x, pkg);
    }
    KeptIsWithin(read, entries, Lowest(pkg).value, Highest(pkg).value, keep);
  }

  lemma {:induction false} KeptIsWithin(read: Reader, entries: seq<string>, lo: Version, hi: Version,
                                        keep: string -> bool)
    requires forall x <- entries :: EntryWithin(read, x, lo, hi) <==> keep(x)
    ensures NamesWithin(read, entries, lo, hi) == NamesKept(entries, keep)
  {
    if entries != [] {
      KeptIsWithin(read, entries[..|entries| - 1], lo, hi, keep);
    }
  }

  // ---------------------------------------------------------------- the filter's result

  /** The object is a channel from which a range is taken. */
  ghost predicate IsRanged(read: Reader, obj: Object, pkg: Package)
  {
    && obj.schema == CHANNEL && pkg.channel != "" && pkg.channel == obj.name && AllVersioned(read, obj.entries)
    && BoundsRead(pkg)
  }

  /** What the object chooses as documented: a channel that is asked for its documented names, others what they do. */
  ghost predicate Documents(read: Reader, obj: Object, pkg: Package, x: string)
  {
    if obj.schema == CHANNEL && pkg.channel != ""
    then IsRanged(read, obj, pkg) && x in NamesDocumented(read, obj.entries, pkg)
    else Chooses(read, obj, pkg, x)
  }

  ghost predicate Documented(read: Reader, olm: seq<Object>, pkg: Package, x: string)
  {
    exists j :: 0 <= j < |olm| && Documents(read, olm[j], pkg, x)
  }

  /** The documented result: the last bundle of each documented name. */
  ghost function DocumentedImages(read: Reader, olm: seq<Object>, pkg: Package): Images
  {
    map x | x in BundleNames(olm) && (pkg.full || Documented(read, olm, pkg, x)) :: LastImages(olm, x)
  }

  /** `x` is an entry of one of the three kinds in a channel from which a range is taken. */
  ghost predicate LeftOutBy(read: Reader, obj: Object, pkg: Package, x: string)
  {
    IsRanged(read, obj, pkg) && x in obj.entries && EntryMissed(read, x, pkg)
  }

  ghost predicate LeftOut(read: Reader, olm: seq<Object>, pkg: Package, x: string)
  {
    exists j :: 0 <= j < |olm| && LeftOutBy(read, olm[j], pkg, x)
  }

  ghost predicate IsDefaultName(olm: seq<Object>, x: string)
  {
    exists j :: 0 <= j < |olm| && olm[j].schema == PACKAGE && olm[j].defaultChannel == x
  }

  lemma DocumentsMore(read: Reader, obj: Object, pkg: Package, x: string)
    ensures Documents(read, obj, pkg, x) <==> Chooses(read, obj, pkg, x) || LeftOutBy(read, obj, pkg, x)
  {
    if IsRanged(read, obj, pkg) {
      NamesDocumentedMembers(read, obj.entries, pkg, x);
      NamesWithinMembers(read, obj.entries, Lowest(pkg).value, Highest(pkg).value, x);
      OnlyMissedDiffer(read, x, pkg);
    }
  }

  /** A name of the three kinds is not taken from any channel. */
  lemma NotFromAnyChannel(read: Reader, obj: Object, pkg: Package, x: string)
    requires pkg.channel != "" && BoundsRead(pkg) && EntryMissed(read, x, pkg) && Chooses(read, obj, pkg, x)
    ensures obj.schema == PACKAGE && x == obj.defaultChannel
  {
    if obj.schema == CHANNEL {
      NamesWithinMembers(read, obj.entries, Lowest(pkg).value, Highest(pkg).value, x);
      OnlyMissedDiffer(read, x, pkg);
    }
  }

  lemma WantedIfLeftOut(read: Reader, olm: seq<Object>, pkg: Package, x: string)
    requires LeftOut(read, olm, pkg, x)
    ensures Wanted(read, olm, pkg, x) <==> IsDefaultName(olm, x)
  {
    var i :| 0 <= i < |olm| && LeftOutBy(read, olm[i], pkg, x);
    if Wanted(read, olm, pkg, x) {
      var j :| 0 <= j < |olm| && Chooses(read, olm[j], pkg, x);
      NotFromAnyChannel(read, olm[j], pkg, x);
    }
    if IsDefaultName(olm, x) {
      var j :| 0 <= j < |olm| && olm[j].schema == PACKAGE && olm[j].defaultChannel == x;
      assert Chooses(read, olm[j], pkg, x);
    }
  }

  lemma DocumentedMeans(read: Reader, olm: seq<Object>, pkg: Package, x: string)
    ensures Documented(read, olm, pkg, x) <==> Wanted(read, olm, pkg, x) || LeftOut(read, olm, pkg, x)
  {
    forall j | 0 <= j < |olm|
      ensures Documents(read, olm[j], pkg, x) <==> Chooses(read, olm[j], pkg, x) || LeftOutBy(read, olm[j], pkg, x)
    {
      DocumentsMore(read, olm[j], pkg, x);
    }
    if j :| 0 <= j < |olm| && Chooses(read, olm[j], pkg, x) {
      assert Documents(read, olm[j], pkg, x);
    }
    if j :| 0 <= j < |olm| && LeftOutBy(read, olm[j], pkg, x) {
      assert Documents(read, olm[j], pkg, x);
    }
  }

  /** No bundle is missing: every bundle of the three kinds is the name of some default channel. */
  ghost predicate NoneMissing(read: Reader, olm: seq<Object>, pkg: Package)
  {
    pkg.full || forall x <- BundleNames(olm) :: LeftOut(read, olm, pkg, x) ==> IsDefaultName(olm, x)
  }

  /**
   * On a catalog with its bundles last the filter's result is the documented one if and only if it is the full one or
   * no bundle is left out for being at the minimum given, above 9.9.9 without a maximum or at 0.0.0 without a minimum.
   */
  lemma FilterAsDocumentedExactlyWhen(read: Reader, olm: seq<Object>, pkg: Package, images: Images)
    requires BundlesLast(olm) && IsSelection(olm, Taken(read, olm, pkg), |olm|, images)
    ensures images == DocumentedImages(read, olm, pkg) <==> NoneMissing(read, olm, pkg)
  {
    OnePassIsTwoPasses(read, olm, pkg, images);
    forall x ensures Documented(read, olm, pkg, x) <==> Wanted(read, olm, pkg, x) || LeftOut(read, olm, pkg, x) {
      DocumentedMeans(read, olm, pkg, x);
    }
    forall x | LeftOut(read, olm, pkg, x) ensures Wanted(read, olm, pkg, x) <==> IsDefaultName(olm, x) {
      WantedIfLeftOut(read, olm, pkg, x);
    }
    SamePassesExactlyWhen(read, olm, pkg);
  }

  lemma SamePassesExactlyWhen(read: Reader, olm: seq<Object>, pkg: Package)
    requires forall x :: Documented(read, olm, pkg, x) <==> Wanted(read, olm, pkg, x) || LeftOut(read, olm, pkg, x)
    requires forall x :: LeftOut(read, olm, pkg, x) ==> (Wanted(read, olm, pkg, x) <==> IsDefaultName(olm, x))
    ensures TwoPasses(read, olm, pkg) == DocumentedImages(read, olm, pkg) <==> NoneMissing(read, olm, pkg)
  {
    var two, documented := TwoPasses(read, olm, pkg), DocumentedImages(read, olm, pkg);
    if NoneMissing(read, olm, pkg) {
      assert two.Keys == documented.Keys;
    } else {
      var x :| x in BundleNames(olm) && LeftOut(read, olm, pkg, x) && !IsDefaultName(olm, x);
      assert x in documented.Keys && x !in two.Keys;
    }
  }

  // ---------------------------------------------------------------- no bounds given

  /** `x` is an entry of a channel that is asked for. */
  ghost predicate IsListed(olm: seq<Object>, pkg: Package, x: string)
  {
    exists j :: 0 <= j < |olm| && olm[j].schema == CHANNEL && olm[j].name == pkg.channel && x in olm[j].entries
  }

  /** The same, with all its entries readable. */
  ghost predicate IsListedReadably(read: Reader, olm: seq<Object>, pkg: Package, x: string)
  {
    exists j :: 0 <= j < |olm| && IsRanged(read, olm[j], pkg) && x in olm[j].entries
  }

  /** The bundle would be taken without bounds: above 0.0.0, not above 9.9.9, or named by a default channel. */
  ghost predicate InFullChannel(read: Reader, olm: seq<Object>, pkg: Package, x: string)
  {
    || IsDefaultName(olm, x)
    || (IsListedReadably(read, olm, pkg, x) && EntryWithin(read, x, Version(0, 0, 0, [], []), Version(9, 9, 9, [], [])))
  }

  lemma WantedWithoutBounds(read: Reader, olm: seq<Object>, pkg: Package, x: string)
    requires pkg.channel != "" && pkg.minVersion == "" && pkg.maxVersion == ""
    ensures Wanted(read, olm, pkg, x) <==> InFullChannel(read, olm, pkg, x)
  {
    if Wanted(read, olm, pkg, x) {
      var j :| 0 <= j < |olm| && Chooses(read, olm[j], pkg, x);
      NamesWithinMembers(read, olm[j].entries, MIN_DEFAULT, MAX_DEFAULT, x);
    }
    if IsDefaultName(olm, x) {
      var j :| 0 <= j < |olm| && olm[j].schema == PACKAGE && olm[j].defaultChannel == x;
      assert Chooses(read, olm[j], pkg, x);
    } else if InFullChannel(read, olm, pkg, x) {
      var j :| 0 <= j < |olm| && IsRanged(read, olm[j], pkg) && x in olm[j].entries;
      NamesWithinMembers(read, olm[j].entries, MIN_DEFAULT, MAX_DEFAULT, x);
      assert Chooses(read, olm[j], pkg, x);
    }
  }

  /**
   * Without bounds all bundles of the channel are in the filter's result, on a catalog with its bundles last, if and
   * only if each is named by a default channel or listed with readable entries, above 0.0.0 and not above 9.9.9.
   */
  lemma FullChannelExactlyWhen(read: Reader, olm: seq<Object>, pkg: Package, images: Images)
    requires pkg.channel != "" && pkg.minVersion == "" && pkg.maxVersion == "" && !pkg.full
    requires BundlesLast(olm) && IsSelection(olm, Taken(read, olm, pkg), |olm|, images)
    ensures (forall x <- BundleNames(olm) :: IsListed(olm, pkg, x) ==> x in images) <==>
            (forall x <- BundleNames(olm) :: IsListed(olm, pkg, x) ==> InFullChannel(read, olm, pkg, x))
  {
    OnePassIsTwoPasses(read, olm, pkg, images);
    forall x | x in BundleNames(olm) ensures x in images <==> InFullChannel(read, olm, pkg, x) {
      WantedWithoutBounds(read, olm, pkg, x);
    }
  }

  // ---------------------------------------------------------------- inputs on which they differ

  function Major(major: U64): Version
  {
    Version(major, 0, 0, [], [])
  }

  /** An entry of the operator "op" for a release `major.0.0`. */
  function EntryName(major: U64): string
  {
    EntryNameOf("op", Major(major))
  }

  /** The texts used below. */
  lemma EntryNameText()
    ensures EntryName(1) == "op.v1.0.0" && EntryName(10) == "op.v10.0.0" && EntryName(0) == "op.v0.0.0"
    ensures ToString(Major(1)) == "1.0.0"
  {
    assert Itoa(0) == "0" && Itoa(1) == "1" && Itoa(10) == "10";
  }

  /** A catalog of one channel "stable" with one entry, and the bundle of that entry. */
  function OneBundle(name: string, images: seq<RelatedImage>): seq<Object>
  {
    [Object(CHANNEL, "stable", [name], [], ""), Object(BUNDLE, name, [], images, "")]
  }

  lemma OneBundleLast(name: string, images: seq<RelatedImage>)
    ensures BundlesLast(OneBundle(name, images)) && name in BundleNames(OneBundle(name, images))
    ensures forall x :: !IsDefaultName(OneBundle(name, images), x)
  {
    var olm := OneBundle(name, images);
    assert olm[1].name in BundleNames(olm);
  }

  /** Its bundle is documented but not in the result if its entry is of one of the three kinds. */
  lemma MissedBundle(read: Reader, name: string, related: seq<RelatedImage>, pkg: Package, images: Images)
    requires pkg.channel == "stable" && !pkg.full && BoundsRead(pkg) && EntryMissed(read, name, pkg)
    requires IsSelection(OneBundle(name, related), Taken(read, OneBundle(name, related), pkg), 2, images)
    ensures name !in images && name in DocumentedImages(read, OneBundle(name, related), pkg)
  {
    var olm := OneBundle(name, related);
    OneBundleLast(name, related);
    assert LeftOutBy(read, olm[0], pkg, name);
    OnePassIsTwoPasses(read, olm, pkg, images);
    WantedIfLeftOut(read, olm, pkg, name);
    DocumentedMeans(read, olm, pkg, name);
  }

  lemma MinimumReads(major: U64, pkg: Package)
    requires pkg.minVersion == ToString(Major(major))
    ensures Parse(pkg.minVersion) == Ok(Major(major)) && pkg.minVersion != ""
  {
    ParseToString(Major(major));
  }

  /** At the minimum: the bundle "op.v1.0.0" of a catalog is missing with the minimum "1.0.0", for one. */
  lemma MinimumIsLeftOut(major: U64, related: seq<RelatedImage>, pkg: Package, images: Images)
    requires pkg.channel == "stable" && !pkg.full && pkg.minVersion == ToString(Major(major)) && pkg.maxVersion == ""
    requires var olm := OneBundle(EntryName(major), related); IsSelection(olm, Taken(EntryVersion, olm, pkg), 2, images)
    ensures EntryName(major) !in images
    ensures EntryName(major) in DocumentedImages(EntryVersion, OneBundle(EntryName(major), related), pkg)
  {
    EntryNameReads("op", Major(major));
    MinimumReads(major, pkg);
    MissedAtMinimum(EntryVersion, EntryName(major), Major(major), pkg);
    MissedBundle(EntryVersion, EntryName(major), related, pkg, images);
  }

  lemma MissedAtMinimum(read: Reader, name: string, v: Version, pkg: Package)
    requires read(name) == Ok(v) && pkg.minVersion != "" && Parse(pkg.minVersion) == Ok(v) && pkg.maxVersion == ""
    ensures BoundsRead(pkg) && EntryMissed(read, name, pkg)
  {
    EqIgnoresBuildOnly(v, v);
  }

  /** Above 9.9.9: the bundle "op.v10.0.0" is missing without a maximum, whatever readable minimum is below it. */
  lemma TenIsLeftOut(major: U64, related: seq<RelatedImage>, pkg: Package, images: Images)
    requires pkg.channel == "stable" && !pkg.full && major >= 10 && pkg.maxVersion == ""
    requires pkg.minVersion != "" ==> Parse(pkg.minVersion).Ok? && Le(Parse(pkg.minVersion).value, Major(major))
    requires var olm := OneBundle(EntryName(major), related); IsSelection(olm, Taken(EntryVersion, olm, pkg), 2, images)
    ensures EntryName(major) !in images
    ensures EntryName(major) in DocumentedImages(EntryVersion, OneBundle(EntryName(major), related), pkg)
  {
    EntryNameReads("op", Major(major));
    MissedAboveNine(EntryVersion, EntryName(major), Major(major), pkg);
    MissedBundle(EntryVersion, EntryName(major), related, pkg, images);
  }

  lemma MissedAboveNine(read: Reader, name: string, v: Version, pkg: Package)
    requires read(name) == Ok(v) && v.major >= 10 && pkg.maxVersion == ""
    requires pkg.minVersion != "" ==> Parse(pkg.minVersion).Ok? && Le(Parse(pkg.minVersion).value, v)
    ensures BoundsRead(pkg) && EntryMissed(read, name, pkg)
  {
  }

  /** At 0.0.0: the bundle "op.v0.0.0" is missing without a minimum, unless the maximum given is below it. */
  lemma ZeroIsLeftOut(major: U64, related: seq<RelatedImage>, pkg: Package, images: Images)
    requires pkg.channel == "stable" && !pkg.full && major == 0 && pkg.minVersion == ""
    requires pkg.maxVersion != "" ==> Parse(pkg.maxVersion).Ok? && Le(Major(major), Parse(pkg.maxVersion).value)
    requires var olm := OneBundle(EntryName(major), related); IsSelection(olm, Taken(EntryVersion, olm, pkg), 2, images)
    ensures EntryName(major) !in images
    ensures EntryName(major) in DocumentedImages(EntryVersion, OneBundle(EntryName(major), related), pkg)
  {
    EntryNameReads("op", Major(major));
    MissedAtZero(EntryVersion, EntryName(major), Major(major), pkg);
    MissedBundle(EntryVersion, EntryName(major), related, pkg, images);
  }

  lemma MissedAtZero(read: Reader, name: string, v: Version, pkg: Package)
    requires read(name) == Ok(v) && v == Version(0, 0, 0, [], []) && pkg.minVersion == ""
    requires pkg.maxVersion != "" ==> Parse(pkg.maxVersion).Ok? && Le(v, Parse(pkg.maxVersion).value)
    ensures BoundsRead(pkg) && EntryMissed(read, name, pkg)
  {
    EqIgnoresBuildOnly(v, v);
  }
}
