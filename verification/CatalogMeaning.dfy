/** The meaning of the catalog filter's single pass. */
module CatalogMeaning {
  import opened Semver
  import opened ChannelEntries
  import opened Catalog

  // ---------------------------------------------------------------- two passes

  /** Names chosen by any object, wherever it stands. */
  ghost predicate Wanted(read: Reader, olm: seq<Object>, pkg: Package, x: string)
  {
    ChosenBefore(read, olm, pkg, |olm|, x)
  }

  ghost function BundleNames(olm: seq<Object>): set<string>
  {
    set i | 0 <= i < |olm| && olm[i].schema == BUNDLE :: olm[i].name
  }

  /** The related images of the last bundle object with name `x`. */
  ghost function LastImages(olm: seq<Object>, x: string): seq<RelatedImage>
  {
    if olm == [] then []
    else
      var last := olm[|olm| - 1];
      if last.schema == BUNDLE && last.name == x then last.relatedImages else LastImages(olm[..|olm| - 1], x)
  }

  /** First collect the chosen names from the whole catalog, then take the last bundle of each. */
  ghost function TwoPasses(read: Reader, olm: seq<Object>, pkg: Package): Images
  {
    map x | x in BundleNames(olm) && (pkg.full || Wanted(read, olm, pkg, x)) :: LastImages(olm, x)
  }

  /** Packages and channels stand before all bundles. */
  ghost predicate BundlesLast(olm: seq<Object>)
  {
    forall i, j :: 0 <= i < j < |olm| && olm[i].schema == BUNDLE ==>
      olm[j].schema != CHANNEL && olm[j].schema != PACKAGE
  }

  lemma {:induction false} LastImagesAt(olm: seq<Object>, x: string, i: int)
    requires 0 <= i < |olm| && olm[i].schema == BUNDLE && olm[i].name == x
    requires forall k :: i < k < |olm| && olm[k].schema == BUNDLE ==> olm[k].name != x
    ensures LastImages(olm, x) == olm[i].relatedImages
  {
    if i < |olm| - 1 {
      LastImagesAt(olm[..|olm| - 1], x, i);
    }
  }

  /** With bundles last, a bundle is taken exactly when its name is wanted. */
  lemma TakenMeansWanted(read: Reader, olm: seq<Object>, pkg: Package, i: int)
    requires BundlesLast(olm) && 0 <= i < |olm| && olm[i].schema == BUNDLE
    ensures TakenAt(read, olm, pkg, i) <==> pkg.full || Wanted(read, olm, pkg, olm[i].name)
  {
  }

  /** On a catalog with its bundles last the single pass computes what the two passes mean. */
  lemma OnePassIsTwoPasses(read: Reader, olm: seq<Object>, pkg: Package, images: Images)
    requires BundlesLast(olm) && IsSelection(olm, Taken(read, olm, pkg), |olm|, images)
    ensures images == TwoPasses(read, olm, pkg)
  {
    var two := TwoPasses(read, olm, pkg);
    forall x | x in images ensures x in two && images[x] == two[x] {
      SelectedIsWanted(read, olm, pkg, images, x);
    }
    forall x | x in two ensures x in images {
      WantedIsSelected(read, olm, pkg, images, x);
    }
  }

  lemma WantedIsSelected(read: Reader, olm: seq<Object>, pkg: Package, images: Images, x: string)
    requires BundlesLast(olm) && IsSelection(olm, Taken(read, olm, pkg), |olm|, images)
    requires x in BundleNames(olm) && (pkg.full || Wanted(read, olm, pkg, x))
    ensures x in images
  {
  }

  lemma SelectedIsWanted(read: Reader, olm: seq<Object>, pkg: Package, images: Images, x: string)
    requires BundlesLast(olm) && IsSelection(olm, Taken(read, olm, pkg), |olm|, images) && x in images
    ensures x in BundleNames(olm) && (pkg.full || Wanted(read, olm, pkg, x)) && images[x] == LastImages(olm, x)
  {
    var taken := Taken(read, olm, pkg);
    var i :| LastTaken(olm, taken, |olm|, x, i) && images[x] == olm[i].relatedImages;
    TakenMeansWanted(read, olm, pkg, i);
    forall k | i < k < |olm| && olm[k].schema == BUNDLE ensures olm[k].name != x {
      TakenMeansWanted(read, olm, pkg, k);
      assert taken(k) ==> olm[k].name != x;
    }
    LastImagesAt(olm, x, i);
  }

  /** The last bundle of the name `x` stands behind an object that chooses `x`. */
  ghost predicate IsChosenInTime(read: Reader, olm: seq<Object>, pkg: Package, x: string)
  {
    exists i, j :: 0 <= j < i < |olm| && Chooses(read, olm[j], pkg, x) && IsLastBundle(olm, x, i)
  }

  ghost predicate IsLastBundle(olm: seq<Object>, x: string, i: int)
  {
    && 0 <= i < |olm| && olm[i].schema == BUNDLE && olm[i].name == x
    && forall k :: i < k < |olm| && olm[k].schema == BUNDLE ==> olm[k].name != x
  }

  lemma LastBundle(olm: seq<Object>, x: string) returns (i: int)
    requires x in BundleNames(olm)
    ensures IsLastBundle(olm, x, i)
  {
    i := |olm| - 1;
    while olm[i].schema != BUNDLE || olm[i].name != x
      invariant 0 <= i < |olm| && forall k :: i < k < |olm| && olm[k].schema == BUNDLE ==> olm[k].name != x
      invariant exists k :: 0 <= k <= i && olm[k].schema == BUNDLE && olm[k].name == x
      decreases i
    {
      i := i - 1;
    }
  }

  /** A bundle name is in the result exactly if its last bundle was chosen in time, or all bundles are wanted. */
  lemma SelectedExactlyWhen(read: Reader, olm: seq<Object>, pkg: Package, images: Images, x: string)
    requires IsSelection(olm, Taken(read, olm, pkg), |olm|, images)
    ensures x in images <==> x in BundleNames(olm) && (pkg.full || IsChosenInTime(read, olm, pkg, x))
    ensures x in images ==> images[x] == LastImages(olm, x)
  {
    var taken := Taken(read, olm, pkg);
    if x in BundleNames(olm) {
      var i := LastBundle(olm, x);
      LastImagesAt(olm, x, i);
      if pkg.full || IsChosenInTime(read, olm, pkg, x) {
        assert taken(i);
      }
    }
    if x in images {
      var i :| LastTaken(olm, taken, |olm|, x, i) && images[x] == olm[i].relatedImages;
      assert olm[i].name in BundleNames(olm);
      LastTakenIsLast(read, olm, pkg, x, i);
      LastImagesAt(olm, x, i);
    }
  }

  lemma LastTakenIsLast(read: Reader, olm: seq<Object>, pkg: Package, x: string, i: int)
    requires LastTaken(olm, Taken(read, olm, pkg), |olm|, x, i)
    ensures IsLastBundle(olm, x, i) && (pkg.full || IsChosenInTime(read, olm, pkg, x))
  {
    var taken := Taken(read, olm, pkg);
    assert TakenAt(read, olm, pkg, i);
    forall k | i < k < |olm| && olm[k].schema == BUNDLE ensures olm[k].name == x ==> taken(k) {
      if olm[k].name == x {
        TakenPersists(read, olm, pkg, i, k);
      }
    }
  }

  /**
   * In any order of objects the single pass computes what the two passes mean if and only if all bundles are wanted or
   * the last bundle of every wanted name stands behind an object that chooses it.
   */
  lemma OnePassExactlyWhen(read: Reader, olm: seq<Object>, pkg: Package, images: Images)
    requires IsSelection(olm, Taken(read, olm, pkg), |olm|, images)
    ensures images == TwoPasses(read, olm, pkg) <==>
            pkg.full || forall x <- BundleNames(olm) :: Wanted(read, olm, pkg, x) ==> IsChosenInTime(read, olm, pkg, x)
  {
    var two := TwoPasses(read, olm, pkg);
    forall x ensures x in images <==> x in BundleNames(olm) && (pkg.full || IsChosenInTime(read, olm, pkg, x))
             ensures x in images ==> images[x] == LastImages(olm, x)
    {
      SelectedExactlyWhen(read, olm, pkg, images, x);
    }
    forall x ensures IsChosenInTime(read, olm, pkg, x) ==> Wanted(read, olm, pkg, x) {
    }
    SameKeysSameMap(images, two);
  }

  lemma SameKeysSameMap(m: Images, m': Images)
    requires forall x :: x in m && x in m' ==> m[x] == m'[x]
    ensures m == m' <==> forall x :: x in m <==> x in m'
  {
  }

  // ---------------------------------------------------------------- the latest of each channel

  /** Entry `i` is above all entries before it and not below any other. */
  ghost predicate IsLatestAt(read: Reader, entries: seq<string>, i: int)
    requires forall e <- entries :: read(e).Ok?
  {
    && 0 <= i < |entries|
    && (forall e <- entries :: Le(read(e).value, read(entries[i]).value))
    && (forall k :: 0 <= k < i ==> !Eq(read(entries[k]).value, read(entries[i]).value))
  }

  /** `x` is the name of that entry; the empty name if an entry has no version. */
  ghost predicate IsLatest(read: Reader, entries: seq<string>, x: string)
  {
    if forall e <- entries :: read(e).Ok? then exists i :: IsLatestAt(read, entries, i) && entries[i] == x else x == ""
  }

  lemma LatestIsMax(read: Reader, entries: seq<string>, x: string)
    ensures IsLatest(read, entries, x) <==> IsMaxName(read, entries, x)
  {
    assert (forall e <- entries :: read(e).Ok?) <==> AllVersioned(read, entries) by {
      if AllVersioned(read, entries) {
        forall e | e in entries ensures read(e).Ok? {
          var k :| 0 <= k < |entries| && entries[k] == e;
        }
      }
    }
    if AllVersioned(read, entries) {
      forall i ensures IsLatestAt(read, entries, i) <==> IsFirstMax(read, entries, |entries|, i) {
        LatestAtIsFirstMax(read, entries, i);
      }
    }
  }

  lemma LatestAtIsFirstMax(read: Reader, entries: seq<string>, i: int)
    requires AllVersioned(read, entries) && forall e <- entries :: read(e).Ok?
    ensures IsLatestAt(read, entries, i) <==> IsFirstMax(read, entries, |entries|, i)
  {
    if IsFirstMax(read, entries, |entries|, i) {
      forall e | e in entries ensures Le(read(e).value, read(entries[i]).value) {
        var k :| 0 <= k < |entries| && entries[k] == e;
        assert VersionOf(read, entries, k) == read(e).value;
      }
      forall k | 0 <= k < i ensures !Eq(read(entries[k]).value, read(entries[i]).value) {
        assert Lt(VersionOf(read, entries, k), VersionOf(read, entries, i));
      }
    }
  }

  /** The object is a channel of which `x` is the latest entry, or a package with the default channel `x`. */
  ghost predicate Offers(read: Reader, obj: Object, x: string)
  {
    || (obj.schema == "olm.channel" && IsLatest(read, obj.entries, x))
    || (obj.schema == "olm.package" && obj.defaultChannel == x)
  }

  /**
   * Without a channel in the configuration the filter takes, on a catalog with its bundles last, exactly the bundles
   * named by the latest entry of some channel or by some package's default channel, each with its last images.
   */
  lemma LatestOfEachChannel(read: Reader, olm: seq<Object>, pkg: Package, images: Images)
    requires BundlesLast(olm) && IsSelection(olm, Taken(read, olm, pkg), |olm|, images)
    requires pkg.channel == "" && !pkg.full
    ensures forall x :: x in images <==> x in BundleNames(olm) && exists obj :: obj in olm && Offers(read, obj, x)
    ensures forall x <- images :: images[x] == LastImages(olm, x)
  {
    OnePassIsTwoPasses(read, olm, pkg, images);
    forall x ensures Wanted(read, olm, pkg, x) <==> exists obj :: obj in olm && Offers(read, obj, x) {
      OffersIsChooses(read, olm, pkg, x);
    }
  }

  lemma OffersIsChooses(read: Reader, olm: seq<Object>, pkg: Package, x: string)
    requires pkg.channel == ""
    ensures Wanted(read, olm, pkg, x) <==> exists obj :: obj in olm && Offers(read, obj, x)
  {
    forall obj ensures Chooses(read, obj, pkg, x) <==> Offers(read, obj, x) {
      LatestIsMax(read, obj.entries, x);
    }
    if j :| 0 <= j < |olm| && Chooses(read, olm[j], pkg, x) {
      assert olm[j] in olm && Offers(read, olm[j], x);
    }
    if obj :| obj in olm && Offers(read, obj, x) {
      var j :| 0 <= j < |olm| && olm[j] == obj;
      assert Chooses(read, olm[j], pkg, x);
    }
  }

  // ---------------------------------------------------------------- comparing selections

  ghost predicate IsSubmap(m: Images, m': Images)
  {
    forall x <- m :: x in m' && m[x] == m'[x]
  }

  /** Taking more bundles, but no later ones of a name already taken, keeps every result. */
  lemma SelectionGrows(olm: seq<Object>, taken: int -> bool, taken': int -> bool, images: Images, images': Images)
    requires IsSelection(olm, taken, |olm|, images) && IsSelection(olm, taken', |olm|, images')
    requires forall i :: taken(i) ==> taken'(i)
    requires forall i, k :: 0 <= i < k < |olm| && taken(i) && taken'(k) && olm[i].name == olm[k].name ==> taken(k)
    ensures IsSubmap(images, images')
  {
  }

  /** Once a name is taken, every later bundle of that name is. */
  lemma TakenPersists(read: Reader, olm: seq<Object>, pkg: Package, i: int, k: int)
    requires TakenAt(read, olm, pkg, i) && i < k < |olm| && olm[k].schema == BUNDLE && olm[i].name == olm[k].name
    ensures TakenAt(read, olm, pkg, k)
  {
  }

  /** If all names one package asks for are asked for by the other, its result is part of the other's. */
  lemma MoreWantedMoreTaken(read: Reader, olm: seq<Object>, pkg: Package, pkg': Package, images: Images,
                            images': Images)
    requires IsSelection(olm, Taken(read, olm, pkg), |olm|, images) &&
             IsSelection(olm, Taken(read, olm, pkg'), |olm|, images')
    requires pkg.full ==> pkg'.full
    requires !pkg'.full ==> forall obj, x :: Chooses(read, obj, pkg, x) ==> Chooses(read, obj, pkg', x)
    ensures IsSubmap(images, images')
  {
    var taken, taken' := Taken(read, olm, pkg), Taken(read, olm, pkg');
    forall i | taken(i) ensures taken'(i) {
      TakenInBoth(read, olm, pkg, pkg', i);
    }
    forall i, k | 0 <= i < k < |olm| && taken(i) && taken'(k) && olm[i].name == olm[k].name ensures taken(k) {
      TakenPersists(read, olm, pkg, i, k);
    }
    SelectionGrows(olm, taken, taken', images, images');
  }

  lemma TakenInBoth(read: Reader, olm: seq<Object>, pkg: Package, pkg': Package, i: int)
    requires TakenAt(read, olm, pkg, i) && (pkg.full ==> pkg'.full)
    requires !pkg'.full ==> forall obj, x :: Chooses(read, obj, pkg, x) ==> Chooses(read, obj, pkg', x)
    ensures TakenAt(read, olm, pkg', i)
  {
  }

  /** In any order of objects, what a filter selects is part of the full result, with the same images. */
  lemma FilteredIsPartOfFull(read: Reader, olm: seq<Object>, pkg: Package, images: Images, full: Images)
    requires IsSelection(olm, Taken(read, olm, pkg), |olm|, images)
    requires IsSelection(olm, Taken(read, olm, pkg.(full := true)), |olm|, full)
    ensures IsSubmap(images, full)
  {
    MoreWantedMoreTaken(read, olm, pkg, pkg.(full := true), images, full);
  }

  // ---------------------------------------------------------------- wider ranges

  /** The range of `pkg'` contains that of `pkg`. */
  ghost predicate Widens(pkg: Package, pkg': Package)
  {
    var lo, hi := BoundOf(pkg.minVersion, MIN_DEFAULT), BoundOf(pkg.maxVersion, MAX_DEFAULT);
    var lo', hi' := BoundOf(pkg'.minVersion, MIN_DEFAULT), BoundOf(pkg'.maxVersion, MAX_DEFAULT);
    && pkg'.channel == pkg.channel && pkg'.full == pkg.full
    && lo'.Ok? && hi'.Ok? && (lo.Ok? && hi.Ok? ==> Le(lo'.value, lo.value) && Le(hi.value, hi'.value))
  }

  lemma WiderWithin(read: Reader, entries: seq<string>, lo: Version, hi: Version, lo': Version, hi': Version, x: string)
    requires Le(lo', lo) && Le(hi, hi') && x in NamesWithin(read, entries, lo, hi)
    ensures x in NamesWithin(read, entries, lo', hi')
  {
    NamesWithinMembers(read, entries, lo, hi, x);
    NamesWithinMembers(read, entries, lo', hi', x);
    var v := read(x).value;
    TotalPreorder(v, hi, hi');
    TotalPreorder(lo', lo, v);
    TotalPreorder(v, lo, lo');
    CompareAntisymmetric(v, lo);
    CompareAntisymmetric(v, lo');
  }

  lemma WiderChooses(read: Reader, obj: Object, pkg: Package, pkg': Package, x: string)
    requires Widens(pkg, pkg') && Chooses(read, obj, pkg, x)
    ensures Chooses(read, obj, pkg', x)
  {
    if obj.schema == CHANNEL && pkg.channel != "" {
      WiderWithin(read, obj.entries,
                  BoundOf(pkg.minVersion, MIN_DEFAULT).value, BoundOf(pkg.maxVersion, MAX_DEFAULT).value,
                  BoundOf(pkg'.minVersion, MIN_DEFAULT).value, BoundOf(pkg'.maxVersion, MAX_DEFAULT).value, x);
    }
  }

  /** Widening the version range never removes a bundle nor changes its images, in any order of objects. */
  lemma WideningKeepsBundles(read: Reader, olm: seq<Object>, pkg: Package, pkg': Package, images: Images,
                             images': Images)
    requires Widens(pkg, pkg')
    requires IsSelection(olm, Taken(read, olm, pkg), |olm|, images) &&
             IsSelection(olm, Taken(read, olm, pkg'), |olm|, images')
    ensures IsSubmap(images, images')
  {
    forall obj, x | Chooses(read, obj, pkg, x) ensures Chooses(read, obj, pkg', x) {
      WiderChooses(read, obj, pkg, pkg', x);
    }
    MoreWantedMoreTaken(read, olm, pkg, pkg', images, images');
  }
}
