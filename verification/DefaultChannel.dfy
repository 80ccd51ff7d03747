/** `getRelatedImageByDefaultChannel`: the newest bundle of the default channel. */
module DefaultChannel {
  import opened ChannelEntries
  import opened Catalog
  import opened CatalogMeaning

  /** The default channel of the last package object before position `j`; empty if there is none. */
  ghost function DefaultAt(olm: seq<Object>, j: nat): string
    requires j <= |olm|
  {
    if j == 0 then "" else if olm[j - 1].schema == PACKAGE then olm[j - 1].defaultChannel else DefaultAt(olm, j - 1)
  }

  /** Of several packages the last one before a position counts there. */
  lemma {:induction false} LastPackageCounts(olm: seq<Object>, p: nat, j: nat)
    requires p < j <= |olm| && olm[p].schema == PACKAGE && forall i :: p < i < j ==> olm[i].schema != PACKAGE
    ensures DefaultAt(olm, j) == olm[p].defaultChannel
  {
    if j > p + 1 {
      LastPackageCounts(olm, p, j - 1);
    }
  }

  /** The channel object at `j` is the default one when its turn comes. */
  ghost predicate IsDefault(olm: seq<Object>, j: int)
  {
    0 <= j < |olm| && olm[j].schema == CHANNEL && olm[j].name == DefaultAt(olm, j)
  }

  ghost predicate HeadBefore(read: Reader, olm: seq<Object>, i: int, x: string)
  {
    exists j :: 0 <= j < i && IsDefault(olm, j) && IsMaxName(read, olm[j].entries, x)
  }

  /** The bundle at `i` has the name of the greatest entry of a default channel before it. */
  ghost predicate HeadTakenAt(read: Reader, olm: seq<Object>, i: int)
  {
    0 <= i < |olm| && olm[i].schema == BUNDLE && HeadBefore(read, olm, i, olm[i].name)
  }

  ghost function HeadTaken(read: Reader, olm: seq<Object>): int -> bool
  {
    i => HeadTakenAt(read, olm, i)
  }

  /** `bundles` holds the names chosen before position `i`. */
  ghost predicate AreHeads(read: Reader, olm: seq<Object>, i: int, bundles: set<string>)
  {
    forall x :: x in bundles <==> HeadBefore(read, olm, i, x)
  }

  /** `names` is what the object at `i` chooses. */
  ghost predicate IsHeadChoice(read: Reader, olm: seq<Object>, i: int, names: set<string>)
  {
    forall x :: x in names <==> IsDefault(olm, i) && IsMaxName(read, olm[i].entries, x)
  }

  lemma HeadsNext(read: Reader, olm: seq<Object>, i: int, bundles: set<string>, names: set<string>)
    requires 0 <= i < |olm| && AreHeads(read, olm, i, bundles) && IsHeadChoice(read, olm, i, names)
    ensures AreHeads(read, olm, i + 1, bundles + names)
  {
  }

  /** The name of the greatest entry, or the empty name that goes with the error. */
  method HeadName(entries: seq<string>, read: Reader) returns (name: string)
    requires ReadsReleases(read) && entries != []
    ensures forall x :: IsMaxName(read, entries, x) <==> x == name
  {
    var found := SemverFindMax(entries, read);
    name := if found.Ok? then found.value else "";
    MaxNameUnique(read, entries, name);
  }

  /** What the object at `i` adds to the bundles wanted. */
  method HeadChoice(olm: seq<Object>, i: nat, defaultChannel: string, read: Reader) returns (names: set<string>)
    requires ReadsReleases(read) && i < |olm| && defaultChannel == DefaultAt(olm, i) &&
             (IsDefault(olm, i) ==> olm[i].entries != [])
    ensures IsHeadChoice(read, olm, i, names)
  {
    names := {};
    if olm[i].schema == CHANNEL && defaultChannel == olm[i].name {
      var name := HeadName(olm[i].entries, read);
      names := {name};
    }
  }

  /** The loop of `getRelatedImageByDefaultChannel`. */
  method SelectHeads(olm: seq<Object>, read: Reader) returns (relatedImages: Images)
    requires ReadsReleases(read) && forall j :: IsDefault(olm, j) ==> olm[j].entries != []
    ensures IsSelection(olm, HeadTaken(read, olm), |olm|, relatedImages)
  {
    relatedImages := map[];
    var bundles: set<string> := {};
    var defaultChannel := "";
    ghost var taken := HeadTaken(read, olm);
    for i := 0 to |olm|
      invariant defaultChannel == DefaultAt(olm, i)
      invariant AreHeads(read, olm, i, bundles)
      invariant IsSelection(olm, taken, i, relatedImages)
    {
      var obj := olm[i];
      SelectionNext(olm, taken, i, relatedImages);
      assert taken(i) <==> obj.schema == BUNDLE && obj.name in bundles;
      var names := HeadChoice(olm, i, defaultChannel, read);
      HeadsNext(read, olm, i, bundles, names);
      if obj.schema == BUNDLE {
        if obj.name in bundles {
          relatedImages := relatedImages[obj.name := obj.relatedImages];
        }
      } else if obj.schema == PACKAGE {
        defaultChannel := obj.defaultChannel;
      }
      bundles := bundles + names;
    }
  }

  /** `getRelatedImageByDefaultChannel`; a default channel without entries is an index error. */
  method GetRelatedImageByDefaultChannel(olm: seq<Object>) returns (relatedImages: Images)
    requires forall j :: IsDefault(olm, j) ==> olm[j].entries != []
    ensures IsSelection(olm, HeadTaken(EntryVersion, olm), |olm|, relatedImages)
  {
    EntryVersionReadsReleases();
    relatedImages := SelectHeads(olm, EntryVersion);
  }

  /**
   * In any order of objects a name in the result belongs to a bundle behind a channel of which it is the latest entry
   * and which is, in turn, behind a package with that default channel.
   */
  lemma HeadsComeInOrder(read: Reader, olm: seq<Object>, images: Images, x: string) returns (p: int, c: int, i: int)
    requires IsSelection(olm, HeadTaken(read, olm), |olm|, images) && x in images
    requires forall o <- olm :: o.schema == CHANNEL ==> o.name != ""
    ensures 0 <= p < c < i < |olm|
    ensures olm[p].schema == "olm.package" && olm[c].schema == "olm.channel" && olm[i].schema == "olm.bundle"
    ensures olm[p].defaultChannel == olm[c].name && IsLatest(read, olm[c].entries, x) && olm[i].name == x
  {
    i :| LastTaken(olm, HeadTaken(read, olm), |olm|, x, i) && images[x] == olm[i].relatedImages;
    assert HeadTakenAt(read, olm, i);
    c :| 0 <= c < i && IsDefault(olm, c) && IsMaxName(read, olm[c].entries, x);
    LatestIsMax(read, olm[c].entries, x);
    assert olm[c] in olm;
    p := PackageOf(olm, c);
  }

  lemma {:induction false} PackageOf(olm: seq<Object>, j: nat) returns (p: int)
    requires j <= |olm| && DefaultAt(olm, j) != ""
    ensures 0 <= p < j && olm[p].schema == PACKAGE && olm[p].defaultChannel == DefaultAt(olm, j)
  {
    p := j - 1;
    if olm[p].schema != PACKAGE {
      p := PackageOf(olm, j - 1);
    }
  }

  // ---------------------------------------------------------------- against the filter

  lemma HeadIsTaken(read: Reader, olm: seq<Object>, pkg: Package, i: int)
    requires pkg.channel == "" && HeadTakenAt(read, olm, i)
    ensures TakenAt(read, olm, pkg, i)
  {
  }

  lemma HeadPersists(read: Reader, olm: seq<Object>, i: int, k: int)
    requires HeadTakenAt(read, olm, i) && i < k < |olm| && olm[k].schema == BUNDLE && olm[i].name == olm[k].name
    ensures HeadTakenAt(read, olm, k)
  {
  }

  /** In any order of objects the default channel's result is part of the filter's without a channel. */
  lemma HeadsArePartOfLatest(read: Reader, olm: seq<Object>, pkg: Package, heads: Images, images: Images)
    requires pkg.channel == "" && IsSelection(olm, HeadTaken(read, olm), |olm|, heads)
    requires IsSelection(olm, Taken(read, olm, pkg), |olm|, images)
    ensures IsSubmap(heads, images)
  {
    var taken, taken' := HeadTaken(read, olm), Taken(read, olm, pkg);
    forall i | taken(i) ensures taken'(i) {
      HeadIsTaken(read, olm, pkg, i);
    }
    forall i, k | 0 <= i < k < |olm| && taken(i) && taken'(k) && olm[i].name == olm[k].name ensures taken(k) {
      HeadPersists(read, olm, i, k);
    }
    SelectionGrows(olm, taken, taken', heads, images);
  }

  // ---------------------------------------------------------------- the head of the default channel

  /** One package object, before all channels, and the only channel with the name of its default at `c`. */
  ghost predicate OnePackage(olm: seq<Object>, p: int, c: int)
  {
    && 0 <= p < c < |olm| && olm[p].schema == PACKAGE
    && (forall i :: 0 <= i < |olm| && olm[i].schema == PACKAGE ==> i == p)
    && (forall i :: 0 <= i < |olm| && olm[i].schema == CHANNEL ==> p < i)
    && olm[c].schema == CHANNEL && olm[c].name == olm[p].defaultChannel
    && (forall i :: 0 <= i < |olm| && olm[i].schema == CHANNEL && olm[i].name == olm[p].defaultChannel ==> i == c)
  }

  lemma OnlyDefault(olm: seq<Object>, p: int, c: int, j: int)
    requires OnePackage(olm, p, c)
    ensures IsDefault(olm, j) <==> j == c
  {
    LastPackageCounts(olm, p, c);
    if IsDefault(olm, j) {
      LastPackageCounts(olm, p, j);
    }
  }

  /** In a catalog with one package and its bundles last, a bundle is taken exactly if it is the head. */
  lemma HeadTakenMeans(read: Reader, olm: seq<Object>, p: int, c: int, head: string, i: int)
    requires OnePackage(olm, p, c) && BundlesLast(olm)
    requires forall x :: IsMaxName(read, olm[c].entries, x) <==> x == head
    ensures HeadTakenAt(read, olm, i) <==> 0 <= i < |olm| && olm[i].schema == BUNDLE && olm[i].name == head
  {
    if 0 <= i < |olm| && olm[i].schema == BUNDLE {
      if olm[i].name == head {
        OnlyDefault(olm, p, c, c);
        assert c < i;
        assert HeadBefore(read, olm, i, head);
      }
      if j :| 0 <= j < i && IsDefault(olm, j) && IsMaxName(read, olm[j].entries, olm[i].name) {
        OnlyDefault(olm, p, c, j);
      }
    }
  }

  /** There the result is the last bundle with the name of the default channel's greatest entry, and no other. */
  lemma DefaultChannelHead(read: Reader, olm: seq<Object>, p: int, c: int, head: string, images: Images)
    requires OnePackage(olm, p, c) && BundlesLast(olm) && IsSelection(olm, HeadTaken(read, olm), |olm|, images)
    requires IsMaxName(read, olm[c].entries, head)
    ensures images == if head in BundleNames(olm) then map[head := LastImages(olm, head)] else map[]
  {
    MaxNameUnique(read, olm[c].entries, head);
    var taken := HeadTaken(read, olm);
    forall i ensures taken(i) <==> 0 <= i < |olm| && olm[i].schema == BUNDLE && olm[i].name == head {
      HeadTakenMeans(read, olm, p, c, head, i);
    }
    SelectionOfOneName(olm, taken, head, images);
  }

  lemma SelectionOfOneName(olm: seq<Object>, taken: int -> bool, head: string, images: Images)
    requires IsSelection(olm, taken, |olm|, images)
    requires forall i :: taken(i) <==> 0 <= i < |olm| && olm[i].schema == BUNDLE && olm[i].name == head
    ensures images == if head in BundleNames(olm) then map[head := LastImages(olm, head)] else map[]
  {
    forall x | x in images ensures x == head && head in BundleNames(olm) && images[x] == LastImages(olm, x) {
      var i :| LastTaken(olm, taken, |olm|, x, i) && images[x] == olm[i].relatedImages;
      assert olm[i].name in BundleNames(olm);
      LastImagesAt(olm, x, i);
    }
    if head in BundleNames(olm) {
      var i :| 0 <= i < |olm| && olm[i].schema == BUNDLE && olm[i].name == head;
      assert taken(i);
    }
  }
}
