/** Release images between registry and disk: directories on the way out, references on the way back. */
module Collector {
  import opened Text
  import opened Choice
  import opened Sorting

  datatype RelatedImage = RelatedImage(name: string, image: string)

  datatype CopyImage = CopyImage(source: string, destination: string)

  function ImageDir(dir: string, name: string): string
  {
    dir + "/images/" + name
  }

  function DiskCopy(dir: string, img: RelatedImage): CopyImage
  {
    CopyImage("docker://" + img.image, "dir:" + ImageDir(dir, img.name))
  }

  /** A directory and all directories above it. */
  ghost function WithParents(path: string): set<string>
  {
    set i | 0 <= i <= |path| && (i == |path| || path[i] == '/') :: path[..i]
  }

  /** The directories that exist after the first `n` images have been handled. */
  ghost function DirsAfter(dirs: set<string>, dir: string, images: seq<RelatedImage>, n: nat): set<string>
    requires n <= |images|
  {
    if n == 0 then dirs
    else
      var before, path := DirsAfter(dirs, dir, images, n - 1), ImageDir(dir, images[n - 1].name);
      if path in before then before else before + WithParents(path)
  }

  /** The copies for the first `n` images: those whose directory does not exist when their turn comes. */
  ghost function CopiesAfter(dirs: set<string>, dir: string, images: seq<RelatedImage>, n: nat): seq<CopyImage>
    requires n <= |images|
  {
    if n == 0 then []
    else
      CopiesAfter(dirs, dir, images, n - 1) +
      if ImageDir(dir, images[n - 1].name) in DirsAfter(dirs, dir, images, n - 1) then []
      else [DiskCopy(dir, images[n - 1])]
  }

  /** The directories on disk. */
  class Disk {
    var dirs: set<string>

    constructor (dirs: set<string>)
      ensures this.dirs == dirs
    {
      this.dirs := dirs;
    }

    /** `os.MkdirAll`. */
    method MkdirAll(path: string)
      modifies this
      ensures dirs == old(dirs) + WithParents(path)
    {
      dirs := dirs + set i | 0 <= i <= |path| && (i == |path| || path[i] == '/') :: path[..i];
    }

    /** `batcWorkerConverter`. */
    method Convert(dir: string, images: seq<RelatedImage>) returns (result: seq<CopyImage>)
      modifies this
      ensures dirs == DirsAfter(old(dirs), dir, images, |images|)
      ensures result == CopiesAfter(old(dirs), dir, images, |images|)
    {
      result := [];
      for i := 0 to |images|
        invariant dirs == DirsAfter(old(dirs), dir, images, i)
        invariant result == CopiesAfter(old(dirs), dir, images, i)
      {
        var path := ImageDir(dir, images[i].name);
        if path !in dirs {
          MkdirAll(path);
          result := result + [CopyImage("docker://" + images[i].image, "dir:" + path)];
        }
      }
    }
  }

  /** Directories are only added, and those of all images handled exist. */
  lemma {:induction false} DirsExist(dirs: set<string>, dir: string, images: seq<RelatedImage>, n: nat, k: nat)
    requires k <= n <= |images|
    ensures DirsAfter(dirs, dir, images, k) <= DirsAfter(dirs, dir, images, n)
    ensures k < n ==> ImageDir(dir, images[k].name) in DirsAfter(dirs, dir, images, n)
  {
    if k < n {
      DirsExist(dirs, dir, images, n - 1, k);
      var path := ImageDir(dir, images[n - 1].name);
      assert path[..|path|] == path;
      assert path in WithParents(path);
    }
  }

  /** A directory is made with the directory it is in, and that with its own. */
  lemma {:induction false} ParentsAreMade(dirs: set<string>, dir: string, images: seq<RelatedImage>, n: nat, k: nat,
                                          parent: string, rest: string)
    requires k < n <= |images| && ImageDir(dir, images[k].name) !in DirsAfter(dirs, dir, images, k)
    requires dir + "/images/" + images[k].name == parent + "/" + rest
    ensures parent in DirsAfter(dirs, dir, images, n)
  {
    if k < n - 1 {
      ParentsAreMade(dirs, dir, images, n - 1, k, parent, rest);
    } else {
      var path := ImageDir(dir, images[k].name);
      assert path[|parent|] == '/' && path[..|parent|] == parent;
    }
  }

  /** If all directories exist, nothing is copied and nothing is created. */
  lemma {:induction false} NothingToConvert(dirs: set<string>, dir: string, images: seq<RelatedImage>, n: nat)
    requires n <= |images| && forall k :: 0 <= k < |images| ==> ImageDir(dir, images[k].name) in dirs
    ensures CopiesAfter(dirs, dir, images, n) == [] && DirsAfter(dirs, dir, images, n) == dirs
  {
    if n > 0 {
      NothingToConvert(dirs, dir, images, n - 1);
    }
  }

  /** A second call on the directories the first one left returns nothing, for any images. */
  lemma SecondConvertIsEmpty(dirs: set<string>, dir: string, images: seq<RelatedImage>)
    ensures CopiesAfter(DirsAfter(dirs, dir, images, |images|), dir, images, |images|) == []
  {
    var after := DirsAfter(dirs, dir, images, |images|);
    forall k | 0 <= k < |images| ensures ImageDir(dir, images[k].name) in after {
      DirsExist(dirs, dir, images, |images|, k);
    }
    NothingToConvert(after, dir, images, |images|);
  }

  ghost predicate DistinctPlainNames(images: seq<RelatedImage>)
  {
    && (forall i :: 0 <= i < |images| ==> '/' !in images[i].name && images[i].name != "")
    && (forall i, j :: 0 <= i < j < |images| ==> images[i].name != images[j].name)
  }

  /** The last component of a path. */
  function Component(path: string): string
  {
    var parts := Split(path, '/');
    parts[|parts| - 1]
  }

  /** The last component of an image directory is the image's name. */
  lemma LastComponent(dir: string, name: string)
    requires '/' !in name
    ensures Component(ImageDir(dir, name)) == name
  {
    assert ImageDir(dir, name) == dir + "/images" + ['/'] + name;
    SplitLast(dir + "/images", name);
  }

  lemma {:induction false} SplitLast(a: string, name: string)
    requires '/' !in name
    ensures Component(a + ['/'] + name) == name
    decreases |a|
  {
    var i := IndexOf(a, '/');
    if i == -1 {
      ComponentAfter(a, name);
    } else {
      Regroup(a, i, '/', name);
      ComponentAfter(a[..i], a[i + 1..] + ['/'] + name);
      SplitLast(a[i + 1..], name);
    }
  }

  lemma ComponentAfter(head: string, rest: string)
    requires '/' !in head
    ensures Component(head + ['/'] + rest) == Component(rest)
  {
    SplitConcat(head, '/', rest);
    var parts := Split(rest, '/');
    LastOfCons(head, parts);
    ComponentIs(head + ['/'] + rest, [head] + parts);
    ComponentIs(rest, parts);
  }

  lemma ComponentIs(path: string, parts: seq<string>)
    requires Split(path, '/') == parts
    ensures parts != [] && Component(path) == parts[|parts| - 1]
  {
  }

  lemma LastOfCons(x: string, s: seq<string>)
    requires s != []
    ensures ([x] + s)[|[x] + s| - 1] == s[|s| - 1]
  {
  }

  // ---------------------------------------------------------------- out to disk

  /** A directory above an image's directory that is itself an image's directory is the same one. */
  lemma ParentIsSame(dir: string, a: string, b: string, i: nat)
    requires '/' !in b && a != "" && i <= |ImageDir(dir, b)| && ImageDir(dir, b)[..i] == ImageDir(dir, a)
    requires i == |ImageDir(dir, b)| || ImageDir(dir, b)[i] == '/'
    ensures a == b
  {
    var base, p := dir + "/images/", ImageDir(dir, b);
    assert i == |base| + |a| && |p| == |base| + |b|;
    assert forall k :: |base| <= k < |p| ==> p[k] == b[k - |base|];
    assert i == |p|;
    assert p[..i] == p;
    assert a == ImageDir(dir, a)[|base|..] && b == p[|base|..];
  }

  /** Creating one image's directory does not create another's. */
  lemma ParentsAreNoImages(dir: string, a: string, b: string)
    requires '/' !in b && a != "" && a != b
    ensures ImageDir(dir, a) !in WithParents(ImageDir(dir, b))
  {
    var p := ImageDir(dir, b);
    if i: nat :| i <= |p| && (i == |p| || p[i] == '/') && p[..i] == ImageDir(dir, a) {
      ParentIsSame(dir, a, b, i);
    }
  }

  /** Handling other images does not change whether an image's directory exists. */
  lemma {:induction false} NotYetCreated(dirs: set<string>, dir: string, images: seq<RelatedImage>, n: nat, k: nat)
    requires DistinctPlainNames(images) && n <= k < |images|
    ensures ImageDir(dir, images[k].name) in DirsAfter(dirs, dir, images, n) <==> ImageDir(dir, images[k].name) in dirs
  {
    if n > 0 {
      NotYetCreated(dirs, dir, images, n - 1, k);
      ParentsAreNoImages(dir, images[k].name, images[n - 1].name);
    }
  }

  /** The copies of those of the first `n` images that are not on disk, in order. */
  ghost function MissingCopies(dirs: set<string>, dir: string, images: seq<RelatedImage>, n: nat): seq<CopyImage>
    requires n <= |images|
  {
    if n == 0 then []
    else
      MissingCopies(dirs, dir, images, n - 1) +
      if ImageDir(dir, images[n - 1].name) in dirs then [] else [DiskCopy(dir, images[n - 1])]
  }

  /** On any disk exactly the images that are not there yet are copied, in order. */
  lemma {:induction false} CopiesAreMissing(dirs: set<string>, dir: string, images: seq<RelatedImage>, n: nat)
    requires DistinctPlainNames(images) && n <= |images|
    ensures CopiesAfter(dirs, dir, images, n) == MissingCopies(dirs, dir, images, n)
  {
    if n > 0 {
      CopiesAreMissing(dirs, dir, images, n - 1);
      NotYetCreated(dirs, dir, images, n - 1, n - 1);
    }
  }

  /** On a disk without these images every image is copied to its own directory, in order. */
  lemma {:induction false} FreshConvert(dirs: set<string>, dir: string, images: seq<RelatedImage>, n: nat)
    requires DistinctPlainNames(images) && n <= |images|
    requires forall k :: 0 <= k < |images| ==> ImageDir(dir, images[k].name) !in dirs
    ensures |CopiesAfter(dirs, dir, images, n)| == n
    ensures forall k :: 0 <= k < n ==>
              CopiesAfter(dirs, dir, images, n)[k] ==
              CopyImage("docker://" + images[k].image, "dir:" + (dir + "/images/" + images[k].name))
  {
    if n > 0 {
      FreshConvert(dirs, dir, images, n - 1);
      NotYetCreated(dirs, dir, images, n - 1, n - 1);
    }
  }

  // ---------------------------------------------------------------- back to a registry

  /** An image reference without its registry host. */
  function WithoutHost(image: string): string
  {
    Join(Split(image, '/')[1..], '/')
  }

  lemma WithoutHostDropsHost(host: string, rest: string)
    requires '/' !in host
    ensures WithoutHost(host + "/" + rest) == rest
  {
    SplitConcat(host, '/', rest);
    assert host + "/" + rest == host + ['/'] + rest;
    assert ([host] + Split(rest, '/'))[1..] == Split(rest, '/');
    JoinSplit(rest, '/');
  }

  /** The reference of the first image with the name, or the empty string. */
  function ReferenceFor(name: string, imgs: seq<RelatedImage>): string
  {
    if imgs == [] then ""
    else if imgs[0].name == name then WithoutHost(imgs[0].image)
    else ReferenceFor(name, imgs[1..])
  }

  lemma {:induction false} ReferenceAt(imgs: seq<RelatedImage>, k: nat)
    requires k < |imgs| && forall j :: 0 <= j < k ==> imgs[j].name != imgs[k].name
    ensures ReferenceFor(imgs[k].name, imgs) == WithoutHost(imgs[k].image)
  {
    if k > 0 {
      ReferenceAt(imgs[1..], k - 1);
    }
  }

  /** `findRelatedImage`. */
  method FindRelatedImage(name: string, imgs: seq<RelatedImage>) returns (ref: string)
    ensures ref == ReferenceFor(name, imgs)
  {
    for i := 0 to |imgs|
      invariant ReferenceFor(name, imgs) == ReferenceFor(name, imgs[i..])
    {
      if name == imgs[i].name {
        return WithoutHost(imgs[i].image);
      }
    }
    return "";
  }

  /** The copy that sends an image from its directory to the destination under its own reference. */
  ghost function MirrorCopy(dir: string, destination: string, img: RelatedImage): CopyImage
  {
    CopyImage("dir:" + ImageDir(dir, img.name), destination + "/" + WithoutHost(img.image))
  }

  /** The copies for one directory: none if no image has the name of its last component. */
  function CopiesFor(d: string, images: seq<RelatedImage>, destination: string): seq<CopyImage>
  {
    var ref := ReferenceFor(Component(d), images);
    if ref == "" then [] else [CopyImage("dir:" + d, destination + "/" + ref)]
  }

  ghost function Pairing(images: seq<RelatedImage>, destination: string): string -> seq<CopyImage>
  {
    d => CopiesFor(d, images, destination)
  }

  /** What a function gives for each directory, in turn. */
  ghost function ForEach(found: seq<string>, f: string -> seq<CopyImage>): seq<CopyImage>
  {
    if found == [] then [] else ForEach(found[..|found| - 1], f) + f(found[|found| - 1])
  }

  method PairDirectory(d: string, images: seq<RelatedImage>, destination: string) returns (copies: seq<CopyImage>)
    ensures copies == CopiesFor(d, images, destination)
  {
    var component := Split(d, '/');
    var img := FindRelatedImage(component[|component| - 1], images);
    copies := [];
    if |img| > 0 {
      copies := [CopyImage("dir:" + d, destination + "/" + img)];
    }
  }

  /** The walk of `ReleaseImageCollector` over the directories in which it finds a manifest, in any order. */
  method PairWithReferences(found: seq<string>, images: seq<RelatedImage>, destination: string)
    returns (copies: seq<CopyImage>)
    ensures copies == ForEach(found, Pairing(images, destination))
  {
    copies := [];
    ghost var f := Pairing(images, destination);
    for i := 0 to |found|
      invariant copies == ForEach(found[..i], f)
    {
      assert found[..i + 1][..i] == found[..i];
      var more := PairDirectory(found[i], images, destination);
      assert more == f(found[i]);
      copies := copies + more;
    }
    assert found[..|found|] == found;
  }

  // ---------------------------------------------------------------- out and back

  /** The copy that brings an image back; a reference that is only a host has none. */
  ghost function BroughtBack(dir: string, destination: string, img: RelatedImage): seq<CopyImage>
  {
    if WithoutHost(img.image) == "" then [] else [MirrorCopy(dir, destination, img)]
  }

  /** The copies that bring back the first `n` images, in order. */
  ghost function Mirrored(dir: string, destination: string, images: seq<RelatedImage>, n: nat): seq<CopyImage>
    requires n <= |images|
  {
    if n == 0 then []
    else Mirrored(dir, destination, images, n - 1) + BroughtBack(dir, destination, images[n - 1])
  }

  ghost function DirsOf(dir: string, images: seq<RelatedImage>): (r: seq<string>)
    ensures |r| == |images| && forall k :: 0 <= k < |images| ==> r[k] == ImageDir(dir, images[k].name)
  {
    seq(|images|, k requires 0 <= k < |images| => ImageDir(dir, images[k].name))
  }

  /** The directory of an image is paired with the image's own reference. */
  lemma DirGivesMirrorCopy(dir: string, images: seq<RelatedImage>, destination: string, k: int)
    requires DistinctPlainNames(images) && 0 <= k < |images|
    ensures Pairing(images, destination)(ImageDir(dir, images[k].name)) == BroughtBack(dir, destination, images[k])
  {
    LastComponent(dir, images[k].name);
    ReferenceAt(images, k);
  }

  lemma ForEachSnoc(s: seq<string>, n: int, f: string -> seq<CopyImage>)
    requires 0 < n <= |s|
    ensures ForEach(s[..n], f) == ForEach(s[..n - 1], f) + f(s[n - 1])
  {
    assert s[..n][..n - 1] == s[..n - 1];
  }

  lemma {:induction false} DirsGiveMirrored(dir: string, images: seq<RelatedImage>, destination: string, n: nat)
    requires DistinctPlainNames(images) && n <= |images|
    ensures ForEach(DirsOf(dir, images)[..n], Pairing(images, destination)) == Mirrored(dir, destination, images, n)
  {
    if n > 0 {
      DirsGiveMirrored(dir, images, destination, n - 1);
      DirGivesMirrorCopy(dir, images, destination, n - 1);
      ForEachSnoc(DirsOf(dir, images), n, Pairing(images, destination));
    }
  }

  lemma {:induction false} ForEachConcat(a: seq<string>, b: seq<string>, f: string -> seq<CopyImage>)
    ensures ForEach(a + b, f) == ForEach(a, f) + ForEach(b, f)
  {
    if b == [] {
      assert a + b == a;
    } else {
      var n := |b| - 1;
      ForEachConcat(a, b[..n], f);
      assert (a + b)[..|a + b| - 1] == a + b[..n];
    }
  }

  lemma ForEachOne(d: string, f: string -> seq<CopyImage>)
    ensures ForEach([d], f) == f(d)
  {
    assert [d][..0] == [];
  }

  ghost function Removed(s: seq<string>, i: int): seq<string>
    requires 0 <= i < |s|
  {
    s[..i] + s[i + 1..]
  }

  lemma RemovedCount(s: seq<string>, i: int)
    requires 0 <= i < |s|
    ensures multiset(Removed(s, i)) == multiset(s) - multiset{s[i]} && |Removed(s, i)| == |s| - 1
  {
    AroundIndex(s, i);
  }

  lemma ForEachRemoved(s: seq<string>, i: int, f: string -> seq<CopyImage>)
    requires 0 <= i < |s|
    ensures multiset(ForEach(s, f)) == multiset(ForEach(Removed(s, i), f)) + multiset(f(s[i]))
  {
    AroundIndex(s, i);
    ForEachMiddle(s[..i], s[i], s[i + 1..], f);
  }

  lemma ForEachMiddle(a: seq<string>, d: string, b: seq<string>, f: string -> seq<CopyImage>)
    ensures multiset(ForEach(a + [d] + b, f)) == multiset(ForEach(a + b, f)) + multiset(f(d))
  {
    ForEachConcat(a + [d], b, f);
    ForEachConcat(a, [d], f);
    ForEachOne(d, f);
    ForEachConcat(a, b, f);
    MiddleCount(ForEach(a, f), f(d), ForEach(b, f));
  }

  lemma MiddleCount<T>(x: seq<T>, y: seq<T>, z: seq<T>)
    ensures multiset(x + y + z) == multiset(x + z) + multiset(y)
  {
  }

  /** The order in which directories are found does not matter. */
  lemma {:induction false} ForEachPermuted(s: seq<string>, t: seq<string>, f: string -> seq<CopyImage>)
    requires multiset(s) == multiset(t)
    ensures multiset(ForEach(s, f)) == multiset(ForEach(t, f))
    decreases |s|
  {
    SameElements(s, t);
    if s != [] {
      assert s[0] in t;
      var i :| 0 <= i < |t| && t[i] == s[0];
      RemovedCount(s, 0);
      RemovedCount(t, i);
      ForEachPermuted(Removed(s, 0), Removed(t, i), f);
      ForEachRemoved(s, 0, f);
      ForEachRemoved(t, i, f);
    }
  }

  lemma {:induction false} DistinctCount<T>(s: seq<T>, x: T)
    requires Distinct(s)
    ensures multiset(s)[x] == if x in s then 1 else 0
  {
    if s != [] {
      var n := |s| - 1;
      DistinctCount(s[..n], x);
      assert s == s[..n] + [s[n]];
    }
  }

  lemma DistinctSame<T(!new)>(s: seq<T>, t: seq<T>)
    requires Distinct(s) && Distinct(t) && forall x :: x in s <==> x in t
    ensures multiset(s) == multiset(t)
  {
    forall x ensures multiset(s)[x] == multiset(t)[x] {
      DistinctCount(s, x);
      DistinctCount(t, x);
    }
  }

  ghost predicate IsImageName(images: seq<RelatedImage>, name: string)
  {
    exists k :: 0 <= k < |images| && images[k].name == name
  }

  /** `found` lists directories once each, with those of all images and no other directory named like an image. */
  ghost predicate FindsImages(dir: string, images: seq<RelatedImage>, found: seq<string>)
  {
    && Distinct(found)
    && (forall d <- DirsOf(dir, images) :: d in found)
    && (forall d <- found :: d in DirsOf(dir, images) || !IsImageName(images, Component(d)))
  }

  lemma DirsDistinct(dir: string, images: seq<RelatedImage>)
    requires DistinctPlainNames(images)
    ensures Distinct(DirsOf(dir, images))
  {
    forall i, j | 0 <= i < j < |images| ensures ImageDir(dir, images[i].name) != ImageDir(dir, images[j].name) {
      LastComponent(dir, images[i].name);
      LastComponent(dir, images[j].name);
    }
  }

  ghost function Among(found: seq<string>, all: seq<string>): seq<string>
  {
    if found == [] then []
    else
      var n := |found| - 1;
      Among(found[..n], all) + if found[n] in all then [found[n]] else []
  }

  lemma {:induction false} AmongMembers(found: seq<string>, all: seq<string>)
    ensures forall d :: d in Among(found, all) <==> d in found && d in all
    ensures Distinct(found) ==> Distinct(Among(found, all))
  {
    if found != [] {
      var n := |found| - 1;
      AmongMembers(found[..n], all);
      assert found == found[..n] + [found[n]];
    }
  }

  /** Directories that give no copies may be left out. */
  lemma {:induction false} ForEachAmong(found: seq<string>, all: seq<string>, f: string -> seq<CopyImage>)
    requires forall d <- found :: d in all || f(d) == []
    ensures ForEach(found, f) == ForEach(Among(found, all), f)
  {
    if found != [] {
      var n := |found| - 1;
      ForEachAmong(found[..n], all, f);
      if found[n] in all {
        ForEachConcat(Among(found[..n], all), [found[n]], f);
        ForEachOne(found[n], f);
      } else {
        assert found[n] in found;
        assert Among(found, all) == Among(found[..n], all);
      }
    }
  }

  lemma {:induction false} NoReference(name: string, images: seq<RelatedImage>)
    requires !IsImageName(images, name)
    ensures ReferenceFor(name, images) == ""
  {
    if images != [] {
      assert images[0].name != name;
      forall k | 0 <= k < |images[1..]| ensures images[1..][k].name != name {
        assert images[k + 1].name != name;
      }
      NoReference(name, images[1..]);
    }
  }

  lemma OtherDirsGiveNothing(images: seq<RelatedImage>, destination: string, d: string)
    requires !IsImageName(images, Component(d))
    ensures Pairing(images, destination)(d) == []
  {
    NoReference(Component(d), images);
  }

  /** Of what is found the images' directories alone count, each once. */
  lemma FoundAreDirs(dir: string, images: seq<RelatedImage>, found: seq<string>)
    requires DistinctPlainNames(images) && FindsImages(dir, images, found)
    ensures multiset(Among(found, DirsOf(dir, images))) == multiset(DirsOf(dir, images))
  {
    AmongMembers(found, DirsOf(dir, images));
    DirsDistinct(dir, images);
    DistinctSame(Among(found, DirsOf(dir, images)), DirsOf(dir, images));
  }

  /**
   * Out and back on any disk: after a conversion all images' directories exist, whether copied now or before, and
   * however they are found among others, each image is sent to the destination under its reference without host, once.
   */
  lemma DiskRoundTrip(dirs: set<string>, dir: string, images: seq<RelatedImage>, destination: string,
                      found: seq<string>)
    requires DistinctPlainNames(images) && FindsImages(dir, images, found)
    ensures forall d <- DirsOf(dir, images) :: d in DirsAfter(dirs, dir, images, |images|)
    ensures multiset(ForEach(found, Pairing(images, destination))) ==
            multiset(Mirrored(dir, destination, images, |images|))
  {
    forall k | 0 <= k < |images| ensures DirsOf(dir, images)[k] in DirsAfter(dirs, dir, images, |images|) {
      DirsExist(dirs, dir, images, |images|, k);
    }
    BackFromAnywhere(dir, images, destination, found);
  }

  lemma BackFromAnywhere(dir: string, images: seq<RelatedImage>, destination: string, found: seq<string>)
    requires DistinctPlainNames(images) && FindsImages(dir, images, found)
    ensures multiset(ForEach(found, Pairing(images, destination))) ==
            multiset(Mirrored(dir, destination, images, |images|))
  {
    var all, f := DirsOf(dir, images), Pairing(images, destination);
    forall d | d in found ensures d in all || f(d) == [] {
      if d !in all {
        OtherDirsGiveNothing(images, destination, d);
      }
    }
    ForEachAmong(found, all, f);
    FoundAreDirs(dir, images, found);
    ForEachPermuted(Among(found, all), all, f);
    DirsGiveMirrored(dir, images, destination, |images|);
    assert all[..|images|] == all;
  }

  /** Images whose reference is more than a host are all brought back. */
  lemma {:induction false} MirroredInFull(dir: string, destination: string, images: seq<RelatedImage>, n: nat)
    requires n <= |images| && forall k :: 0 <= k < |images| ==> WithoutHost(images[k].image) != ""
    ensures |Mirrored(dir, destination, images, n)| == n
    ensures forall k :: 0 <= k < n ==>
            Mirrored(dir, destination, images, n)[k] == MirrorCopy(dir, destination, images[k])
  {
    if n > 0 {
      MirroredInFull(dir, destination, images, n - 1);
    }
  }

  /** The copy back starts where the copy out ended, and its destination has the reference without the host. */
  lemma CopyBackDropsHost(dir: string, destination: string, img: RelatedImage, host: string, rest: string)
    requires '/' !in host && img.image == host + "/" + rest
    ensures MirrorCopy(dir, destination, img) ==
            CopyImage("dir:" + (dir + "/images/" + img.name), destination + "/" + rest)
    ensures MirrorCopy(dir, destination, img).source == DiskCopy(dir, img).destination
  {
    WithoutHostDropsHost(host, rest);
  }
}
