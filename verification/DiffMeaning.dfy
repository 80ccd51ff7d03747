/** When the diff marks exactly what was dropped from the configuration. */
module DiffMeaning {
  import opened Choice
  import opened Outcome
  import opened Text
  import opened Diff

  ghost function Catalogs(ops: seq<Operator>): set<string>
  {
    set i | 0 <= i < |ops| :: ops[i].catalog
  }

  ghost predicate IsPackage(ops: seq<Operator>, x: string)
  {
    exists i :: 0 <= i < |ops| && x in Names(ops[i].packages)
  }

  /** The packages of the last of the first `n` catalogs that has any. */
  ghost function LastPackages(ops: seq<Operator>, n: nat): set<string>
    requires n <= |ops|
  {
    if n == 0 then {}
    else if ops[n - 1].packages != [] then Names(ops[n - 1].packages)
    else LastPackages(ops, n - 1)
  }

  ghost predicate IsPackageIn(ops: seq<Operator>, n: nat, x: string)
    requires n <= |ops|
  {
    exists i :: 0 <= i < n && x in Names(ops[i].packages)
  }

  // ---------------------------------------------------------------- packages

  /** One previous catalog against the first `n` current ones, for a name that is no catalog. */
  lemma {:induction false} PackageAfterCatalog(prOp: Operator, cur: seq<Operator>, n: nat, was: Option<DiffSchema>,
                                               x: string)
    requires n <= |cur| && x != prOp.catalog && x !in Catalogs(cur)
    ensures Stale(CatalogMark(prOp, cur, n, was, x)) <==>
            if prOp.packages == [] || n == 0 then Stale(was)
            else if x in Names(prOp.packages) then x !in Names(cur[n - 1].packages)
            else Stale(was) && !IsPackageIn(cur, n, x)
  {
    if n > 0 {
      PackageAfterCatalog(prOp, cur, n - 1, was, x);
      assert cur[n - 1].catalog in Catalogs(cur);
      assert IsPackageIn(cur, n, x) <==> IsPackageIn(cur, n - 1, x) || x in Names(cur[n - 1].packages) by {
        if i :| 0 <= i < n - 1 && x in Names(cur[i].packages) {
        }
      }
    }
  }

  /**
   * A package name ends up marked previous if the current catalogs do not list it and a previous one does; or,
   * wrongly, if they do list it but the last of them does not and the last previous catalog with packages does.
   */
  lemma {:induction false} PackageLeft(prev: seq<Operator>, n: nat, cur: seq<Operator>, x: string)
    requires n <= |prev| && x !in Catalogs(prev) && x !in Catalogs(cur)
    ensures Stale(CatalogsMark(prev, n, cur, None, x)) <==>
            && cur != []
            && if IsPackage(cur, x) then x !in Names(cur[|cur| - 1].packages) && x in LastPackages(prev, n)
               else IsPackageIn(prev, n, x)
  {
    if n > 0 {
      PackageLeft(prev, n - 1, cur, x);
      var prOp := prev[n - 1];
      assert prOp.catalog in Catalogs(prev);
      PackageAfterCatalog(prOp, cur, |cur|, CatalogsMark(prev, n - 1, cur, None, x), x);
      assert IsPackage(cur, x) <==> IsPackageIn(cur, |cur|, x);
      IsPackageInNext(prev, n, x);
    }
  }

  lemma IsPackageInNext(ops: seq<Operator>, n: nat, x: string)
    requires 1 <= n <= |ops|
    ensures IsPackageIn(ops, n, x) <==> IsPackageIn(ops, n - 1, x) || x in Names(ops[n - 1].packages)
  {
  }

  // ---------------------------------------------------------------- catalogs

  lemma {:induction false} CatalogAfterCatalog(prOp: Operator, cur: seq<Operator>, n: nat, was: Option<DiffSchema>,
                                               x: string)
    requires n <= |cur| && x !in Names(prOp.packages) && !IsPackage(cur, x)
    ensures Stale(CatalogMark(prOp, cur, n, was, x)) <==> x !in Catalogs(cur[..n]) && (Stale(was) || x == prOp.catalog)
  {
    if n > 0 {
      CatalogAfterCatalog(prOp, cur, n - 1, was, x);
      CatalogsNext(cur, n - 1);
      assert x !in Names(cur[n - 1].packages);
    }
  }

  lemma CatalogsNext(ops: seq<Operator>, i: int)
    requires 0 <= i < |ops|
    ensures forall x :: x in Catalogs(ops[..i + 1]) <==> x in Catalogs(ops[..i]) || x == ops[i].catalog
  {
  }

  /** A catalog name is marked previous exactly when it was listed and is no longer. */
  lemma {:induction false} CatalogNameLeft(prev: seq<Operator>, n: nat, cur: seq<Operator>, x: string)
    requires n <= |prev| && !IsPackage(prev, x) && !IsPackage(cur, x)
    ensures Stale(CatalogsMark(prev, n, cur, None, x)) <==> x in Catalogs(prev[..n]) && x !in Catalogs(cur)
  {
    if n > 0 {
      CatalogNameLeft(prev, n - 1, cur, x);
      assert x !in Names(prev[n - 1].packages);
      CatalogAfterCatalog(prev[n - 1], cur, |cur|, CatalogsMark(prev, n - 1, cur, None, x), x);
      assert cur[..|cur|] == cur;
      CatalogsNext(prev, n - 1);
    }
  }

  lemma {:induction false} OtherAfterCatalog(prOp: Operator, cur: seq<Operator>, n: nat, was: Option<DiffSchema>,
                                             x: string)
    requires n <= |cur| && x != prOp.catalog && x !in Catalogs(cur) && x !in Names(prOp.packages) && !IsPackage(cur, x)
    ensures CatalogMark(prOp, cur, n, was, x) == was
  {
    if n > 0 {
      OtherAfterCatalog(prOp, cur, n - 1, was, x);
      assert cur[n - 1].catalog in Catalogs(cur) && x !in Names(cur[n - 1].packages);
    }
  }

  /** Comparing catalogs does not touch a name that is neither a catalog nor a package. */
  lemma {:induction false} OtherUntouched(prev: seq<Operator>, n: nat, cur: seq<Operator>, was: Option<DiffSchema>,
                                          x: string)
    requires n <= |prev| && x !in Catalogs(prev) && x !in Catalogs(cur) && !IsPackage(prev, x) && !IsPackage(cur, x)
    ensures CatalogsMark(prev, n, cur, was, x) == was
  {
    if n > 0 {
      OtherUntouched(prev, n - 1, cur, was, x);
      assert prev[n - 1].catalog in Catalogs(prev) && x !in Names(prev[n - 1].packages);
      OtherAfterCatalog(prev[n - 1], cur, |cur|, was, x);
    }
  }

  // ---------------------------------------------------------------- the whole diff

  ghost predicate IsChannel(c: Config, x: string) { x in Names(c.channels) }

  ghost predicate IsCatalog(c: Config, x: string) { x in Catalogs(c.operators) }

  ghost predicate IsPackageOf(c: Config, x: string) { IsPackage(c.operators, x) }

  ghost predicate IsAdditional(c: Config, x: string) { x in Names(c.additionalImages) }

  ghost predicate Listed(c: Config, x: string)
  {
    IsChannel(c, x) || IsCatalog(c, x) || IsPackageOf(c, x) || IsAdditional(c, x)
  }

  /** The name is used for at most one kind of element. */
  ghost predicate OneKind(a: Config, b: Config, x: string)
  {
    var channel, catalog := IsChannel(a, x) || IsChannel(b, x), IsCatalog(a, x) || IsCatalog(b, x);
    var package, additional := IsPackageOf(a, x) || IsPackageOf(b, x), IsAdditional(a, x) || IsAdditional(b, x);
    && (channel ==> !catalog && !package && !additional)
    && (catalog ==> !package && !additional)
    && (package ==> !additional)
  }

  ghost predicate DisjointKinds(a: Config, b: Config)
  {
    forall x :: OneKind(a, b, x)
  }

  ghost predicate Dropped(prev: Config, cur: Config, x: string)
  {
    Listed(prev, x) && !Listed(cur, x)
  }

  /** The diff is right about `x`: marked previous exactly if it was listed and is no longer. */
  ghost predicate RightAbout(prev: Config, cur: Config, x: string)
  {
    Stale(DiffMark(prev, cur, x)) <==> Dropped(prev, cur, x)
  }

  lemma NonPackagesAreRight(prev: Config, cur: Config, x: string)
    requires DisjointKinds(prev, cur) && !IsPackageOf(prev, x) && !IsPackageOf(cur, x)
    ensures RightAbout(prev, cur, x)
  {
    var n := |prev.operators|;
    assert OneKind(prev, cur, x);
    if IsCatalog(prev, x) || IsCatalog(cur, x) {
      CatalogNameLeft(prev.operators, n, cur.operators, x);
      assert prev.operators[..n] == prev.operators;
    } else {
      OtherUntouched(prev.operators, n, cur.operators, ItemsMark(prev.channels, cur.channels, None, x), x);
    }
  }

  /** A package is marked previous while a current catalog lists it. */
  ghost predicate WronglyLeft(prev: Config, cur: Config, x: string)
  {
    && IsPackageOf(cur, x)
    && x !in Names(cur.operators[|cur.operators| - 1].packages)
    && x in LastPackages(prev.operators, |prev.operators|)
  }

  lemma PackagesRightUnless(prev: Config, cur: Config, x: string)
    requires DisjointKinds(prev, cur) && (IsPackageOf(prev, x) || IsPackageOf(cur, x))
    ensures RightAbout(prev, cur, x) <==>
            if cur.operators == [] then !IsPackageOf(prev, x) else !WronglyLeft(prev, cur, x)
  {
    var n := |prev.operators|;
    assert OneKind(prev, cur, x);
    PackageLeft(prev.operators, n, cur.operators, x);
    assert IsPackageIn(prev.operators, n, x) <==> IsPackage(prev.operators, x);
  }

  /**
   * What a caller can check beforehand: without current catalogs no previous package may exist, and with
   * several no package outside the last of them may be among the packages of the last previous catalog that
   * has any.
   */
  ghost predicate DiffIsReliable(prev: Config, cur: Config)
  {
    if cur.operators == [] then forall x :: !IsPackageOf(prev, x) else forall x :: !WronglyLeft(prev, cur, x)
  }

  /** The diff is right about every name exactly under this condition. */
  lemma DiffRightExactlyWhen(prev: Config, cur: Config)
    requires DisjointKinds(prev, cur)
    ensures DiffIsReliable(prev, cur) <==> forall x :: RightAbout(prev, cur, x)
  {
    forall x ensures !IsPackageOf(prev, x) && !IsPackageOf(cur, x) ==> RightAbout(prev, cur, x) {
      if !IsPackageOf(prev, x) && !IsPackageOf(cur, x) {
        NonPackagesAreRight(prev, cur, x);
      }
    }
    forall x ensures IsPackageOf(prev, x) || IsPackageOf(cur, x) ==>
                       (RightAbout(prev, cur, x) <==>
                        if cur.operators == [] then !IsPackageOf(prev, x) else !WronglyLeft(prev, cur, x))
    {
      if IsPackageOf(prev, x) || IsPackageOf(cur, x) {
        PackagesRightUnless(prev, cur, x);
      }
    }
  }

  /** With one current catalog the diff is always right. */
  lemma OneCatalogIsReliable(prev: Config, cur: Config)
    requires |cur.operators| == 1
    ensures DiffIsReliable(prev, cur)
  {
    forall x ensures !WronglyLeft(prev, cur, x) {
    }
  }

  /** A second current catalog makes a package look dropped although the first still lists it. */
  lemma SecondCatalogBreaksDiff() returns (prev: Config, cur: Config)
    ensures DisjointKinds(prev, cur) && |cur.operators| == 2
    ensures IsPackageOf(cur, "p") && Stale(DiffMark(prev, cur, "p"))
  {
    var p := Item("p", "");
    var first, second := Operator("a", [p], ""), Operator("b", [], "");
    prev, cur := Config([], [first], []), Config([], [first, second], []);
    assert [p][0].name in Names([p]);
    assert p.name in Names(cur.operators[0].packages);
    assert second.packages == [] && "p" !in Names(cur.operators[1].packages);
    assert LastPackages(prev.operators, 1) == Names([p]);
    assert "p"[0] != "a"[0] && "p"[0] != "b"[0];
    forall x ensures OneKind(prev, cur, x) {
      assert IsPackageOf(prev, x) || IsPackageOf(cur, x) ==> x == "p";
      assert IsCatalog(prev, x) || IsCatalog(cur, x) ==> x == "a" || x == "b";
    }
    PackageLeft(prev.operators, 1, cur.operators, "p");
  }

  /** Without any current catalog a dropped package is not noticed. */
  lemma NoCatalogHidesPackages() returns (prev: Config, cur: Config)
    ensures DisjointKinds(prev, cur) && cur.operators == []
    ensures IsPackageOf(prev, "p") && DiffMark(prev, cur, "p").None?
  {
    var p := Item("p", "");
    prev, cur := Config([], [Operator("a", [p], "")], []), Config([], [], []);
    assert p.name in Names([p]) by {
      assert [p][0].name in Names([p]);
    }
    assert "p"[0] != "a"[0];
    forall x ensures OneKind(prev, cur, x) {
      assert IsPackageOf(prev, x) ==> x == "p";
      assert IsCatalog(prev, x) ==> x == "a";
    }
    assert p.name in Names(prev.operators[0].packages);
    assert CatalogsMark(prev.operators, 0, cur.operators, None, "p") == None;
    assert CatalogMark(prev.operators[0], cur.operators, 0, None, "p") == None;
    assert CatalogsMark(prev.operators, 1, cur.operators, None, "p") == None;
  }

  /** Under the condition exactly the names dropped from the configuration are deleted. */
  lemma DeletesExactlyDropped(prev: Config, cur: Config, images: DiffMap)
    requires DisjointKinds(prev, cur) && DiffIsReliable(prev, cur)
    requires forall x :: Mark(images, x) == DiffMark(prev, cur, x)
    ensures forall x :: x in StaleNames(images) <==> Dropped(prev, cur, x)
  {
    DiffRightExactlyWhen(prev, cur);
    forall x ensures x in StaleNames(images) <==> Dropped(prev, cur, x) {
      assert RightAbout(prev, cur, x);
      assert x in StaleNames(images) <==> Stale(Mark(images, x));
    }
  }

  /** `targets` gives, in the order of `names`, the namespace and component of each behind the destination. */
  ghost predicate AreReferenceTargets(destination: string, names: seq<string>, targets: seq<string>)
  {
    && |targets| == |names|
    && forall i, ref: Reference :: 0 <= i < |names| && ref.Plain() && ref.Text() == names[i] ==>
         targets[i] == destination + ref.namespace + "/" + ref.component
  }

  ghost predicate IsReference(x: string)
  {
    exists ref: Reference :: ref.Plain() && ref.Text() == x
  }

  /** A name has a target exactly if it is a reference. */
  lemma ReferenceHasTarget(destination: string, x: string)
    ensures IsReference(x) <==> DeletionTarget(destination, x).Ok?
  {
    if DeletionTarget(destination, x).Ok? {
      var ref := ReferenceOf(x);
    }
    if ref: Reference :| ref.Plain() && ref.Text() == x {
      TargetOfReference(destination, ref);
    }
  }

  lemma TargetsOfReferences(destination: string, names: seq<string>, targets: seq<string>)
    requires AreTargets(destination, names, targets)
    ensures AreReferenceTargets(destination, names, targets)
  {
    forall i, ref: Reference | 0 <= i < |names| && ref.Plain() && ref.Text() == names[i]
      ensures targets[i] == destination + ref.namespace + "/" + ref.component
    {
      TargetOfReference(destination, ref);
    }
  }

  /**
   * Under the condition the deletion succeeds exactly when every dropped name is a reference with host, namespace and
   * component, and then lists for each dropped name its namespace and component behind the destination.
   */
  lemma DeletionExactlyWhen(prev: Config, cur: Config, images: DiffMap, destination: string, r: Result<seq<string>>)
    requires DisjointKinds(prev, cur) && DiffIsReliable(prev, cur)
    requires forall x :: Mark(images, x) == DiffMark(prev, cur, x)
    requires IsDeletion(destination, StaleNames(images), r)
    ensures r.Ok? <==> forall x :: Dropped(prev, cur, x) ==> IsReference(x)
    ensures r.Ok? ==>
              exists names :: IsListOfDropped(prev, cur, names) && AreReferenceTargets(destination, names, r.value)
  {
    DeletesExactlyDropped(prev, cur, images);
    forall x ensures IsReference(x) <==> DeletionTarget(destination, x).Ok? {
      ReferenceHasTarget(destination, x);
    }
    if r.Ok? {
      var names :| Enumerates(names, StaleNames(images)) && AreTargets(destination, names, r.value);
      assert IsListOfDropped(prev, cur, names);
      TargetsOfReferences(destination, names, r.value);
    }
  }

  /** Each dropped name, once. */
  ghost predicate IsListOfDropped(prev: Config, cur: Config, names: seq<string>)
  {
    Distinct(names) && forall x :: x in names <==> Dropped(prev, cur, x)
  }

  /**
   * A dropped channel makes the deletion fail, whatever the catalogs are, since a name without slashes such as
   * "stable-4.12" has one part.
   */
  lemma DroppedChannelFails(prev: Config, cur: Config, images: DiffMap, destination: string, r: Result<seq<string>>,
                            x: string)
    requires DisjointKinds(prev, cur)
    requires forall x :: Mark(images, x) == DiffMark(prev, cur, x)
    requires IsDeletion(destination, StaleNames(images), r)
    requires '/' !in x && IsChannel(prev, x) && !Listed(cur, x)
    ensures r.Err?
  {
    assert OneKind(prev, cur, x);
    NonPackagesAreRight(prev, cur, x);
    assert Stale(Mark(images, x)) && x in StaleNames(images);
    assert Split(x, '/') == [x];
    assert DeletionTarget(destination, x).Err?;
  }

  // ---------------------------------------------------------------- elements found in both

  /** A name listed now is found in both exactly if its last item is the last previous one, unchanged. */
  lemma {:induction false} LastItemDecides(prev: seq<Item>, cur: seq<Item>, was: Option<DiffSchema>, j: int)
    requires prev != [] && 0 <= j < |cur| && forall k :: j < k < |cur| ==> cur[k].name != cur[j].name
    ensures ItemsMark(prev, cur, was, cur[j].name) == Some(if cur[j] == prev[|prev| - 1] then BOTH else CURRENT)
  {
    LastNamedAt(cur, j);
  }

  lemma {:induction false} LastNamedAt(items: seq<Item>, j: int)
    requires 0 <= j < |items| && forall k :: j < k < |items| ==> items[k].name != items[j].name
    ensures LastNamed(items, items[j].name) == Some(items[j])
  {
    if j < |items| - 1 {
      LastNamedAt(items[..|items| - 1], j);
    }
  }

  lemma {:induction false} CatalogDecidesOnce(prOp: Operator, cur: seq<Operator>, n: nat, was: Option<DiffSchema>,
                                              j: int)
    requires 0 <= j < n <= |cur| && forall k :: j < k < n ==> cur[k].catalog != cur[j].catalog
    requires cur[j].catalog !in Names(prOp.packages) && !IsPackage(cur, cur[j].catalog)
    ensures CatalogMark(prOp, cur, n, was, cur[j].catalog) == Some(if cur[j] == prOp then BOTH else CURRENT)
  {
    assert cur[j].catalog !in Names(cur[n - 1].packages);
    if j < n - 1 {
      CatalogDecidesOnce(prOp, cur, n - 1, was, j);
    }
  }

  /** So is a catalog: found in both exactly if its last entry is the last previous catalog, unchanged. */
  lemma LastCatalogDecides(prev: seq<Operator>, cur: seq<Operator>, was: Option<DiffSchema>, j: int)
    requires prev != [] && 0 <= j < |cur| && forall k :: j < k < |cur| ==> cur[k].catalog != cur[j].catalog
    requires !IsPackage(prev, cur[j].catalog) && !IsPackage(cur, cur[j].catalog)
    ensures CatalogsMark(prev, |prev|, cur, was, cur[j].catalog) ==
            Some(if cur[j] == prev[|prev| - 1] then BOTH else CURRENT)
  {
    var n := |prev| - 1;
    assert cur[j].catalog !in Names(prev[n].packages);
    CatalogDecidesOnce(prev[n], cur, |cur|, CatalogsMark(prev, n, cur, was, cur[j].catalog), j);
  }

  lemma FoundItem(prev: seq<Item>, cur: seq<Item>, was: Option<DiffSchema>, x: string)
    requires ItemsMark(prev, cur, was, x) == Some(BOTH) && was != Some(BOTH)
    ensures x in Names(prev) && x in Names(cur)
  {
  }

  lemma {:induction false} FoundAfterCatalog(prOp: Operator, cur: seq<Operator>, n: nat, was: Option<DiffSchema>,
                                             x: string)
    requires n <= |cur| && CatalogMark(prOp, cur, n, was, x) == Some(BOTH) && was != Some(BOTH)
    ensures (x == prOp.catalog && x in Catalogs(cur)) || (x in Names(prOp.packages) && IsPackage(cur, x))
  {
    var op := cur[n - 1];
    var before := CatalogMark(prOp, cur, n - 1, was, x);
    assert op.catalog in Catalogs(cur);
    if before == Some(BOTH) {
      FoundAfterCatalog(prOp, cur, n - 1, was, x);
    } else if !(op == prOp && x == prOp.catalog) {
      FoundItem(prOp.packages, op.packages, if x == op.catalog then Some(CURRENT) else before, x);
    }
  }

  lemma {:induction false} FoundAfterCatalogs(prev: seq<Operator>, n: nat, cur: seq<Operator>, was: Option<DiffSchema>,
                                              x: string)
    requires n <= |prev| && CatalogsMark(prev, n, cur, was, x) == Some(BOTH) && was != Some(BOTH)
    ensures (x in Catalogs(prev) && x in Catalogs(cur)) || (IsPackage(prev, x) && IsPackage(cur, x))
  {
    var before := CatalogsMark(prev, n - 1, cur, was, x);
    if before == Some(BOTH) {
      FoundAfterCatalogs(prev, n - 1, cur, was, x);
    } else {
      assert prev[n - 1].catalog in Catalogs(prev);
      FoundAfterCatalog(prev[n - 1], cur, |cur|, before, x);
    }
  }

  /** A name marked as found is listed, as the same kind of element, in both configurations. */
  lemma FoundMeansListedInBoth(prev: Config, cur: Config, x: string)
    requires DiffMark(prev, cur, x) == Some(BOTH)
    ensures || (IsChannel(prev, x) && IsChannel(cur, x)) || (IsCatalog(prev, x) && IsCatalog(cur, x))
            || (IsPackageOf(prev, x) && IsPackageOf(cur, x)) || (IsAdditional(prev, x) && IsAdditional(cur, x))
  {
    var afterChannels := ItemsMark(prev.channels, cur.channels, None, x);
    var afterCatalogs := CatalogsMark(prev.operators, |prev.operators|, cur.operators, afterChannels, x);
    if afterCatalogs != Some(BOTH) {
      FoundItem(prev.additionalImages, cur.additionalImages, afterCatalogs, x);
    } else if afterChannels != Some(BOTH) {
      FoundAfterCatalogs(prev.operators, |prev.operators|, cur.operators, afterChannels, x);
    } else {
      FoundItem(prev.channels, cur.channels, None, x);
    }
  }

  /**
   * Of unchanged channels with distinct names only the last one is marked as found; the comparison with the
   * last previous channel overwrites the marks of the others.
   */
  lemma OnlyLastUnchangedIsFound(channels: seq<Item>, k: nat)
    requires k < |channels| && forall i, j :: 0 <= i < j < |channels| ==> channels[i].name != channels[j].name
    ensures ItemsMark(channels, channels, None, channels[k].name) == Some(if k == |channels| - 1 then BOTH else CURRENT)
  {
    var x := channels[k].name;
    assert x in Names(channels);
    var found := LastNamed(channels, x).value;
    var i :| 0 <= i < |channels| && channels[i] == found;
    assert i == k;
  }
}
