/** `calculateDiff`: what the previous configuration listed and the current one no longer does. */
module Diff {
  import opened Outcome
  import opened Choice
  import opened Text

  /** A named element of a configuration; `content` stands for its other fields, which DeepEqual compares too. */
  datatype Item = Item(name: string, content: string)

  datatype Operator = Operator(catalog: string, packages: seq<Item>, content: string)

  datatype Config = Config(channels: seq<Item>, operators: seq<Operator>, additionalImages: seq<Item>)

  datatype From = Previous | Current | Both

  datatype DiffSchema = DiffSchema(from: From, found: bool)

  type DiffMap = map<string, DiffSchema>

  function Names(items: seq<Item>): set<string>
  {
    set i | 0 <= i < |items| :: items[i].name
  }

  const PREVIOUS := DiffSchema(Previous, false)
  const CURRENT := DiffSchema(Current, false)
  const BOTH := DiffSchema(Both, true)

  /** The mark of `x`, if it has one. */
  function Mark(images: DiffMap, x: string): Option<DiffSchema>
  {
    if x in images then Some(images[x]) else None
  }

  /** A mark for what comes from the previous configuration only. */
  predicate Stale(mark: Option<DiffSchema>)
  {
    mark.Some? && mark.value.from == Previous && !mark.value.found
  }

  // ---------------------------------------------------------------- lists of items

  function LastNamed(items: seq<Item>, x: string): (r: Option<Item>)
    ensures r.Some? <==> x in Names(items)
    ensures r.Some? ==> r.value in items && r.value.name == x
  {
    if items == [] then None
    else
      var n := |items| - 1;
      NamesLast(items);
      if items[n].name == x then Some(items[n]) else LastNamed(items[..n], x)
  }

  lemma NamesLast(items: seq<Item>)
    requires items != []
    ensures Names(items) == Names(items[..|items| - 1]) + {items[|items| - 1].name}
  {
  }

  /**
   * The mark of `x` after comparing two lists, if it `was` marked before. A name listed now is found in both
   * only if its last item is the last previous one: the loop over earlier ones is overwritten.
   */
  function ItemsMark(prev: seq<Item>, cur: seq<Item>, was: Option<DiffSchema>, x: string): Option<DiffSchema>
  {
    if prev == [] then was
    else if x in Names(cur) then Some(if LastNamed(cur, x) == Some(prev[|prev| - 1]) then BOTH else CURRENT)
    else if x in Names(prev) then Some(PREVIOUS)
    else was
  }

  lemma NamesNext(items: seq<Item>, i: int)
    requires 0 <= i < |items|
    ensures Names(items[..i + 1]) == Names(items[..i]) + {items[i].name}
  {
  }

  /** The two nested loops that compare channels, packages or additional images. */
  method CompareItems(prev: seq<Item>, cur: seq<Item>, before: DiffMap) returns (images: DiffMap)
    ensures forall x :: Mark(images, x) == ItemsMark(prev, cur, Mark(before, x), x)
  {
    images := before;
    for i := 0 to |prev|
      invariant forall x :: Mark(images, x) == ItemsMark(prev[..i], cur, Mark(before, x), x)
    {
      NamesNext(prev, i);
      assert Names([prev[i]]) == {prev[i].name} by {
        NamesLast([prev[i]]);
      }
      images := CompareItem(prev[i], cur, images);
    }
    assert prev[..|prev|] == prev;
  }

  method CompareItem(pr: Item, cur: seq<Item>, before: DiffMap) returns (images: DiffMap)
    ensures forall x :: Mark(images, x) == ItemsMark([pr], cur, Mark(before, x), x)
  {
    images := before[pr.name := PREVIOUS];
    assert [pr][0].name in Names([pr]);
    for j := 0 to |cur|
      invariant forall x :: Mark(images, x) == ItemsMark([pr], cur[..j], Mark(before, x), x)
    {
      NamesNext(cur, j);
      assert cur[..j + 1][..j] == cur[..j];
      images := images[cur[j].name := CURRENT];
      if cur[j] == pr {
        images := images[pr.name := BOTH];
      }
    }
    assert cur[..|cur|] == cur;
  }

  // ---------------------------------------------------------------- catalogs and their packages

  /** The mark of `x` after one pair of catalogs. */
  function PairMark(prOp: Operator, op: Operator, was: Option<DiffSchema>, x: string): Option<DiffSchema>
  {
    if op == prOp && x == prOp.catalog then Some(BOTH)
    else ItemsMark(prOp.packages, op.packages, if x == op.catalog then Some(CURRENT) else was, x)
  }

  /** After one previous catalog and the first `n` current ones. */
  function CatalogMark(prOp: Operator, cur: seq<Operator>, n: nat, was: Option<DiffSchema>,
                       x: string): Option<DiffSchema>
    requires n <= |cur|
  {
    if n == 0 then if x == prOp.catalog then Some(PREVIOUS) else was
    else PairMark(prOp, cur[n - 1], CatalogMark(prOp, cur, n - 1, was, x), x)
  }

  /** After the first `n` previous catalogs. */
  function CatalogsMark(prev: seq<Operator>, n: nat, cur: seq<Operator>, was: Option<DiffSchema>,
                        x: string): Option<DiffSchema>
    requires n <= |prev|
  {
    if n == 0 then was else CatalogMark(prev[n - 1], cur, |cur|, CatalogsMark(prev, n - 1, cur, was, x), x)
  }

  method CompareCatalogs(prev: seq<Operator>, cur: seq<Operator>, before: DiffMap) returns (images: DiffMap)
    ensures forall x :: Mark(images, x) == CatalogsMark(prev, |prev|, cur, Mark(before, x), x)
  {
    images := before;
    for i := 0 to |prev|
      invariant forall x :: Mark(images, x) == CatalogsMark(prev, i, cur, Mark(before, x), x)
    {
      images := CompareCatalog(prev[i], cur, images);
    }
  }

  method CompareCatalog(prOp: Operator, cur: seq<Operator>, before: DiffMap) returns (images: DiffMap)
    ensures forall x :: Mark(images, x) == CatalogMark(prOp, cur, |cur|, Mark(before, x), x)
  {
    images := before[prOp.catalog := PREVIOUS];
    for j := 0 to |cur|
      invariant forall x :: Mark(images, x) == CatalogMark(prOp, cur, j, Mark(before, x), x)
    {
      var op := cur[j];
      ghost var start := images;
      images := images[op.catalog := CURRENT];
      assert forall x :: Mark(images, x) == if x == op.catalog then Some(CURRENT) else Mark(start, x);
      images := CompareItems(prOp.packages, op.packages, images);
      if op == prOp {
        images := images[prOp.catalog := BOTH];
      }
      forall x ensures Mark(images, x) == CatalogMark(prOp, cur, j + 1, Mark(before, x), x) {
        assert Mark(images, x) == PairMark(prOp, op, Mark(start, x), x);
      }
    }
  }

  /** The mark of `x` at the end. */
  function DiffMark(prev: Config, cur: Config, x: string): Option<DiffSchema>
  {
    var afterChannels := ItemsMark(prev.channels, cur.channels, None, x);
    var afterCatalogs := CatalogsMark(prev.operators, |prev.operators|, cur.operators, afterChannels, x);
    ItemsMark(prev.additionalImages, cur.additionalImages, afterCatalogs, x)
  }

  /** `calculateDiff`. */
  method CalculateDiff(prev: Config, cur: Config) returns (images: DiffMap)
    ensures forall x :: Mark(images, x) == DiffMark(prev, cur, x)
  {
    images := map[];
    images := CompareItems(prev.channels, cur.channels, images);
    images := CompareCatalogs(prev.operators, cur.operators, images);
    images := CompareItems(prev.additionalImages, cur.additionalImages, images);
  }

  // ---------------------------------------------------------------- deletion

  /** Where a stale image is deleted; names with fewer than three parts are refused. */
  function DeletionTarget(destination: string, image: string): Result<string>
  {
    var parts := Split(image, '/');
    if |parts| < 3 then Err(InvalidImageReference)
    else Ok(destination + parts[1] + "/" + Split(parts[2], '@')[0])
  }

  /** An image reference: registry host, namespace and component, and what follows a digest mark or another slash. */
  datatype Reference = Reference(host: string, namespace: string, component: string, rest: string)
  {
    predicate Plain()
    {
      && '/' !in host && '/' !in namespace && '/' !in component && '@' !in component
      && (rest != "" ==> rest[0] == '@' || rest[0] == '/')
    }

    function Text(): string
    {
      host + "/" + namespace + "/" + component + rest
    }
  }

  lemma ReferenceText(ref: Reference)
    ensures ref.Text() == ref.host + ['/'] + (ref.namespace + ['/'] + (ref.component + ref.rest))
  {
  }

  lemma ComponentPart(component: string, rest: string)
    requires '/' !in component && '@' !in component && (rest != "" ==> rest[0] == '@' || rest[0] == '/')
    ensures Split(Split(component + rest, '/')[0], '@')[0] == component
  {
    SplitHead(component, rest, '/');
    SplitFirst(component, Split(rest, '/')[0], '@');
  }

  /** An image is deleted from the destination under its namespace and component, without host, digest and the rest. */
  lemma TargetOfReference(destination: string, ref: Reference)
    requires ref.Plain()
    ensures DeletionTarget(destination, ref.Text()) == Ok(destination + ref.namespace + "/" + ref.component)
  {
    ReferenceText(ref);
    var end := ref.component + ref.rest;
    SplitConcat(ref.host, '/', ref.namespace + ['/'] + end);
    SplitConcat(ref.namespace, '/', end);
    ComponentPart(ref.component, ref.rest);
  }

  /** Names with three parts are the texts of such references. */
  lemma ReferenceOf(image: string) returns (ref: Reference)
    requires |Split(image, '/')| >= 3
    ensures ref.Plain() && ref.Text() == image
  {
    var host, tail := CutAt(image, '/');
    var namespace, end := CutAt(tail, '/');
    var i := EndOfComponent(end);
    ref := Reference(host, namespace, end[..i], end[i..]);
    ReferenceText(ref);
    assert end[..i] + end[i..] == end;
  }

  lemma CutAt(s: string, c: char) returns (a: string, b: string)
    requires |Split(s, c)| >= 2
    ensures c !in a && s == a + [c] + b && Split(s, c) == [a] + Split(b, c)
  {
    var i := IndexOf(s, c);
    a, b := s[..i], s[i + 1..];
    AroundIndex(s, i);
    SplitConcat(a, c, b);
  }

  /** The component ends before the first digest mark or slash. */
  lemma EndOfComponent(end: string) returns (i: nat)
    ensures i <= |end| && '/' !in end[..i] && '@' !in end[..i]
    ensures end[i..] != "" ==> end[i..][0] == '@' || end[i..][0] == '/'
  {
    i := 0;
    while i < |end| && end[i] != '@' && end[i] != '/'
      invariant i <= |end| && '/' !in end[..i] && '@' !in end[..i]
    {
      assert end[..i + 1] == end[..i] + [end[i]];
      i := i + 1;
    }
  }

  /** The names to delete. */
  ghost function StaleNames(imgs: DiffMap): set<string>
  {
    set x | x in imgs && Stale(Some(imgs[x]))
  }

  /** `targets` lists, in the order of `names`, where each of them is deleted. */
  ghost predicate AreTargets(destination: string, names: seq<string>, targets: seq<string>)
  {
    |targets| == |names| && forall i :: 0 <= i < |names| ==> DeletionTarget(destination, names[i]) == Ok(targets[i])
  }

  /** Each of `s`, once. */
  ghost predicate Enumerates(names: seq<string>, s: set<string>)
  {
    Distinct(names) && forall x :: x in names <==> x in s
  }

  ghost predicate DeletesAll(destination: string, s: set<string>, targets: seq<string>)
  {
    exists names :: Enumerates(names, s) && AreTargets(destination, names, targets)
  }

  lemma DeletesOneMore(destination: string, s: set<string>, targets: seq<string>, k: string, target: string)
    requires k !in s && DeletesAll(destination, s, targets) && DeletionTarget(destination, k) == Ok(target)
    ensures DeletesAll(destination, s + {k}, targets + [target])
  {
    var names :| Enumerates(names, s) && AreTargets(destination, names, targets);
    assert Enumerates(names + [k], s + {k});
    assert AreTargets(destination, names + [k], targets + [target]);
  }

  /** `r` lists where all of `names` are deleted; it is an error exactly when one of them has no target. */
  ghost predicate IsDeletion(destination: string, names: set<string>, r: Result<seq<string>>)
  {
    && (r.Ok? <==> forall x <- names :: DeletionTarget(destination, x).Ok?)
    && (r.Ok? ==> DeletesAll(destination, names, r.value))
  }

  /** `batchWorkerConverter` of the diff, for any iteration order of the map. */
  method ImagesToDelete(destination: string, imgs: DiffMap) returns (r: Result<seq<string>>)
    ensures IsDeletion(destination, StaleNames(imgs), r)
  {
    var result: seq<string> := [];
    var todo := imgs.Keys;
    assert Enumerates([], StaleNames(imgs) - todo) && AreTargets(destination, [], []);
    while todo != {}
      invariant todo <= imgs.Keys
      invariant forall x <- StaleNames(imgs) - todo :: DeletionTarget(destination, x).Ok?
      invariant DeletesAll(destination, StaleNames(imgs) - todo, result)
      decreases todo
    {
      var k := AnyOf(todo);
      ghost var done := StaleNames(imgs) - todo;
      todo := todo - {k};
      if !imgs[k].found && imgs[k].from == Previous {
        var target := DeletionTarget(destination, k);
        if target.Err? {
          assert k in StaleNames(imgs);
          return Err(target.reason);
        }
        DeletesOneMore(destination, done, result, k, target.value);
        result := result + [target.value];
        assert StaleNames(imgs) - todo == done + {k};
      } else {
        assert StaleNames(imgs) - todo == done;
      }
    }
    assert StaleNames(imgs) - todo == StaleNames(imgs);
    r := Ok(result);
  }

  /** What `DeleteImages` is about to delete. */
  method StaleTargets(prev: Config, cur: Config, destination: string) returns (r: Result<seq<string>>, imgs: DiffMap)
    ensures forall x :: Mark(imgs, x) == DiffMark(prev, cur, x)
    ensures IsDeletion(destination, StaleNames(imgs), r)
  {
    imgs := CalculateDiff(prev, cur);
    r := ImagesToDelete(destination, imgs);
  }
}
