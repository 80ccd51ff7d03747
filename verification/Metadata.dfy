/** The sequence of runs kept in the metadata file, and which configuration is the previous one. */
module Metadata {
  import opened Outcome
  import opened Text

  datatype Item = Item(value: nat, timestamp: int, imagesetconfig: string, current: bool, destination: string)

  /** What one run contributes: its directory, its destination and the time. */
  datatype Run = Run(dir: string, dest: string, now: int)

  function Cleared(items: seq<Item>): (r: seq<Item>)
    ensures |r| == |items| && forall i :: 0 <= i < |items| ==> r[i] == items[i].(current := false)
  {
    seq(|items|, i requires 0 <= i < |items| => items[i].(current := false))
  }

  function ConfigPath(dir: string, n: nat): string
  {
    dir + "/.imagesetconfig" + "-" + (Itoa(n) + ".yaml")
  }

  function NewItem(run: Run, n: nat): Item
  {
    Item(n, run.now, ConfigPath(run.dir, n), true, run.dest)
  }

  /** `WriteMetadata` up to the file: flags are cleared in the caller's slice, the longer list is written. */
  method WriteMetadata(items: array<Item>, run: Run) returns (written: seq<Item>)
    modifies items
    ensures items[..] == Cleared(old(items[..]))
    ensures written == Cleared(old(items[..])) + [NewItem(run, items.Length)]
  {
    for i := 0 to items.Length
      invariant forall k :: 0 <= k < i ==> items[k] == old(items[k]).(current := false)
      invariant forall k :: i <= k < items.Length ==> items[k] == old(items[k])
    {
      items[i] := items[i].(current := false);
    }
    assert items[..] == Cleared(old(items[..]));
    var newItem := Item(items.Length, run.now, ConfigPath(run.dir, items.Length), true, run.dest);
    written := items[..] + [newItem];
  }

  /** The destination and configuration of the last current item. */
  function PreviousISC(items: seq<Item>): Result<(string, string)>
  {
    if items == [] then Err(NoCurrentConfig)
    else
      var last := items[|items| - 1];
      if !last.current then PreviousISC(items[..|items| - 1])
      else if last.imagesetconfig == "" then Err(NoCurrentConfig)
      else Ok((last.destination, last.imagesetconfig))
  }

  /** `getPreviousISC`: the loop keeps the last current item it meets. */
  method GetPreviousISC(items: seq<Item>) returns (r: Result<(string, string)>)
    ensures r == PreviousISC(items)
  {
    var isc, dest := "", "";
    for i := 0 to |items|
      invariant PreviousISC(items[..i]) == if isc == "" then Err(NoCurrentConfig) else Ok((dest, isc))
    {
      assert items[..i + 1][..i] == items[..i];
      if items[i].current {
        isc, dest := items[i].imagesetconfig, items[i].destination;
      }
    }
    assert items[..|items|] == items;
    r := if |isc| == 0 then Err(NoCurrentConfig) else Ok((dest, isc));
  }

  /** The file's items after some runs, each reading what the one before wrote. */
  ghost function After(runs: seq<Run>): (items: seq<Item>)
    ensures |items| == |runs|
  {
    if runs == [] then []
    else
      var n := |runs| - 1;
      Cleared(After(runs[..n])) + [NewItem(runs[n], n)]
  }

  /** Runs one after the other: each reads the items the one before wrote, and so the previous configuration. */
  method Replay(runs: seq<Run>) returns (written: seq<Item>, previous: seq<Result<(string, string)>>)
    ensures written == After(runs)
    ensures |previous| == |runs| && forall k :: 0 <= k < |runs| ==> previous[k] == PreviousISC(After(runs[..k]))
  {
    written, previous := [], [];
    for k := 0 to |runs|
      invariant written == After(runs[..k])
      invariant |previous| == k && forall j :: 0 <= j < k ==> previous[j] == PreviousISC(After(runs[..j]))
    {
      var isc := GetPreviousISC(written);
      previous := previous + [isc];
      var items := new Item[|written|](i requires 0 <= i < |written| => written[i]);
      assert items[..] == written;
      AfterNext(runs, k);
      written := WriteMetadata(items, runs[k]);
    }
    assert runs[..|runs|] == runs;
  }

  lemma AfterNext(runs: seq<Run>, k: nat)
    requires k < |runs|
    ensures After(runs[..k + 1]) == Cleared(After(runs[..k])) + [NewItem(runs[k], k)]
  {
    assert runs[..k + 1][..k] == runs[..k];
  }

  /** After any number of runs item `i` has value `i` and is current exactly if it is the last. */
  lemma {:induction false} ItemsAfter(runs: seq<Run>, i: nat)
    requires i < |runs|
    ensures After(runs)[i] == Item(i, runs[i].now, ConfigPath(runs[i].dir, i), i == |runs| - 1, runs[i].dest)
  {
    var n := |runs| - 1;
    if i < n {
      ItemsAfter(runs[..n], i);
    }
  }

  /** Configuration paths of different runs differ, whatever their directories. */
  lemma PathsDiffer(runs: seq<Run>, i: nat, j: nat)
    requires i < j < |runs|
    ensures After(runs)[i].imagesetconfig != After(runs)[j].imagesetconfig
  {
    ItemsAfter(runs, i);
    ItemsAfter(runs, j);
    ConfigPathNumber(runs[i].dir, i);
    ConfigPathNumber(runs[j].dir, j);
    ItoaInjective(i, j);
    assert (Itoa(i) + ".yaml")[..|Itoa(i)|] == Itoa(i) && (Itoa(j) + ".yaml")[..|Itoa(j)|] == Itoa(j);
  }

  /** The text after the last dash of a configuration path is its number and extension. */
  lemma ConfigPathNumber(dir: string, n: nat)
    ensures var p := ConfigPath(dir, n); p[LastIndexOf(p, '-') + 1..] == Itoa(n) + ".yaml"
  {
    var a, b := dir + "/.imagesetconfig", Itoa(n) + ".yaml";
    assert '-' !in Itoa(n);
    LastIndexOfConcat(a, '-', b);
    assert ConfigPath(dir, n) == a + ['-'] + b;
  }

  /** The previous configuration is that of the last run. */
  lemma PreviousIsLastRun(runs: seq<Run>)
    requires runs != []
    ensures var n := |runs| - 1;
            PreviousISC(After(runs)) == Ok((runs[n].dest, runs[n].dir + "/.imagesetconfig" + "-" + (Itoa(n) + ".yaml")))
  {
    ItemsAfter(runs, |runs| - 1);
  }

  /** In any list the last current item counts; without a path it gives no configuration. */
  lemma {:induction false} LastCurrentCounts(items: seq<Item>, k: int)
    requires 0 <= k < |items| && items[k].current && forall j :: k < j < |items| ==> !items[j].current
    ensures PreviousISC(items) == if items[k].imagesetconfig == "" then Err(NoCurrentConfig)
                                  else Ok((items[k].destination, items[k].imagesetconfig))
  {
    if k < |items| - 1 {
      LastCurrentCounts(items[..|items| - 1], k);
    }
  }

  /** Every run but the first compares with the configuration of the run just before it. */
  lemma RunComparesWithLast(runs: seq<Run>, k: nat)
    requires 0 < k <= |runs|
    ensures PreviousISC(After(runs[..k])) == Ok((runs[k - 1].dest, ConfigPath(runs[k - 1].dir, k - 1)))
  {
    PreviousIsLastRun(runs[..k]);
  }

  /** A slice the caller still holds after writing has lost its current item. */
  lemma {:induction false} ClearedHasNoPrevious(items: seq<Item>)
    ensures PreviousISC(Cleared(items)) == Err(NoCurrentConfig)
  {
    if items != [] {
      var n := |items| - 1;
      ClearedHasNoPrevious(items[..n]);
      assert Cleared(items)[..n] == Cleared(items[..n]);
    }
  }
}
