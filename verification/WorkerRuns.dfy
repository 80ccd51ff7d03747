/** What holds in every run of the batch worker, whatever the interleaving. */
module WorkerRuns {
  import opened Choice
  import opened Worker

  ghost function InFlight(s: State): set<nat>
  {
    set t: nat | t < |s.copies| && !s.copies[t].Idle? && !s.copies[t].Gone?
  }

  ghost function Interval(lo: nat, hi: nat): (r: set<nat>)
    requires lo <= hi
    ensures |r| == hi - lo
    ensures forall t :: t in r <==> lo <= t < hi
    decreases hi - lo
  {
    if lo == hi then {} else Interval(lo, hi - 1) + {hi - 1}
  }

  /**
   * In every run the counter is never negative, is the number of unfinished and unlaunched copies while a
   * batch is under way, and at most eight copies are in flight.
   */
  lemma CounterIsExact(n: nat, run: seq<State>, i: nat)
    requires IsRun(n, run) && i < |run|
    ensures run[i].wg >= 0
    ensures run[i].launcher.Launching? || run[i].launcher.Waiting? ==>
              run[i].wg == |InFlight(run[i])| + (run[i].Cut().size - run[i].launched)
    ensures |InFlight(run[i])| <= 8
  {
    RunInv(n, run, i);
    var s := run[i];
    UnfinishedIsInFlight(s, s.Base() + s.launched);
    var all := Interval(s.Base(), s.Base() + s.launched);
    SubsetSize(InFlight(s), all);
  }

  ghost function UnfinishedSet(s: State, lo: nat, hi: nat): set<nat>
  {
    set t: nat | lo <= t < hi && t < |s.copies| && !s.copies[t].Gone?
  }

  lemma {:induction false} UnfinishedCounts(s: State, lo: nat, hi: nat)
    requires lo <= hi <= |s.copies|
    ensures Unfinished(s.copies, lo, hi) == |UnfinishedSet(s, lo, hi)|
  {
    if lo == hi {
      assert UnfinishedSet(s, lo, hi) == {};
    } else {
      UnfinishedCounts(s, lo, hi - 1);
      if s.copies[hi - 1].Gone? {
        assert UnfinishedSet(s, lo, hi) == UnfinishedSet(s, lo, hi - 1);
      } else {
        assert UnfinishedSet(s, lo, hi) == UnfinishedSet(s, lo, hi - 1) + {hi - 1};
      }
    }
  }

  lemma UnfinishedIsInFlight(s: State, hi: nat)
    requires Progress(s) && hi == s.Base() + s.launched
    ensures Unfinished(s.copies, s.Base(), hi) == |InFlight(s)|
    ensures forall t <- InFlight(s) :: s.Base() <= t < hi
  {
    UnfinishedCounts(s, s.Base(), hi);
    assert UnfinishedSet(s, s.Base(), hi) == InFlight(s);
  }

  /** No copy starts before every copy of an earlier batch has finished. */
  lemma Barrier(n: nat, run: seq<State>, i: nat, t: nat, u: nat)
    requires IsRun(n, run) && i < |run| && t < n && u < n && t / 8 < u / 8
    ensures |run[i].copies| == n && (!run[i].copies[u].Idle? ==> run[i].copies[t].Gone?)
  {
    RunInv(n, run, i);
    BatchBounds(run[i]);
  }

  /**
   * Past `Wait`, lost updates notwithstanding, the error slice is non-empty exactly when a copy of the batch failed.
   */
  lemma ErrorsAreNoticed(n: nat, run: seq<State>, i: nat)
    requires IsRun(n, run) && i < |run| && run[i].launcher.Checking?
    ensures run[i].errs > 0 <==>
            exists t :: t in run[i].failed && run[i].Base() <= t < run[i].Base() + run[i].Cut().size
  {
    RunInv(n, run, i);
    NoErrorsNoFailures(run[i]);
    var s := run[i];
    FailedInBatch(s);
  }

  lemma FailedInBatch(s: State)
    requires Inv(s)
    ensures forall t <- s.failed :: s.Base() <= t < s.Base() + s.launched
    ensures s.failed != {} ==> exists t :: t in s.failed
  {
    if s.failed != {} {
      HasElement(s.failed);
    }
  }

  /** The numbers below `m`, and no other. */
  ghost predicate AllBelow(runs: seq<nat>, m: nat)
  {
    (forall t <- runs :: t < m) && forall t :: 0 <= t < m ==> t in runs
  }

  /** `Run` was called once for each of the first `m` images, batch by batch, and for no other. */
  ghost predicate RunOnce(runs: seq<nat>, m: nat)
  {
    |runs| == m && Distinct(runs) && BatchByBatch(runs) && AllBelow(runs, m)
  }

  ghost function Elements(runs: seq<nat>): set<nat>
  {
    set t | t in runs
  }

  lemma {:induction false} DistinctSize(runs: seq<nat>)
    requires Distinct(runs)
    ensures |Elements(runs)| == |runs|
  {
    if runs != [] {
      var n := |runs| - 1;
      DistinctSize(runs[..n]);
      assert runs == runs[..n] + [runs[n]];
      assert Elements(runs) == Elements(runs[..n]) + {runs[n]};
    }
  }

  lemma DistinctBelow(runs: seq<nat>, m: nat)
    requires Distinct(runs) && AllBelow(runs, m)
    ensures |runs| == m
  {
    DistinctSize(runs);
    assert Elements(runs) == Interval(0, m);
  }

  /** All failures are in batch `k`, and exactly the images up to its end have been passed to `Run`. */
  ghost predicate StoppedAfter(s: State, k: nat)
  {
    (forall t <- s.failed :: t / 8 == k) && RunOnce(s.runs, Min(|s.copies|, 8 * (k + 1)))
  }

  /** Past `Wait` the images passed to `Run` are those up to the end of the batch. */
  lemma RunsPastWait(s: State)
    requires Inv(s) && Between(s)
    ensures RunOnce(s.runs, s.Base() + s.launched)
  {
    assert AllBelow(s.runs, s.Base() + s.launched);
    DistinctBelow(s.runs, s.Base() + s.launched);
  }

  /**
   * A run that returns success has passed every image to `Run` once, batch by batch and in any order inside a
   * batch, and none failed. A run that returns an error has passed exactly the images up to the end of the first
   * batch with a failure.
   */
  lemma ReturnedRuns(n: nat, run: seq<State>, i: nat)
    requires IsRun(n, run) && i < |run| && run[i].launcher.Returned?
    ensures run[i].launcher.ok <==> run[i].failed == {}
    ensures run[i].launcher.ok ==> RunOnce(run[i].runs, n)
    ensures !run[i].launcher.ok ==> exists k :: StoppedAfter(run[i], k)
  {
    RunInv(n, run, i);
    var s := run[i];
    NoErrorsNoFailures(s);
    RunsPastWait(s);
    if !s.launcher.ok {
      StoppedInBatch(s);
    }
  }

  lemma StoppedInBatch(s: State)
    requires Inv(s) && Between(s)
    ensures StoppedAfter(s, s.Base() / BATCH_SIZE)
  {
    BatchBounds(s);
    FailedInBatch(s);
    RunsPastWait(s);
  }

  // ---------------------------------------------------------------- every run ends

  function Weight(c: Copy): nat
  {
    match c
    case Idle => 6
    case Launched => 5
    case Running => 4
    case Failing => 3
    case Appending(_) => 2
    case Leaving => 1
    case Gone => 0
  }

  function Weights(copies: seq<Copy>): nat
  {
    if copies == [] then 0 else Weights(copies[..|copies| - 1]) + Weight(copies[|copies| - 1])
  }

  lemma {:induction false} WeightsUpdate(copies: seq<Copy>, t: nat, c: Copy)
    requires t < |copies|
    ensures Weights(copies[t := c]) == Weights(copies) + Weight(c) - Weight(copies[t])
  {
    var n := |copies| - 1;
    if t == n {
      assert copies[t := c][..n] == copies[..n];
    } else {
      WeightsUpdate(copies[..n], t, c);
      assert copies[t := c][..n] == copies[..n][t := c];
    }
  }

  /** Bound on the steps a run can still make: what the copies and the launcher have left to do. */
  function Rank(s: State): int
  {
    Weights(s.copies)
    + 4 * (|s.copies| / BATCH_SIZE + 1 - s.Base() / BATCH_SIZE)
    + match s.launcher
      case Launching => 3
      case Waiting => 2
      case Checking => 1
      case Returned(_) => 0
  }

  lemma RankDecreases(s: State, step: Step)
    requires Progress(s) && Enabled(s, step)
    ensures Rank(Apply(s, step)) < Rank(s)
  {
    if IsCopyStep(step) || step.Launch? {
      CopyRankDecreases(s, step);
    } else if step.NextBatch? || step.Recurse? {
      BatchRankDecreases(s, step);
    } else {
      assert Apply(s, step).copies == s.copies && Apply(s, step).Base() == s.Base();
    }
  }

  lemma BatchRankDecreases(s: State, step: Step)
    requires Control(s) && Enabled(s, step) && (step.NextBatch? || step.Recurse?)
    ensures Rank(Apply(s, step)) < Rank(s)
  {
    BaseAdvances(s, step);
    assert Apply(s, step).copies == s.copies;
  }

  lemma RankIsNatural(s: State)
    requires Control(s)
    ensures Rank(s) >= 0
  {
  }

  lemma CopyRankDecreases(s: State, step: Step)
    requires Progress(s) && Enabled(s, step) && (IsCopyStep(step) || step.Launch?)
    ensures Rank(Apply(s, step)) < Rank(s)
  {
    var t := if step.Launch? then s.Base() + s.launched else step.t;
    var s' := Apply(s, step);
    assert s'.Base() == s.Base() && Weight(s'.copies[t]) < Weight(s.copies[t]);
    WeightsUpdate(s.copies, t, s'.copies[t]);
    assert s'.copies == s.copies[t := s'.copies[t]];
  }

  lemma BaseAdvances(s: State, step: Step)
    requires Control(s) && Enabled(s, step) && (step.NextBatch? || step.Recurse?)
    ensures Apply(s, step).Base() == s.Base() + BATCH_SIZE
  {
  }

  /** A state of a run that has not returned can make a step, and need not wait for a copy to fail. */
  lemma NoDeadlock(s: State) returns (step: Step)
    requires Inv(s) && !s.launcher.Returned?
    ensures Enabled(s, step) && !step.RunFails?
  {
    if s.launcher.Launching? {
      step := if s.launched < s.Cut().size then Launch else BeginWait;
    } else if s.launcher.Checking? {
      step := if s.errs > 0 then Return
              else if s.batch + 1 < s.Cut().count then NextBatch
              else if s.Cut().remainder > 0 then Recurse else Return;
    } else if s.wg == 0 {
      step := Wake;
    } else {
      UnfinishedZero(s.copies, s.Base(), s.Base() + s.launched);
      var t: nat :| s.Base() <= t < s.Base() + s.launched && !s.copies[t].Gone?;
      step := match s.copies[t]
        case Launched => CallRun(t)
        case Running => RunSucceeds(t)
        case Failing => ReadErrs(t)
        case Appending(_) => WriteErrs(t)
        case _ => Done(t);
    }
  }

  ghost predicate IsStuck(s: State)
  {
    forall s' :: !Next(s, s')
  }

  /** No run is longer than the rank of its first state allows, and a run that cannot go on has returned. */
  lemma RunsEnd(n: nat, run: seq<State>)
    requires IsRun(n, run)
    ensures |run| <= Rank(run[0]) + 1 && run[0] == Init(n)
    ensures IsStuck(run[|run| - 1]) ==> run[|run| - 1].launcher.Returned?
  {
    RunIsBounded(n, run);
    var s := run[|run| - 1];
    RunInv(n, run, |run| - 1);
    if !s.launcher.Returned? {
      var step := NoDeadlock(s);
      assert Next(s, Apply(s, step));
    }
  }

  lemma {:induction false} Descends(ranks: seq<int>, i: nat)
    requires i < |ranks| && forall k :: 1 <= k < |ranks| ==> LessAt(ranks, k)
    ensures ranks[i] <= ranks[0] - i
  {
    if i > 0 {
      Descends(ranks, i - 1);
      assert LessAt(ranks, i);
    }
  }

  ghost predicate LessAt(ranks: seq<int>, k: int)
    requires 1 <= k < |ranks|
  {
    ranks[k] < ranks[k - 1]
  }

  lemma RunIsBounded(n: nat, run: seq<State>)
    requires IsRun(n, run)
    ensures |run| <= Rank(run[0]) + 1
  {
    var ranks := seq(|run|, i requires 0 <= i < |run| => Rank(run[i]));
    forall k | 1 <= k < |ranks| ensures LessAt(ranks, k) {
      RunRankDecreases(n, run, k);
    }
    Descends(ranks, |run| - 1);
    RunRankNatural(n, run, |run| - 1);
  }

  lemma RunRankNatural(n: nat, run: seq<State>, i: nat)
    requires IsRun(n, run) && i < |run|
    ensures Rank(run[i]) >= 0
  {
    RunInv(n, run, i);
    RankIsNatural(run[i]);
  }

  lemma RunRankDecreases(n: nat, run: seq<State>, i: nat)
    requires IsRun(n, run) && 1 <= i < |run|
    ensures Rank(run[i]) < Rank(run[i - 1])
  {
    RunInv(n, run, i - 1);
    assert NextAt(run, i);
    NextRankDecreases(run[i - 1], run[i]);
  }

  lemma NextRankDecreases(s: State, s': State)
    requires Inv(s) && Next(s, s')
    ensures Rank(s') < Rank(s)
  {
    var step :| Enabled(s, step) && s' == Apply(s, step);
    RankDecreases(s, step);
  }
}
