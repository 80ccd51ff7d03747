/** What the unsynchronised append to the error slice can lose, and what it cannot. */
module LostUpdates {
  import opened Choice
  import opened Worker
  import opened WorkerRuns

  // ---------------------------------------------------------------- which failures are reported

  /** The failed copies that have written to the error slice. */
  ghost function Reported(s: State): set<nat>
  {
    set t | t in s.failed && HasReported(s, t)
  }

  /** A copy's step adds at most the copy itself to those that have reported. */
  lemma CopyStepReports(s: State, step: Step)
    requires Errors(s) && IsCopyStep(step) && Enabled(s, step)
    ensures Reported(Apply(s, step)) == Reported(s) + (if step.WriteErrs? then {step.t} else {})
    ensures step.WriteErrs? ==> step.t !in Reported(s)
  {
    var s', t := Apply(s, step), step.t;
    forall u: nat ensures u in Reported(s') <==> u in Reported(s) || (step.WriteErrs? && u == t) {
      if u != t {
        OthersStay(s, step, u);
      }
    }
  }

  lemma OthersStay(s: State, step: Step, u: nat)
    requires IsCopyStep(step) && Enabled(s, step) && u != step.t
    ensures HasReported(Apply(s, step), u) <==> HasReported(s, u)
  {
    assert u < |s.copies| ==> Apply(s, step).copies[u] == s.copies[u];
  }

  /** The launching goroutine leaves reports and copies as they are. */
  lemma LauncherReports(s: State, step: Step)
    requires Progress(s) && !IsCopyStep(step) && Enabled(s, step)
    ensures Reported(Apply(s, step)) == Reported(s)
    ensures |Apply(s, step).copies| == |s.copies|
    ensures forall u :: 0 <= u < |s.copies| ==> LaunchedAtMost(s.copies[u], Apply(s, step).copies[u])
  {
    var s' := Apply(s, step);
    forall u: nat | u < |s.copies| ensures LaunchedAtMost(s.copies[u], s'.copies[u]) {
    }
    forall u: nat | u < |s.copies| ensures HasReported(s', u) <==> HasReported(s, u) {
      assert LaunchedAtMost(s.copies[u], s'.copies[u]);
    }
  }

  ghost predicate LaunchedAtMost(c: Copy, c': Copy)
  {
    c' == c || (c.Idle? && c'.Launched?)
  }

  // ---------------------------------------------------------------- when the slice counts every failure

  /** Copy `t` is about to write a slice whose length is not the one it read. */
  ghost predicate WritesOver(s: State, t: nat)
  {
    t < |s.copies| && s.copies[t].Appending? && s.copies[t].snapshot != s.errs
  }

  /** Step `i` of the run overwrites an error that another copy has written since. */
  ghost predicate LossyAt(run: seq<State>, i: nat)
    requires 1 <= i < |run|
  {
    exists t :: WritesOver(run[i - 1], t) && run[i] == Apply(run[i - 1], WriteErrs(t))
  }

  ghost predicate Lossless(run: seq<State>, n: nat)
    requires n < |run|
  {
    forall i :: 1 <= i <= n ==> !LossyAt(run, i)
  }

  /** As long as nothing was lost the slice counts the reports. */
  ghost predicate Exact(s: State)
  {
    && s.errs == |Reported(s)|
    && forall t :: 0 <= t < |s.copies| && s.copies[t].Appending? ==> s.copies[t].snapshot <= |Reported(s)|
  }

  /** Once an error was lost, the slice and all lengths read from it stay behind. */
  ghost predicate Behind(s: State)
  {
    && s.errs < |Reported(s)|
    && forall t :: 0 <= t < |s.copies| && s.copies[t].Appending? ==> s.copies[t].snapshot < |Reported(s)|
  }

  lemma CopyStepExact(s: State, step: Step)
    requires Errors(s) && Exact(s) && IsCopyStep(step) && Enabled(s, step)
    ensures if step.WriteErrs? && WritesOver(s, step.t) then Behind(Apply(s, step)) else Exact(Apply(s, step))
  {
    CopyStepReports(s, step);
    var s', t := Apply(s, step), step.t;
    forall u: nat | u < |s'.copies| && s'.copies[u].Appending?
      ensures u == t || s'.copies[u] == s.copies[u]
    {
    }
  }

  lemma CopyStepBehind(s: State, step: Step)
    requires Errors(s) && Behind(s) && IsCopyStep(step) && Enabled(s, step)
    ensures Behind(Apply(s, step))
  {
    CopyStepReports(s, step);
    var s', t := Apply(s, step), step.t;
    forall u: nat | u < |s'.copies| && s'.copies[u].Appending?
      ensures u == t || s'.copies[u] == s.copies[u]
    {
    }
  }

  lemma LauncherKeepsPhase(s: State, step: Step)
    requires Progress(s) && !IsCopyStep(step) && Enabled(s, step)
    ensures Exact(s) ==> Exact(Apply(s, step))
    ensures Behind(s) ==> Behind(Apply(s, step))
  {
    LauncherReports(s, step);
    var s' := Apply(s, step);
    forall u: nat | u < |s'.copies| && s'.copies[u].Appending? ensures s'.copies[u] == s.copies[u] {
      assert LaunchedAtMost(s.copies[u], s'.copies[u]);
    }
  }

  /** Only a lossy write ends the first phase, and nothing ends the second. */
  lemma PhaseStep(s: State, s': State)
    requires Inv(s) && Next(s, s')
    ensures Exact(s) ==> if exists t :: WritesOver(s, t) && s' == Apply(s, WriteErrs(t)) then Behind(s') else Exact(s')
    ensures Behind(s) ==> Behind(s')
  {
    var step :| Enabled(s, step) && s' == Apply(s, step);
    if IsCopyStep(step) {
      CopyPhase(s, step);
    } else {
      LauncherPhase(s, step);
    }
  }

  lemma CopyPhase(s: State, step: Step)
    requires Errors(s) && IsCopyStep(step) && Enabled(s, step)
    ensures var s' := Apply(s, step);
            Exact(s) ==> if exists t :: WritesOver(s, t) && s' == Apply(s, WriteErrs(t)) then Behind(s') else Exact(s')
    ensures Behind(s) ==> Behind(Apply(s, step))
  {
    if Exact(s) {
      CopyStepExact(s, step);
      OnlyThatWrite(s, step);
    }
    if Behind(s) {
      CopyStepBehind(s, step);
    }
  }

  /** A step that has the effect of a write is that write. */
  lemma OnlyThatWrite(s: State, step: Step)
    requires Enabled(s, step)
    ensures forall t :: WritesOver(s, t) && Apply(s, step) == Apply(s, WriteErrs(t)) ==> step == WriteErrs(t)
  {
    forall t: nat | WritesOver(s, t) && Apply(s, step) == Apply(s, WriteErrs(t)) ensures step == WriteErrs(t) {
      assert Apply(s, WriteErrs(t)).copies[t].Leaving?;
      assert Apply(s, step).copies[t].Leaving? && s.copies[t].Appending?;
    }
  }

  lemma LauncherPhase(s: State, step: Step)
    requires Inv(s) && !IsCopyStep(step) && Enabled(s, step)
    ensures !exists t :: WritesOver(s, t) && Apply(s, step) == Apply(s, WriteErrs(t))
    ensures Exact(s) ==> Exact(Apply(s, step))
    ensures Behind(s) ==> Behind(Apply(s, step))
  {
    OnlyThatWrite(s, step);
    LauncherKeepsPhase(s, step);
  }

  lemma {:induction false} RunPhase(n: nat, run: seq<State>, i: nat)
    requires IsRun(n, run) && i < |run|
    ensures if Lossless(run, i) then Exact(run[i]) else Behind(run[i])
  {
    if i == 0 {
      assert Reported(run[0]) == {};
    } else {
      RunPhase(n, run, i - 1);
      RunInv(n, run, i - 1);
      assert NextAt(run, i);
      PhaseStep(run[i - 1], run[i]);
      LosslessNext(run, i);
    }
  }

  lemma LosslessNext(run: seq<State>, i: nat)
    requires 1 <= i < |run|
    ensures Lossless(run, i) <==> Lossless(run, i - 1) && !LossyAt(run, i)
  {
  }

  /**
   * Past `Wait` the slice holds one error for each failed copy if and only if no copy of the run wrote over a slice
   * that had changed since it was read.
   */
  lemma CountsExactlyWhen(n: nat, run: seq<State>, i: nat)
    requires IsRun(n, run) && i < |run| && Between(run[i])
    ensures run[i].errs == |run[i].failed| <==> Lossless(run, i)
  {
    RunInv(n, run, i);
    RunPhase(n, run, i);
    AllReported(run[i]);
  }

  /** At every point of every run the slice holds at most one error for each failed copy. */
  lemma NoMoreErrorsThanFailures(n: nat, run: seq<State>, i: nat)
    requires IsRun(n, run) && i < |run|
    ensures run[i].errs <= |run[i].failed|
  {
    RunPhase(n, run, i);
    SubsetSize(Reported(run[i]), run[i].failed);
  }

  lemma AllReported(s: State)
    requires Inv(s) && Between(s)
    ensures Reported(s) == s.failed
  {
    forall t | t in s.failed ensures HasReported(s, t) {
    }
  }

  // ---------------------------------------------------------------- a run that loses an update

  /** Some run on `n` images ends in `s`. */
  ghost predicate Reachable(n: nat, s: State)
  {
    exists run :: IsRun(n, run) && run[|run| - 1] == s
  }

  lemma ReachableStart(n: nat)
    ensures Reachable(n, Init(n))
  {
    assert IsRun(n, [Init(n)]);
  }

  lemma ReachableNext(n: nat, s: State, step: Step)
    requires Reachable(n, s) && Enabled(s, step)
    ensures Reachable(n, Apply(s, step))
  {
    var run :| IsRun(n, run) && run[|run| - 1] == s;
    var longer := run + [Apply(s, step)];
    forall i | 1 <= i < |longer| ensures NextAt(longer, i) {
      if i < |run| {
        assert NextAt(run, i);
      }
    }
    assert IsRun(n, longer);
  }

  lemma ReachableInv(n: nat, s: State)
    requires Reachable(n, s)
    ensures Inv(s) && |s.copies| == n
  {
    var run :| IsRun(n, run) && run[|run| - 1] == s;
    RunInv(n, run, |run| - 1);
  }

  /** The first two copies of the first batch are launched and stand at `a` and `b`; no other copy is. */
  ghost predicate Two(n: nat, s: State, a: Copy, b: Copy, errs: nat, runs: seq<nat>, failed: set<nat>)
  {
    && Reachable(n, s) && n >= 2 && |s.copies| == n
    && s.offset == s.depth == s.batch == 0 && s.launched == 2 && s.launcher.Launching?
    && s.copies[0] == a && s.copies[1] == b && (forall t :: 2 <= t < n ==> s.copies[t].Idle?)
    && s.errs == errs && s.runs == runs && s.failed == failed
  }

  lemma OneLaunched(n: nat) returns (s: State)
    requires n >= 2
    ensures Reachable(n, s) && s == Init(n).(launched := 1, copies := Init(n).copies[0 := Launched])
  {
    ReachableStart(n);
    assert Init(n).Base() == 0;
    ReachableNext(n, Init(n), Launch);
    s := Apply(Init(n), Launch);
  }

  lemma TwoLaunched(n: nat) returns (s: State)
    requires n >= 2
    ensures Two(n, s, Launched, Launched, 0, [], {})
  {
    var first := OneLaunched(n);
    assert first.Base() == 0 && first.Cut() == BatchingOf(n);
    ReachableNext(n, first, Launch);
    s := Apply(first, Launch);
  }

  /** One of the two makes a step. */
  lemma TwoStep(n: nat, s: State, step: Step, a: Copy, b: Copy, errs: nat, runs: seq<nat>, failed: set<nat>)
    returns (s': State)
    requires Two(n, s, a, b, errs, runs, failed) && IsCopyStep(step) && step.t <= 1 && Enabled(s, step)
    ensures s' == Apply(s, step)
    ensures Two(n, s', if step.t == 0 then Target(s, step) else a, if step.t == 1 then Target(s, step) else b,
                if step.WriteErrs? then s.copies[step.t].snapshot + 1 else errs,
                if step.CallRun? then runs + [step.t] else runs,
                if step.RunFails? then failed + {step.t} else failed)
  {
    ReachableNext(n, s, step);
    s' := Apply(s, step);
  }

  /** The second copy calls `Run` before the first. */
  lemma TwoCalled(n: nat) returns (s: State)
    requires n >= 2
    ensures Two(n, s, Running, Running, 0, [1, 0], {})
  {
    s := TwoLaunched(n);
    s := TwoStep(n, s, CallRun(1), Launched, Launched, 0, [], {});
    s := TwoStep(n, s, CallRun(0), Launched, Running, 0, [1], {});
  }

  lemma TwoFailed(n: nat) returns (s: State)
    requires n >= 2
    ensures Two(n, s, Failing, Failing, 0, [1, 0], {0, 1})
  {
    s := TwoCalled(n);
    s := TwoStep(n, s, RunFails(0), Running, Running, 0, [1, 0], {});
    s := TwoStep(n, s, RunFails(1), Failing, Running, 0, [1, 0], {0});
  }

  /** Both read the slice before either writes it. */
  lemma TwoReported(n: nat) returns (s: State)
    requires n >= 2
    ensures Two(n, s, Leaving, Leaving, 1, [1, 0], {0, 1})
  {
    s := TwoFailed(n);
    s := TwoStep(n, s, ReadErrs(0), Failing, Failing, 0, [1, 0], {0, 1});
    s := TwoStep(n, s, ReadErrs(1), Appending(0), Failing, 0, [1, 0], {0, 1});
    s := TwoStep(n, s, WriteErrs(0), Appending(0), Appending(0), 0, [1, 0], {0, 1});
    s := TwoStep(n, s, WriteErrs(1), Leaving, Appending(0), 1, [1, 0], {0, 1});
  }

  /** No copy is between its failure and its report. */
  ghost predicate Quiet(s: State)
  {
    forall t :: 0 <= t < |s.copies| ==> !s.copies[t].Failing? && !s.copies[t].Appending?
  }

  lemma QuietStep(s: State) returns (step: Step)
    requires Inv(s) && Quiet(s) && !Between(s)
    ensures Enabled(s, step) && Quiet(Apply(s, step))
    ensures Apply(s, step).errs == s.errs && Apply(s, step).failed == s.failed
  {
    step := NoDeadlock(s);
    var s' := Apply(s, step);
    forall t | 0 <= t < |s'.copies| ensures !s'.copies[t].Failing? && !s'.copies[t].Appending? {
      assert s'.copies[t] == s.copies[t] || (!s'.copies[t].Failing? && !s'.copies[t].Appending?);
    }
  }

  /** From such a state the batch can end without further failures, with the slice as it is. */
  lemma {:induction false} BatchCanEnd(n: nat, s: State) returns (s': State)
    requires Reachable(n, s) && Quiet(s) && !Between(s)
    ensures Reachable(n, s') && s'.launcher.Checking? && s'.errs == s.errs && s'.failed == s.failed
    decreases RankOf(n, s)
  {
    ReachableInv(n, s);
    var step := QuietStep(s);
    ReachableNext(n, s, step);
    s' := Apply(s, step);
    if !Between(s') {
      RankDecreases(s, step);
      RankIsNatural(s);
      ReachableInv(n, s');
      s' := BatchCanEnd(n, s');
    }
  }

  ghost function RankOf(n: nat, s: State): nat
    requires Reachable(n, s)
  {
    ReachableInv(n, s);
    RankIsNatural(s);
    Rank(s)
  }

  /**
   * For any two or more images there is a run in which the first two copies fail and the slice holds a single
   * error past `Wait`: its length does not count the failures.
   */
  lemma LostUpdate(n: nat) returns (s: State)
    requires n >= 2
    ensures Reachable(n, s) && s.launcher.Checking? && s.failed == {0, 1} && s.errs == 1
  {
    s := TwoReported(n);
    s := BatchCanEnd(n, s);
  }

  /** For any two or more images there is a run in which the second is passed to `Run` before the first. */
  lemma OutOfLaunchOrder(n: nat) returns (s: State)
    requires n >= 2
    ensures Reachable(n, s) && s.runs == [1, 0]
  {
    s := TwoCalled(n);
  }
}
