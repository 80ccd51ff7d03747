/**
 * `Batch.Worker` as a system of interleaved steps: the goroutine that launches the copies of a batch and
 * waits for them on a WaitGroup, and one goroutine for each copy.
 */
module Worker {
  import opened Choice

  const BATCH_SIZE: nat := 8

  /** How a list is cut: `count` batches of `size` images, and a remainder left to one recursive call. */
  datatype Batching = Batching(count: nat, size: nat, remainder: nat)

  function BatchingOf(images: nat): Batching
  {
    if images < BATCH_SIZE then Batching(1, images, 0)
    else Batching(images / BATCH_SIZE, BATCH_SIZE, images % BATCH_SIZE)
  }

  /**
   * Where the goroutine of one copy is: not launched; launched by `go` but not scheduled yet; in `Run`; returned
   * with an error; between reading the length of the shared error slice and writing it back; about to call
   * `wg.Done`; gone.
   */
  datatype Copy = Idle | Launched | Running | Failing | Appending(snapshot: nat) | Leaving | Gone

  /** Where the launching goroutine is: in the launch loop, in `wg.Wait`, past it, or returned. */
  datatype Launcher = Launching | Waiting | Checking | Returned(ok: bool)

  /**
   * One activation of `Worker` handles `images[offset..]`; `depth` counts the recursive calls below the
   * first. `batch` and `launched` are its loop counters, `wg` its WaitGroup counter and `errs` the length
   * of its error slice. `runs` lists the images passed to `Run` in the order of the calls, `failed` those whose
   * copy failed.
   */
  datatype State = State(offset: nat, depth: nat, batch: nat, launched: nat, wg: int, errs: nat,
                         copies: seq<Copy>, launcher: Launcher, runs: seq<nat>, failed: set<nat>)
  {
    function Cut(): Batching
    {
      BatchingOf(if offset <= |copies| then |copies| - offset else 0)
    }

    /** Index of the first image of the current batch. */
    function Base(): nat
    {
      offset + batch * Cut().size
    }
  }

  datatype Step =
    | Launch | BeginWait | Wake | NextBatch | Recurse | Return
    | CallRun(t: nat) | RunSucceeds(t: nat) | RunFails(t: nat) | ReadErrs(t: nat) | WriteErrs(t: nat) | Done(t: nat)

  function Start(offset: nat, depth: nat, copies: seq<Copy>, runs: seq<nat>, failed: set<nat>): State
  {
    State(offset, depth, 0, 0, BatchingOf(if offset <= |copies| then |copies| - offset else 0).size, 0,
          copies, Launching, runs, failed)
  }

  function Init(n: nat): State
  {
    Start(0, 0, seq(n, _ => Idle), [], {})
  }

  predicate Enabled(s: State, step: Step)
  {
    match step
    case Launch => s.launcher.Launching? && s.launched < s.Cut().size && s.Base() + s.launched < |s.copies|
    case BeginWait => s.launcher.Launching? && s.launched == s.Cut().size
    case Wake => s.launcher.Waiting? && s.wg == 0
    case NextBatch => s.launcher.Checking? && s.errs == 0 && s.batch + 1 < s.Cut().count
    case Recurse => s.launcher.Checking? && s.errs == 0 && s.batch + 1 == s.Cut().count && s.Cut().remainder > 0
    case Return => s.launcher.Checking? && (s.errs > 0 || (s.batch + 1 == s.Cut().count && s.Cut().remainder == 0))
    case CallRun(t) => t < |s.copies| && s.copies[t].Launched?
    case RunSucceeds(t) => t < |s.copies| && s.copies[t].Running?
    case RunFails(t) => t < |s.copies| && s.copies[t].Running?
    case ReadErrs(t) => t < |s.copies| && s.copies[t].Failing?
    case WriteErrs(t) => t < |s.copies| && s.copies[t].Appending?
    case Done(t) => t < |s.copies| && s.copies[t].Leaving?
  }

  function Apply(s: State, step: Step): State
    requires Enabled(s, step)
  {
    match step
    case Launch =>
      var index := s.Base() + s.launched;
      s.(copies := s.copies[index := Launched], launched := s.launched + 1)
    case BeginWait => s.(launcher := Waiting)
    case Wake => s.(launcher := Checking, wg := if s.Cut().count > 1 then s.wg + BATCH_SIZE else s.wg)
    case NextBatch => s.(launcher := Launching, batch := s.batch + 1, launched := 0)
    case Recurse => Start(s.offset + s.Cut().count * BATCH_SIZE, s.depth + 1, s.copies, s.runs, s.failed)
    case Return => s.(launcher := Returned(s.errs == 0))
    case CallRun(t) => s.(copies := s.copies[t := Running], runs := s.runs + [t])
    case RunSucceeds(t) => s.(copies := s.copies[t := Leaving])
    case RunFails(t) => s.(copies := s.copies[t := Failing], failed := s.failed + {t})
    case ReadErrs(t) => s.(copies := s.copies[t := Appending(s.errs)])
    case WriteErrs(t) => s.(copies := s.copies[t := Leaving], errs := s.copies[t].snapshot + 1)
    case Done(t) => s.(copies := s.copies[t := Gone], wg := s.wg - 1)
  }

  ghost predicate Next(s: State, s': State)
  {
    exists step :: Enabled(s, step) && s' == Apply(s, step)
  }

  /** A run of the worker on `n` images: any interleaving, of any length. */
  ghost predicate IsRun(n: nat, run: seq<State>)
  {
    && |run| >= 1 && run[0] == Init(n)
    && forall i :: 1 <= i < |run| ==> NextAt(run, i)
  }

  ghost predicate NextAt(run: seq<State>, i: int)
    requires 1 <= i < |run|
  {
    Next(run[i - 1], run[i])
  }

  // ---------------------------------------------------------------- the invariant

  /** Number of copies in `copies[lo..hi]` that have not called `wg.Done`. */
  function Unfinished(copies: seq<Copy>, lo: nat, hi: nat): (u: nat)
    requires lo <= hi <= |copies|
    ensures u <= hi - lo
  {
    if lo == hi then 0 else Unfinished(copies, lo, hi - 1) + if copies[hi - 1].Gone? then 0 else 1
  }

  lemma {:induction false} UnfinishedUpdate(copies: seq<Copy>, lo: nat, hi: nat, t: nat, c: Copy)
    requires lo <= hi <= |copies| && t < |copies|
    ensures Unfinished(copies[t := c], lo, hi) ==
            Unfinished(copies, lo, hi) +
            if lo <= t < hi then (if c.Gone? then 0 else 1) - (if copies[t].Gone? then 0 else 1) else 0
  {
    if lo < hi {
      UnfinishedUpdate(copies, lo, hi - 1, t, c);
    }
  }

  lemma {:induction false} UnfinishedZero(copies: seq<Copy>, lo: nat, hi: nat)
    requires lo <= hi <= |copies|
    ensures Unfinished(copies, lo, hi) == 0 <==> forall t :: lo <= t < hi ==> copies[t].Gone?
  {
    if lo < hi {
      UnfinishedZero(copies, lo, hi - 1);
    }
  }

  ghost predicate Between(s: State)
  {
    s.launcher.Checking? || s.launcher.Returned?
  }

  /** Loop counters and recursion: at most one recursive call, on the last `n % 8` images. */
  ghost predicate Control(s: State)
  {
    && s.depth <= 1
    && (s.depth == 0 ==> s.offset == 0)
    && (s.depth == 1 ==>
        s.offset == |s.copies| / BATCH_SIZE * BATCH_SIZE && s.offset < |s.copies| && |s.copies| >= BATCH_SIZE)
    && s.batch < s.Cut().count && s.launched <= s.Cut().size
    && (!s.launcher.Launching? ==> s.launched == s.Cut().size)
    && s.Base() + s.Cut().size <= |s.copies|
  }

  /** Copies before the batch are gone, those launched in it are not idle any more, later ones are. */
  ghost predicate Progress(s: State)
  {
    && Control(s)
    && (forall t :: 0 <= t < s.Base() ==> s.copies[t].Gone?)
    && (forall t :: s.Base() <= t < s.Base() + s.launched ==> !s.copies[t].Idle?)
    && (forall t :: s.Base() + s.launched <= t < |s.copies| ==> s.copies[t].Idle?)
    && (Between(s) ==> forall t :: s.Base() <= t < s.Base() + s.launched ==> s.copies[t].Gone?)
  }

  /** The goroutine of the copy has called `Run`. */
  predicate HasCalled(c: Copy)
  {
    !c.Idle? && !c.Launched?
  }

  /** All images of a batch come before any image of a later one; inside a batch any order is possible. */
  ghost predicate BatchByBatch(runs: seq<nat>)
  {
    forall i, j :: 0 <= i < j < |runs| ==> runs[i] / 8 <= runs[j] / 8
  }

  /** `Run` was called once for each copy past its call, and for no other image. */
  ghost predicate Calls(s: State)
  {
    && Distinct(s.runs) && BatchByBatch(s.runs)
    && (forall t <- s.runs :: t < |s.copies|)
    && (forall t :: 0 <= t < |s.copies| ==> (t in s.runs <==> HasCalled(s.copies[t])))
  }

  /** During a batch the counter is the number of its copies that are unfinished or not launched yet. */
  ghost predicate Counter(s: State)
    requires Control(s)
  {
    s.wg == if Between(s) then (if s.Cut().count > 1 then BATCH_SIZE else 0)
            else s.Cut().size - s.launched + Unfinished(s.copies, s.Base(), s.Base() + s.launched)
  }

  /** A failed copy that has written its error. */
  ghost predicate HasReported(s: State, t: nat)
  {
    t in s.failed && t < |s.copies| && (s.copies[t].Leaving? || s.copies[t].Gone?)
  }

  /** The error slice is non-empty exactly when some failed copy of the batch has written to it. */
  ghost predicate Errors(s: State)
  {
    && (forall t <- s.failed :: s.Base() <= t < |s.copies| && HasCalled(s.copies[t]) && !s.copies[t].Running?)
    && (forall t :: 0 <= t < |s.copies| && (s.copies[t].Failing? || s.copies[t].Appending?) ==> t in s.failed)
    && (s.errs > 0 <==> exists t :: HasReported(s, t))
    && (s.launcher.Returned? ==> (s.launcher.ok <==> s.errs == 0))
    && (s.launcher == Returned(true) ==> s.Base() + s.launched == |s.copies|)
  }

  ghost predicate Inv(s: State)
  {
    Progress(s) && Counter(s) && Errors(s) && Calls(s)
  }

  function Min(a: nat, b: nat): nat
  {
    if a < b then a else b
  }

  /** The current batch is number `Base() / 8` of the whole list, and ends with it or with the list. */
  lemma BatchBounds(s: State)
    requires Control(s)
    ensures s.Base() % BATCH_SIZE == 0
    ensures s.Base() + s.Cut().size == Min(|s.copies|, s.Base() + BATCH_SIZE)
  {
    if s.Cut().size == BATCH_SIZE {
      assert s.batch * s.Cut().size == s.batch * BATCH_SIZE;
    } else {
      assert s.batch == 0;
    }
  }

  // ---------------------------------------------------------------- every step keeps it

  lemma InitInv(n: nat)
    ensures Inv(Init(n))
  {
    InitProgress(n);
    InitErrors(n);
  }

  lemma InitProgress(n: nat)
    ensures Progress(Init(n)) && Counter(Init(n))
  {
    var s := Init(n);
    assert s.Base() == 0 && s.Cut() == BatchingOf(n);
    assert n >= BATCH_SIZE ==> n / BATCH_SIZE >= 1;
  }

  lemma InitErrors(n: nat)
    ensures Errors(Init(n)) && Calls(Init(n))
  {
    var s := Init(n);
    forall t ensures !HasReported(s, t) {
    }
  }

  /** A step of a copy's goroutine. */
  predicate IsCopyStep(step: Step)
  {
    step.CallRun? || step.RunSucceeds? || step.RunFails? || step.ReadErrs? || step.WriteErrs? || step.Done?
  }

  /** A copy's step concerns a launched copy of the current batch that is not gone. */
  lemma CopyIsActive(s: State, step: Step)
    requires Progress(s) && IsCopyStep(step) && Enabled(s, step)
    ensures s.Base() <= step.t < s.Base() + s.launched && !Between(s)
  {
  }

  /** The state after copy `t` has moved to `c`. */
  function Moved(s: State, t: nat, c: Copy, wg: int, errs: nat, runs: seq<nat>, failed: set<nat>): State
    requires t < |s.copies|
  {
    s.(copies := s.copies[t := c], wg := wg, errs := errs, runs := runs, failed := failed)
  }

  lemma MoveProgress(s: State, t: nat, c: Copy, wg: int, errs: nat, runs: seq<nat>, failed: set<nat>)
    requires Progress(s) && !Between(s) && s.Base() <= t < s.Base() + s.launched && !c.Idle?
    ensures Progress(Moved(s, t, c, wg, errs, runs, failed))
  {
    var s' := Moved(s, t, c, wg, errs, runs, failed);
    assert s'.Cut() == s.Cut() && s'.Base() == s.Base();
  }

  lemma MoveCounter(s: State, t: nat, c: Copy, wg: int, errs: nat, runs: seq<nat>, failed: set<nat>)
    requires Control(s) && Counter(s) && !Between(s) && s.Base() <= t < s.Base() + s.launched && !s.copies[t].Gone?
    requires wg == s.wg - if c.Gone? then 1 else 0
    ensures Control(Moved(s, t, c, wg, errs, runs, failed)) && Counter(Moved(s, t, c, wg, errs, runs, failed))
  {
    var s' := Moved(s, t, c, wg, errs, runs, failed);
    assert s'.Cut() == s.Cut() && s'.Base() == s.Base();
    UnfinishedUpdate(s.copies, s.Base(), s.Base() + s.launched, t, c);
  }

  /** Moving a copy that has not reported and still has not, or that reports now. */
  lemma MoveErrors(s: State, t: nat, c: Copy, wg: int, errs: nat, runs: seq<nat>, failed: set<nat>,
                   reports: bool)
    requires Errors(s) && !s.launcher.Returned? && s.Base() <= t < |s.copies|
    requires t in failed ==> HasCalled(c) && !c.Running?
    requires failed == s.failed || failed == s.failed + {t}
    requires c.Failing? || c.Appending? ==> t in failed
    requires reports <==> t in failed && (c.Leaving? || c.Gone?) && !HasReported(s, t)
    requires HasReported(s, t) ==> c.Leaving? || c.Gone?
    requires if reports then errs > 0 else errs == s.errs
    ensures Errors(Moved(s, t, c, wg, errs, runs, failed))
  {
    var s' := Moved(s, t, c, wg, errs, runs, failed);
    assert s'.Cut() == s.Cut() && s'.Base() == s.Base();
    forall u ensures HasReported(s', u) <==> HasReported(s, u) || (reports && u == t) {
    }
    if reports {
      assert HasReported(s', t);
    }
  }

  /** Where the copy that makes `step` goes. */
  function Target(s: State, step: Step): Copy
    requires IsCopyStep(step)
  {
    match step
    case CallRun(_) => Running
    case RunFails(_) => Failing
    case ReadErrs(_) => Appending(s.errs)
    case Done(_) => Gone
    case _ => Leaving
  }

  lemma CopyStepCalls(s: State, step: Step)
    requires Progress(s) && Calls(s) && IsCopyStep(step) && Enabled(s, step)
    ensures Calls(Apply(s, step))
  {
    CopyIsActive(s, step);
    if step.CallRun? {
      CallIsLast(s, step.t);
    }
  }

  /** No image of a later batch has been passed to `Run` when one of the current batch is. */
  lemma CallIsLast(s: State, t: nat)
    requires Progress(s) && Calls(s) && s.Base() <= t < s.Base() + s.launched
    ensures BatchByBatch(s.runs + [t])
  {
    BatchBounds(s);
    forall i | 0 <= i < |s.runs| ensures s.runs[i] / BATCH_SIZE <= t / BATCH_SIZE {
      assert s.runs[i] in s.runs;
      assert s.runs[i] < s.Base() + s.launched;
    }
  }

  lemma CopyStepInv(s: State, step: Step)
    requires Inv(s) && IsCopyStep(step) && Enabled(s, step)
    ensures Inv(Apply(s, step))
  {
    CopyIsActive(s, step);
    var t := step.t;
    var c := Target(s, step);
    var wg := s.wg - if c.Gone? then 1 else 0;
    var errs := if step.WriteErrs? then s.copies[t].snapshot + 1 else s.errs;
    var runs := if step.CallRun? then s.runs + [t] else s.runs;
    var failed := if step.RunFails? then s.failed + {t} else s.failed;
    assert Apply(s, step) == Moved(s, t, c, wg, errs, runs, failed);
    MoveProgress(s, t, c, wg, errs, runs, failed);
    MoveCounter(s, t, c, wg, errs, runs, failed);
    MoveErrors(s, t, c, wg, errs, runs, failed, step.WriteErrs?);
    CopyStepCalls(s, step);
  }

  lemma LaunchInv(s: State)
    requires Inv(s) && Enabled(s, Launch)
    ensures Inv(Apply(s, Launch))
  {
    LaunchProgress(s);
    LaunchCounter(s);
    LaunchErrors(s);
    LaunchCalls(s);
  }

  lemma LaunchProgress(s: State)
    requires Progress(s) && Enabled(s, Launch)
    ensures Progress(Apply(s, Launch))
  {
    var s' := Apply(s, Launch);
    assert s'.Cut() == s.Cut() && s'.Base() == s.Base();
  }

  lemma LaunchCounter(s: State)
    requires Progress(s) && Counter(s) && Enabled(s, Launch)
    ensures Progress(Apply(s, Launch)) && Counter(Apply(s, Launch))
  {
    LaunchProgress(s);
    var s', lo, hi := Apply(s, Launch), s.Base(), s.Base() + s.launched;
    UnfinishedUpdate(s.copies, lo, hi, hi, Launched);
    assert Unfinished(s'.copies, lo, hi + 1) == Unfinished(s'.copies, lo, hi) + 1;
  }

  lemma LaunchCalls(s: State)
    requires Progress(s) && Calls(s) && Enabled(s, Launch)
    ensures Calls(Apply(s, Launch))
  {
  }

  lemma LaunchErrors(s: State)
    requires Progress(s) && Errors(s) && Enabled(s, Launch)
    ensures Errors(Apply(s, Launch))
  {
    var s' := Apply(s, Launch);
    forall u ensures HasReported(s', u) <==> HasReported(s, u) {
    }
  }

  lemma BeginWaitInv(s: State)
    requires Inv(s) && Enabled(s, BeginWait)
    ensures Inv(Apply(s, BeginWait))
  {
    LauncherProgress(s, Waiting);
    LauncherErrors(s, Waiting, s.wg);
  }

  /** The launching goroutine's moves on one side of `Wait` keep the progress and the counter. */
  lemma LauncherProgress(s: State, launcher: Launcher)
    requires Progress(s) && Counter(s) && !launcher.Launching? && s.launched == s.Cut().size
    requires Between(s) <==> Between(s.(launcher := launcher))
    ensures Progress(s.(launcher := launcher)) && Counter(s.(launcher := launcher))
  {
    var s' := s.(launcher := launcher);
    assert s'.Cut() == s.Cut() && s'.Base() == s.Base();
  }

  /** The launching goroutine's own moves do not touch errors or calls. */
  lemma LauncherErrors(s: State, launcher: Launcher, wg: int)
    requires Errors(s) && Calls(s)
    requires launcher.Returned? ==>
             (launcher.ok <==> s.errs == 0) && (launcher.ok ==> s.Base() + s.launched == |s.copies|)
    ensures Errors(s.(launcher := launcher, wg := wg)) && Calls(s.(launcher := launcher, wg := wg))
  {
    var s' := s.(launcher := launcher, wg := wg);
    assert s'.Base() == s.Base();
    forall u ensures HasReported(s', u) <==> HasReported(s, u) {
    }
  }

  lemma WakeInv(s: State)
    requires Inv(s) && Enabled(s, Wake)
    ensures Inv(Apply(s, Wake))
  {
    WakeProgress(s);
    var s' := Apply(s, Wake);
    LauncherErrors(s, Checking, s'.wg);
  }

  lemma WakeProgress(s: State)
    requires Progress(s) && Counter(s) && Enabled(s, Wake)
    ensures Progress(Apply(s, Wake)) && Counter(Apply(s, Wake))
  {
    UnfinishedZero(s.copies, s.Base(), s.Base() + s.launched);
    assert Apply(s, Wake).Base() == s.Base();
  }

  /** Past `Wait` every copy of the batch is gone, so an empty error slice means that none failed. */
  lemma NoErrorsNoFailures(s: State)
    requires Inv(s) && Between(s)
    ensures s.errs > 0 <==> s.failed != {}
  {
    if t :| t in s.failed {
      assert HasReported(s, t);
    }
  }

  lemma NextBatchInv(s: State)
    requires Inv(s) && Enabled(s, NextBatch)
    ensures Inv(Apply(s, NextBatch))
  {
    NoErrorsNoFailures(s);
    var s' := Apply(s, NextBatch);
    assert s'.Base() == s.Base() + s.Cut().size;
    forall u ensures !HasReported(s', u) {
    }
  }

  lemma RecurseInv(s: State)
    requires Inv(s) && Enabled(s, Recurse)
    ensures Inv(Apply(s, Recurse))
  {
    NoErrorsNoFailures(s);
    var s' := Apply(s, Recurse);
    assert s.Base() + s.launched == s'.offset;
    forall u ensures !HasReported(s', u) {
    }
  }

  lemma ReturnInv(s: State)
    requires Inv(s) && Enabled(s, Return)
    ensures Inv(Apply(s, Return))
  {
    LauncherProgress(s, Returned(s.errs == 0));
    LauncherErrors(s, Returned(s.errs == 0), s.wg);
  }

  lemma StepInv(s: State, step: Step)
    requires Inv(s) && Enabled(s, step)
    ensures Inv(Apply(s, step))
  {
    match step
    case Launch => LaunchInv(s);
    case BeginWait => BeginWaitInv(s);
    case Wake => WakeInv(s);
    case NextBatch => NextBatchInv(s);
    case Recurse => RecurseInv(s);
    case Return => ReturnInv(s);
    case _ =>
      CopyStepInv(s, step);
  }

  lemma NextInv(s: State, s': State)
    requires Inv(s) && Next(s, s')
    ensures Inv(s') && |s'.copies| == |s.copies|
  {
    var step :| Enabled(s, step) && s' == Apply(s, step);
    StepInv(s, step);
    SizeKept(s, step);
  }

  lemma SizeKept(s: State, step: Step)
    requires Enabled(s, step)
    ensures |Apply(s, step).copies| == |s.copies|
  {
  }

  /** The invariant holds in every state of every run, and no image is added or lost. */
  lemma {:induction false} RunInv(n: nat, run: seq<State>, i: nat)
    requires IsRun(n, run) && i < |run|
    ensures Inv(run[i]) && |run[i].copies| == n
  {
    if i == 0 {
      InitInv(n);
    } else {
      RunInv(n, run, i - 1);
      assert NextAt(run, i);
      NextInv(run[i - 1], run[i]);
    }
  }
}
