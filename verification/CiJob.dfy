/** The CI job engine: setup, the loop over steps, cache saves and cleanup. What
    the outside world does is the input. */
module CiJob {
  import opened Basics
  import opened CiConditions

  datatype PlanStep = PlanStep(id: string, index: nat, ifExpr: string, continueOnError: bool)

  datatype Plan = Plan(steps: seq<PlanStep>, triggerRef: string)

  /** A step with its condition read: whether it runs while no step has failed,
      and whether it runs once one has. */
  datatype Step = Step(id: string, index: nat, runsClean: bool, runsAfterFailure: bool, continueOnError: bool)

  type Job = seq<Step>

  function StepOf(triggerRef: string, s: PlanStep): Step
  {
    Step(s.id, s.index, ShouldRun(triggerRef, s.ifExpr, false), ShouldRun(triggerRef, s.ifExpr, true), s.continueOnError)
  }

  function JobOf(plan: Plan): (job: Job)
    ensures |job| == |plan.steps|
    ensures forall i :: 0 <= i < |job| ==> job[i] == StepOf(plan.triggerRef, plan.steps[i])
  {
    seq(|plan.steps|, i requires 0 <= i < |plan.steps| => StepOf(plan.triggerRef, plan.steps[i]))
  }

  /** How running a step ended: the process succeeded or failed, perhaps asking
      for a cache save, or it could not be run to its end. */
  datatype Outcome =
    | Succeeded(savesCache: bool)
    | Failed(savesCache: bool)
    | Errored(cancelled: bool)

  /** Everything the job observes; entry `i` of a list is for step `i`. */
  datatype World = World(cancelledAtStart: bool, checkoutOk: bool, bundlesOk: bool, servicesOk: bool,
                         cancelledBefore: seq<bool>, outcomes: seq<Outcome>)

  datatype Conclusion = Success | Failure | Cancelled

  datatype Status = StatusSuccess | StatusFailure | StatusSkipped | StatusCancelled

  datatype Effect =
    | Checkout | Bundles | StartServices
    | RunStep(i: nat) | SaveCache(i: nat)
    | CleanServices | CleanCheckout

  datatype Result = Result(conclusion: Conclusion, failedIndex: Option<nat>,
                           statuses: map<string, Status>, trace: seq<Effect>)

  ghost predicate Fits(job: Job, w: World)
  {
    |w.cancelledBefore| == |w.outcomes| == |job|
  }

  // ----- what should happen at each step

  predicate IsFailure(o: Outcome) { o.Failed? || (o.Errored? && !o.cancelled) }

  /** A step before `i` ran and failed, tolerated or not. */
  ghost predicate SawFailure(job: Job, w: World, i: nat)
    requires Fits(job, w) && i <= |job|
    decreases i, 0
  {
    i > 0 && (SawFailure(job, w, i - 1) || (Runs(job, w, i - 1) && IsFailure(w.outcomes[i - 1])))
  }

  /** The condition of step `i` holds when its turn comes. */
  ghost predicate Runs(job: Job, w: World, i: nat)
    requires Fits(job, w) && i < |job|
    decreases i, 1
  {
    if SawFailure(job, w, i) then job[i].runsAfterFailure else job[i].runsClean
  }

  /** Step `i` fails the job. */
  ghost predicate Fatal(job: Job, w: World, i: nat)
    requires Fits(job, w) && i < |job|
  {
    !w.cancelledBefore[i] && Runs(job, w, i) && IsFailure(w.outcomes[i]) && !job[i].continueOnError
  }

  /** A cancellation is acted on at step `i`. */
  ghost predicate CancelActedOn(job: Job, w: World, i: nat)
    requires Fits(job, w) && i < |job|
  {
    w.cancelledBefore[i] || (Runs(job, w, i) && w.outcomes[i] == Errored(true))
  }

  ghost predicate Stops(job: Job, w: World, i: nat)
    requires Fits(job, w) && i < |job|
  {
    Fatal(job, w, i) || CancelActedOn(job, w, i)
  }

  predicate SetupOk(w: World) { !w.cancelledAtStart && w.checkoutOk && w.bundlesOk && w.servicesOk }

  /** `k` is where the loop stops: the first step that stops it, or its end. */
  ghost predicate StopsAt(job: Job, w: World, k: nat)
    requires Fits(job, w)
  {
    && k <= |job|
    && (forall j :: 0 <= j < k ==> !Stops(job, w, j))
    && (k < |job| ==> Stops(job, w, k))
  }

  /** Where the loop stops if it has `n` steps to go through. */
  ghost function StopWithin(job: Job, w: World, n: nat): (k: nat)
    requires Fits(job, w) && n <= |job|
    ensures k <= n
    ensures forall j :: 0 <= j < k ==> !Stops(job, w, j)
    ensures k < n ==> Stops(job, w, k)
  {
    if n == 0 then 0
    else
      var k := StopWithin(job, w, n - 1);
      if k < n - 1 || Stops(job, w, k) then k else n
  }

  /** Where the loop stops. */
  ghost function StopOf(job: Job, w: World): (k: nat)
    requires Fits(job, w)
    ensures StopsAt(job, w, k)
  {
    StopWithin(job, w, |job|)
  }

  /** Steps whose turn has come when the loop has come to `k`. */
  ghost function Visited(job: Job, w: World, k: nat): nat
    requires Fits(job, w) && k <= |job|
  {
    if k < |job| && !w.cancelledBefore[k] then k + 1 else k
  }

  ghost function StepsRun(job: Job, w: World, n: nat): seq<Effect>
    requires Fits(job, w) && n <= |job|
  {
    if n == 0 then []
    else StepsRun(job, w, n - 1) + (if Runs(job, w, n - 1) then [RunStep(n - 1)] else [])
  }

  predicate SavesCache(o: Outcome) { !o.Errored? && o.savesCache }

  ghost function Saves(job: Job, w: World, n: nat): seq<nat>
    requires Fits(job, w) && n <= |job|
  {
    if n == 0 then []
    else Saves(job, w, n - 1) + (if Runs(job, w, n - 1) && SavesCache(w.outcomes[n - 1]) then [n - 1] else [])
  }

  ghost function StatusOf(job: Job, w: World, i: nat): Status
    requires Fits(job, w) && i < |job|
  {
    if CancelActedOn(job, w, i) then StatusCancelled
    else if !Runs(job, w, i) then StatusSkipped
    else if IsFailure(w.outcomes[i]) then StatusFailure else StatusSuccess
  }

  ghost function Statuses(job: Job, w: World, n: nat): map<string, Status>
    requires Fits(job, w) && n <= |job|
  {
    if n == 0 then map[] else Statuses(job, w, n - 1)[job[n - 1].id := StatusOf(job, w, n - 1)]
  }

  /** How a loop that stops at `k` ends. */
  ghost function EndAt(job: Job, w: World, k: nat): LoopEnd
    requires Fits(job, w) && StopsAt(job, w, k)
  {
    if k == |job| then Completed
    else if Fatal(job, w, k) then FatalStep(job[k].index) else WasCancelled
  }

  // ----- the engine

  /** How the loop over the steps ended. */
  datatype LoopEnd = Completed | FatalStep(index: nat) | WasCancelled

  /** `execute_ci_job`. */
  method ExecuteCiJob(plan: Plan, w: World) returns (r: Result)
    requires Fits(JobOf(plan), w)
    ensures !SetupOk(w) ==> r == SetupFailure(w)
    ensures SetupOk(w) ==> r == Finished(JobOf(plan), w, StopOf(JobOf(plan), w))
  {
    if w.cancelledAtStart {
      return Result(Cancelled, None, map[], []);
    }
    var trace := [Checkout];
    if !w.checkoutOk {
      return Result(Failure, None, map[], trace + [CleanCheckout]);
    }
    trace := trace + [Bundles];
    if !w.bundlesOk {
      return Result(Failure, None, map[], trace + [CleanCheckout]);
    }
    trace := trace + [StartServices];
    if !w.servicesOk {
      return Result(Failure, None, map[], trace + [CleanServices, CleanCheckout]);
    }
    assert trace == SETUP;
    var end, statuses, ran, pendingSaves := RunSteps(JobOf(plan), w);
    trace := trace + ran;
    if end.WasCancelled? {
      trace := trace + [CleanServices, CleanCheckout];
      return Result(Cancelled, None, statuses, trace);
    }
    if end.Completed? {
      var saved := SaveCaches(pendingSaves);
      trace := trace + saved;
    }
    trace := trace + [CleanServices, CleanCheckout];
    r := match end
    case FatalStep(index) => Result(Failure, Some(index), statuses, trace)
    case _ => Result(Success, None, statuses, trace);
  }

  /** The loop over the steps. */
  method RunSteps(job: Job, w: World)
    returns (end: LoopEnd, statuses: map<string, Status>, ran: seq<Effect>, pendingSaves: seq<nat>)
    requires Fits(job, w)
    ensures end == EndAt(job, w, StopOf(job, w))
    ensures statuses == Statuses(job, w, Min(StopOf(job, w) + 1, |job|))
    ensures ran == StepsRun(job, w, Visited(job, w, StopOf(job, w)))
    ensures end.Completed? ==> pendingSaves == Saves(job, w, StopOf(job, w))
  {
    statuses, ran, pendingSaves := map[], [], [];
    var sawFailure := false;
    var i := 0;
    while i < |job|
      invariant 0 <= i <= |job|
      invariant forall j :: 0 <= j < i ==> !Stops(job, w, j)
      invariant sawFailure == SawFailure(job, w, i)
      invariant ran == StepsRun(job, w, i)
      invariant pendingSaves == Saves(job, w, i)
      invariant statuses == Statuses(job, w, i)
    {
      var step := job[i];
      assert Stops(job, w, i) ==> StopOf(job, w) == i;
      if w.cancelledBefore[i] {
        statuses := statuses[step.id := StatusCancelled];
        return WasCancelled, statuses, ran, pendingSaves;
      }
      var runs := if sawFailure then step.runsAfterFailure else step.runsClean;
      if !runs {
        statuses := statuses[step.id := StatusSkipped];
        i := i + 1;
        continue;
      }
      ran := ran + [RunStep(i)];
      var outcome := w.outcomes[i];
      if !outcome.Errored? && outcome.savesCache {
        pendingSaves := pendingSaves + [i];
      }
      if outcome.Succeeded? {
        statuses := statuses[step.id := StatusSuccess];
      } else if outcome.Errored? && outcome.cancelled {
        statuses := statuses[step.id := StatusCancelled];
        return WasCancelled, statuses, ran, pendingSaves;
      } else {
        statuses := statuses[step.id := StatusFailure];
        sawFailure := true;
        if !step.continueOnError {
          return FatalStep(step.index), statuses, ran, pendingSaves;
        }
      }
      i := i + 1;
    }
    end := Completed;
  }

  method SaveCaches(pendingSaves: seq<nat>) returns (saved: seq<Effect>)
    ensures saved == SaveEffects(pendingSaves)
  {
    saved := [];
    var s := 0;
    while s < |pendingSaves|
      invariant 0 <= s <= |pendingSaves|
      invariant saved == SaveEffects(pendingSaves[..s])
    {
      assert pendingSaves[..s + 1][..s] == pendingSaves[..s];
      saved := saved + [SaveCache(pendingSaves[s])];
      s := s + 1;
    }
    assert pendingSaves[..s] == pendingSaves;
  }

  function SaveEffects(saves: seq<nat>): seq<Effect>
  {
    if saves == [] then [] else SaveEffects(saves[..|saves| - 1]) + [SaveCache(saves[|saves| - 1])]
  }

  const SETUP: seq<Effect> := [Checkout, Bundles, StartServices]

  /** What a job that does not reach its steps reports and does. */
  function SetupFailure(w: World): Result
    requires !SetupOk(w)
  {
    if w.cancelledAtStart then Result(Cancelled, None, map[], [])
    else if !w.checkoutOk then Result(Failure, None, map[], [Checkout, CleanCheckout])
    else if !w.bundlesOk then Result(Failure, None, map[], [Checkout, Bundles, CleanCheckout])
    else Result(Failure, None, map[], SETUP + [CleanServices, CleanCheckout])
  }

  /** What a job whose loop stops at `k` reports and does. */
  ghost function Finished(job: Job, w: World, k: nat): Result
    requires Fits(job, w) && StopsAt(job, w, k)
  {
    var ran := SETUP + StepsRun(job, w, Visited(job, w, k));
    var statuses := Statuses(job, w, Min(k + 1, |job|));
    match EndAt(job, w, k)
    case Completed =>
      Result(Success, None, statuses, ran + SaveEffects(Saves(job, w, k)) + [CleanServices, CleanCheckout])
    case FatalStep(index) => Result(Failure, Some(index), statuses, ran + [CleanServices, CleanCheckout])
    case WasCancelled => Result(Cancelled, None, statuses, ran + [CleanServices, CleanCheckout])
  }

  // ----- what every run of a job keeps

  /** `r` is what the job reports and does when its loop, if reached, stops at `k`. */
  ghost predicate Reports(job: Job, w: World, k: nat, r: Result)
    requires Fits(job, w)
  {
    if SetupOk(w) then StopsAt(job, w, k) && r == Finished(job, w, k) else r == SetupFailure(w)
  }

  /** The job succeeds exactly when setup succeeded, no cancellation was acted on
      and every step that failed was tolerated. */
  lemma SuccessIff(job: Job, w: World, k: nat, r: Result)
    requires Fits(job, w) && Reports(job, w, k, r)
    ensures r.conclusion == Success <==>
            && SetupOk(w)
            && (forall i :: 0 <= i < |job| ==> !CancelActedOn(job, w, i))
            && (forall i :: 0 <= i < |job| && Runs(job, w, i) && IsFailure(w.outcomes[i]) ==> job[i].continueOnError)
  {
    if SetupOk(w) && k < |job| {
      assert Stops(job, w, k);
    }
    if SetupOk(w) && k == |job| {
      forall i | 0 <= i < |job|
        ensures !CancelActedOn(job, w, i)
        ensures Runs(job, w, i) && IsFailure(w.outcomes[i]) ==> job[i].continueOnError
      {
        assert !Stops(job, w, i);
      }
    }
  }

  /** The reported index is that of the first step that failed untolerated, with
      no cancellation acted on before it. */
  lemma FailedIndexIff(job: Job, w: World, k: nat, r: Result)
    requires Fits(job, w) && Reports(job, w, k, r)
    ensures r.failedIndex.Some? <==> SetupOk(w) && k < |job| && Fatal(job, w, k)
    ensures r.failedIndex.Some? ==>
              && r.failedIndex.value == job[k].index
              && (forall j :: 0 <= j < k ==> !Fatal(job, w, j) && !CancelActedOn(job, w, j))
  {
    if SetupOk(w) {
      forall j | 0 <= j < k
        ensures !Fatal(job, w, j) && !CancelActedOn(job, w, j)
      {
        assert !Stops(job, w, j);
      }
    }
  }

  lemma {:induction false} StepsRunIff(job: Job, w: World, n: nat, e: Effect)
    requires Fits(job, w) && n <= |job|
    ensures e in StepsRun(job, w, n) <==> e.RunStep? && e.i < n && Runs(job, w, e.i)
  {
    if n > 0 { StepsRunIff(job, w, n - 1, e); }
  }

  /** How often an effect is in a trace. */
  function Times(trace: seq<Effect>, e: Effect): nat
  {
    if trace == [] then 0 else Times(trace[..|trace| - 1], e) + (if trace[|trace| - 1] == e then 1 else 0)
  }

  lemma {:induction false} TimesConcat(a: seq<Effect>, b: seq<Effect>, e: Effect)
    ensures Times(a + b, e) == Times(a, e) + Times(b, e)
    decreases |b|
  {
    if b == [] {
      assert a + b == a;
    } else {
      assert (a + b)[..|a + b| - 1] == a + b[..|b| - 1];
      TimesConcat(a, b[..|b| - 1], e);
    }
  }

  lemma TimesOne(x: Effect, e: Effect)
    ensures Times([x], e) == if x == e then 1 else 0
  {
    assert [x][..0] == [];
  }

  lemma TimesSetup(e: Effect)
    ensures Times(SETUP, e) == if e in SETUP then 1 else 0
  {
    assert SETUP == [Checkout] + [Bundles] + [StartServices];
    TimesConcat([Checkout] + [Bundles], [StartServices], e);
    TimesConcat([Checkout], [Bundles], e);
    TimesOne(Checkout, e);
    TimesOne(Bundles, e);
    TimesOne(StartServices, e);
  }

  lemma {:induction false} TimesAbsent(trace: seq<Effect>, e: Effect)
    ensures Times(trace, e) == 0 <==> e !in trace
  {
    if trace != [] {
      var init := trace[..|trace| - 1];
      TimesAbsent(init, e);
      assert trace == init + [trace[|trace| - 1]];
    }
  }

  lemma {:induction false} StepsRunOnce(job: Job, w: World, n: nat, e: Effect)
    requires Fits(job, w) && n <= |job|
    ensures Times(StepsRun(job, w, n), e) <= 1
  {
    if n > 0 {
      var init, last := StepsRun(job, w, n - 1), if Runs(job, w, n - 1) then [RunStep(n - 1)] else [];
      StepsRunOnce(job, w, n - 1, e);
      StepsRunIff(job, w, n - 1, e);
      TimesAbsent(init, e);
      TimesConcat(init, last, e);
      TimesOne(RunStep(n - 1), e);
    }
  }

  lemma {:induction false} SaveEffectsIff(saves: seq<nat>, e: Effect)
    ensures e in SaveEffects(saves) <==> e.SaveCache? && e.i in saves
  {
    if saves != [] {
      var init, last := saves[..|saves| - 1], saves[|saves| - 1];
      SaveEffectsIff(init, e);
      assert saves == init + [last];
    }
  }

  lemma {:induction false} SavesIff(job: Job, w: World, n: nat, i: nat)
    requires Fits(job, w) && n <= |job|
    ensures i in Saves(job, w, n) <==> i < n && Runs(job, w, i) && SavesCache(w.outcomes[i])
  {
    if n > 0 { SavesIff(job, w, n - 1, i); }
  }

  /** What the job does after its steps. */
  ghost function AfterSteps(job: Job, w: World, k: nat): seq<Effect>
    requires Fits(job, w) && k <= |job|
  {
    (if k == |job| then SaveEffects(Saves(job, w, k)) else []) + [CleanServices, CleanCheckout]
  }

  lemma TraceShape(job: Job, w: World, k: nat)
    requires Fits(job, w) && StopsAt(job, w, k)
    ensures Finished(job, w, k).trace ==
            SETUP + StepsRun(job, w, Visited(job, w, k)) + AfterSteps(job, w, k)
  {
    var ran, clean := SETUP + StepsRun(job, w, Visited(job, w, k)), [CleanServices, CleanCheckout];
    var saved := SaveEffects(Saves(job, w, k));
    assert ran + saved + clean == ran + (saved + clean);
    assert [] + clean == clean;
  }

  /** A step runs, once, exactly when its turn comes and its condition holds then;
      no step after the one that stops the job runs. */
  lemma StepRunsIff(job: Job, w: World, k: nat, r: Result, i: nat)
    requires Fits(job, w) && Reports(job, w, k, r) && i < |job|
    ensures RunStep(i) in r.trace <==> SetupOk(w) && i < Visited(job, w, k) && Runs(job, w, i)
    ensures Times(r.trace, RunStep(i)) <= 1
    ensures SetupOk(w) && i > k ==> RunStep(i) !in r.trace
  {
    if SetupOk(w) {
      var n, e, ran := Visited(job, w, k), RunStep(i), StepsRun(job, w, Visited(job, w, k));
      TraceShape(job, w, k);
      StepsRunIff(job, w, n, e);
      NotAfterSteps(job, w, k, e);
      assert e in r.trace <==> e in ran;
      StepsRunOnce(job, w, n, e);
      TimesInTrace(job, w, k, e);
      TimesAbsent(AfterSteps(job, w, k), e);
    } else {
      TimesAbsent(r.trace, RunStep(i));
    }
  }

  lemma TimesInTrace(job: Job, w: World, k: nat, e: Effect)
    requires Fits(job, w) && StopsAt(job, w, k)
    ensures Times(Finished(job, w, k).trace, e) ==
            (if e in SETUP then 1 else 0) + Times(StepsRun(job, w, Visited(job, w, k)), e) + Times(AfterSteps(job, w, k), e)
  {
    var ran := StepsRun(job, w, Visited(job, w, k));
    TraceShape(job, w, k);
    TimesConcat(SETUP + ran, AfterSteps(job, w, k), e);
    TimesConcat(SETUP, ran, e);
    TimesSetup(e);
  }

  lemma NotAfterSteps(job: Job, w: World, k: nat, e: Effect)
    requires Fits(job, w) && k <= |job|
    ensures e in AfterSteps(job, w, k) <==>
            || e == CleanServices || e == CleanCheckout
            || (k == |job| && e.SaveCache? && e.i in Saves(job, w, k))
  {
    SaveEffectsIff(Saves(job, w, k), e);
  }

  /** A cache is saved exactly when the job succeeds and the step that asked for
      it ran; so never after a fatal failure or a cancellation. */
  lemma CacheSavedIff(job: Job, w: World, k: nat, r: Result, i: nat)
    requires Fits(job, w) && Reports(job, w, k, r) && i < |job|
    ensures SaveCache(i) in r.trace <==>
            r.conclusion == Success && Runs(job, w, i) && SavesCache(w.outcomes[i])
  {
    if SetupOk(w) {
      var e := SaveCache(i);
      TraceShape(job, w, k);
      StepsRunIff(job, w, Visited(job, w, k), e);
      NotAfterSteps(job, w, k, e);
      SavesIff(job, w, k, i);
      assert e in r.trace <==> e in AfterSteps(job, w, k);
    }
  }

  lemma CleansOnceAfterSteps(job: Job, w: World, k: nat)
    requires Fits(job, w) && k <= |job|
    ensures Times(AfterSteps(job, w, k), CleanServices) == 1
    ensures Times(AfterSteps(job, w, k), CleanCheckout) == 1
  {
    var saved := if k == |job| then SaveEffects(Saves(job, w, k)) else [];
    var clean := [CleanServices, CleanCheckout];
    forall e | e == CleanServices || e == CleanCheckout
      ensures Times(saved + clean, e) == 1
    {
      SaveEffectsIff(Saves(job, w, k), e);
      TimesAbsent(saved, e);
      TimesConcat(saved, clean, e);
      assert clean == [CleanServices] + [CleanCheckout];
      TimesConcat([CleanServices], [CleanCheckout], e);
      TimesOne(CleanServices, e);
      TimesOne(CleanCheckout, e);
    }
  }

  lemma SetupCleanup(w: World)
    requires !SetupOk(w)
    ensures var t := SetupFailure(w).trace;
            && Times(t, CleanServices) == (if StartServices in t then 1 else 0)
            && Times(t, CleanCheckout) == (if Checkout in t then 1 else 0)
            && (Checkout in t ==> |t| >= 2 && t[|t| - 1] == CleanCheckout)
            && (StartServices in t ==> t[|t| - 2] == CleanServices)
  {
    var t := SetupFailure(w).trace;
    assert |t| >= 1 ==> t == t[..|t| - 1] + [CleanCheckout];
    if |t| >= 1 {
      var body := t[..|t| - 1];
      forall e | e == CleanServices || e == CleanCheckout
        ensures Times(t, e) == Times(body, e) + (if e == CleanCheckout then 1 else 0)
      {
        TimesConcat(body, [CleanCheckout], e);
        TimesOne(CleanCheckout, e);
      }
      TimesAbsent(body, CleanCheckout);
      if |t| < 5 {
        TimesAbsent(body, CleanServices);
      } else {
        assert body == SETUP + [CleanServices];
        TimesConcat(SETUP, [CleanServices], CleanServices);
        TimesAbsent(SETUP, CleanServices);
        TimesOne(CleanServices, CleanServices);
      }
    }
  }

  /** Services are cleaned up once if they were started and the checkout once if
      it was attempted, in that order, whatever happened in between. */
  lemma CleanupOnce(job: Job, w: World, k: nat, r: Result)
    requires Fits(job, w) && Reports(job, w, k, r)
    ensures Times(r.trace, CleanServices) == if StartServices in r.trace then 1 else 0
    ensures Times(r.trace, CleanCheckout) == if Checkout in r.trace then 1 else 0
    ensures Checkout in r.trace ==> |r.trace| >= 2 && r.trace[|r.trace| - 1] == CleanCheckout
    ensures StartServices in r.trace ==> r.trace[|r.trace| - 2] == CleanServices
  {
    if SetupOk(w) {
      var ran := StepsRun(job, w, Visited(job, w, k));
      TraceShape(job, w, k);
      assert r.trace[0] == Checkout && r.trace[2] == StartServices;
      CleansOnceAfterSteps(job, w, k);
      StepsRunIff(job, w, Visited(job, w, k), CleanServices);
      StepsRunIff(job, w, Visited(job, w, k), CleanCheckout);
      TimesAbsent(ran, CleanServices);
      TimesAbsent(ran, CleanCheckout);
      TimesInTrace(job, w, k, CleanServices);
      TimesInTrace(job, w, k, CleanCheckout);
    } else {
      SetupCleanup(w);
    }
  }

  ghost predicate DistinctIds(job: Job)
  {
    forall i, j :: 0 <= i < j < |job| ==> job[i].id != job[j].id
  }

  lemma {:induction false} StatusesIff(job: Job, w: World, n: nat, i: nat)
    requires Fits(job, w) && DistinctIds(job) && n <= |job| && i < |job|
    ensures job[i].id in Statuses(job, w, n) <==> i < n
    ensures i < n ==> Statuses(job, w, n)[job[i].id] == StatusOf(job, w, i)
  {
    if n > 0 { StatusesIff(job, w, n - 1, i); }
  }

  /** With distinct step ids a status is reported for exactly the steps up to the
      one that stops the job, and it is the step's own. */
  lemma StatusReportedIff(job: Job, w: World, k: nat, r: Result, i: nat)
    requires Fits(job, w) && DistinctIds(job) && Reports(job, w, k, r) && i < |job|
    ensures job[i].id in r.statuses <==> SetupOk(w) && i <= k
    ensures job[i].id in r.statuses ==> r.statuses[job[i].id] == StatusOf(job, w, i)
  {
    if SetupOk(w) { StatusesIff(job, w, Min(k + 1, |job|), i); }
  }
}
