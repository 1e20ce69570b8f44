/** Command admission and cancellation: the dispatch loop, the tasks it spawns
    and the registry of cancel handles, as interleaved atomic steps. */
module CommandLoop {
  import opened Basics

  const MAX_CONCURRENT_COMMANDS: nat := 50

  const CANCEL_COMMAND: int := 99

  datatype Command = Command(id: string, kind: int)

  datatype Admission = AcquirePermit | BypassLimit | RejectBusy

  predicate IsControlPlane(kind: int) { kind in {99, 4, 123, 124, 140, 141, 142} }

  predicate IsStreaming(kind: int) { kind in {33, 44, 15, 24} }

  predicate BypassesLimit(kind: int) { IsControlPlane(kind) || IsStreaming(kind) }

  function AdmissionFor(kind: int, availablePermits: nat): Admission
  {
    if BypassesLimit(kind) then BypassLimit
    else if availablePermits == 0 then RejectBusy
    else AcquirePermit
  }

  // ----- the registry of cancel handles

  /** The abort handle of a task and, for CI jobs, the flag the job polls. */
  datatype CommandCancel = CommandCancel(abort: nat, signal: Option<nat>)

  /** Command id to the handle of its task. Handles and flags are shared with the
      tasks: `aborted` and `signalled` hold those that have been set. */
  class CommandCancels {
    var inner: map<string, CommandCancel>
    var aborted: set<nat>
    var signalled: set<nat>

    constructor ()
      ensures inner == map[] && aborted == {} && signalled == {}
    {
      inner, aborted, signalled := map[], {}, {};
    }

    method Register(commandId: string, cancel: CommandCancel)
      modifies this`inner
      ensures inner == Registered(old(inner), commandId, cancel)
    {
      if commandId == "" {
        return;
      }
      inner := inner[commandId := cancel];
    }

    /** Reaches exactly the task and the flag registered last under the id. */
    method Cancel(commandId: string) returns (found: bool)
      modifies this`aborted, this`signalled
      ensures found <==> commandId in inner
      ensures aborted == old(aborted) + if found then {inner[commandId].abort} else {}
      ensures signalled == old(signalled) + if found && inner[commandId].signal.Some? then {inner[commandId].signal.value} else {}
    {
      if commandId in inner {
        var cancel := inner[commandId];
        if cancel.signal.Some? {
          signalled := signalled + {cancel.signal.value};
        }
        aborted := aborted + {cancel.abort};
        return true;
      }
      return false;
    }

    method Remove(commandId: string)
      modifies this`inner
      ensures inner == old(inner) - {commandId}
    {
      inner := inner - {commandId};
    }
  }

  /** An empty id is never registered; a reused id replaces the earlier handle. */
  function Registered<T>(inner: map<string, T>, id: string, cancel: T): map<string, T>
  {
    if id == "" then inner else inner[id := cancel]
  }

  // ----- tasks

  /** Where a spawned task is. An abort is looked for before and after each poll
      of the handler; a handler that ends inside a poll has ended. */
  datatype Phase =
    | Running
    | Polling
    | Finished(sent: bool)
    | Aborted
    | Removed(aborted: bool, sent: bool)
    | Closed(aborted: bool, sent: bool)

  datatype Task = Task(command: Command, permit: bool, abortRequested: bool, phase: Phase)

  /** The task has not yet been taken out of the registry. */
  predicate Live(t: Task) { !t.phase.Removed? && !t.phase.Closed? }

  predicate HoldsPermit(t: Task) { t.permit && !t.phase.Closed? }

  datatype Result = Result(task: nat, cancelled: bool)

  datatype Dispatch = Idle | Admitting(command: Command, admission: Admission)

  /** `next` is also the number of tasks spawned; `handles` are the cancel handles
      taken from the registry and not used yet. */
  datatype State = State(received: nat, dispatch: Dispatch, tasks: map<nat, Task>, next: nat, free: nat,
                         registry: map<string, nat>, handles: set<nat>,
                         invalid: seq<Command>, cancels: seq<Command>, busy: seq<Command>, results: seq<Result>)

  function Initial(): State
  {
    State(0, Idle, map[], 0, MAX_CONCURRENT_COMMANDS, map[], {}, [], [], [], [])
  }

  /** `valid` says whether the command's type is a known one; `LookUp` and `Abort`
      are the two halves of a cancellation, which drops the lock in between. */
  datatype Event =
    | Receive(command: Command, valid: bool)
    | Proceed
    | LookUp(target: string)
    | Abort(task: nat)
    | StartPoll(task: nat)
    | EndPoll(task: nat, ready: bool, sends: bool)
    | Remove(task: nat)
    | Close(task: nat)

  // ----- steps

  /** Invalid and cancel commands are answered outside the limit; for the others
      the free permits are read and the admission decided. */
  function StepReceive(s: State, c: Command, valid: bool): State
  {
    if !s.dispatch.Idle? then s
    else
      var s := s.(received := s.received + 1);
      if !valid then s.(invalid := s.invalid + [c])
      else if c.kind == CANCEL_COMMAND then s.(cancels := s.cancels + [c])
      else s.(dispatch := Admitting(c, AdmissionFor(c.kind, s.free)))
  }

  function Spawn(s: State, c: Command, permit: bool): State
  {
    s.(dispatch := Idle,
       tasks := s.tasks[s.next := Task(c, permit, false, Running)],
       next := s.next + 1,
       registry := Registered(s.registry, c.id, s.next))
  }

  function RejectAsBusy(s: State, c: Command): State { s.(dispatch := Idle, busy := s.busy + [c]) }

  function StepProceed(s: State): State
  {
    match s.dispatch
    case Idle => s
    case Admitting(c, BypassLimit) => Spawn(s, c, false)
    case Admitting(c, RejectBusy) => RejectAsBusy(s, c)
    case Admitting(c, AcquirePermit) =>
      if s.free == 0 then RejectAsBusy(s, c) else Spawn(s.(free := s.free - 1), c, true)
  }

  function StepLookUp(s: State, target: string): State
  {
    if target in s.registry then s.(handles := s.handles + {s.registry[target]}) else s
  }

  function StepAbort(s: State, t: nat): State
  {
    if t in s.handles && t in s.tasks then
      s.(handles := s.handles - {t}, tasks := s.tasks[t := s.tasks[t].(abortRequested := true)])
    else s
  }

  function SetPhase(s: State, t: nat, phase: Phase): State
    requires t in s.tasks
  {
    s.(tasks := s.tasks[t := s.tasks[t].(phase := phase)])
  }

  function StepStartPoll(s: State, t: nat): State
  {
    if t in s.tasks && s.tasks[t].phase == Running then
      SetPhase(s, t, if s.tasks[t].abortRequested then Aborted else Polling)
    else s
  }

  /** A ready handler has sent its final result, or ended with an error. */
  function StepEndPoll(s: State, t: nat, ready: bool, sends: bool): State
  {
    if t in s.tasks && s.tasks[t].phase == Polling then
      if ready then
        var s' := SetPhase(s, t, Finished(sends));
        if sends then s'.(results := s.results + [Result(t, false)]) else s'
      else SetPhase(s, t, if s.tasks[t].abortRequested then Aborted else Running)
    else s
  }

  function StepRemove(s: State, t: nat): State
  {
    if t in s.tasks && (s.tasks[t].phase.Finished? || s.tasks[t].phase.Aborted?) then
      var p := s.tasks[t].phase;
      SetPhase(s, t, Phase.Removed(p.Aborted?, p.Finished? && p.sent)).(registry := s.registry - {s.tasks[t].command.id})
    else s
  }

  /** An aborted task sends the cancelled result; then the permit is given back. */
  function StepClose(s: State, t: nat): State
  {
    if t in s.tasks && s.tasks[t].phase.Removed? then
      var task := s.tasks[t];
      var s' := SetPhase(s, t, Closed(task.phase.aborted, task.phase.sent));
      s'.(free := if task.permit then s.free + 1 else s.free,
          results := if task.phase.aborted then s.results + [Result(t, true)] else s.results)
    else s
  }

  function Step(s: State, e: Event): State
  {
    match e
    case Receive(c, valid) => StepReceive(s, c, valid)
    case Proceed => StepProceed(s)
    case LookUp(target) => StepLookUp(s, target)
    case Abort(t) => StepAbort(s, t)
    case StartPoll(t) => StepStartPoll(s, t)
    case EndPoll(t, ready, sends) => StepEndPoll(s, t, ready, sends)
    case Remove(t) => StepRemove(s, t)
    case Close(t) => StepClose(s, t)
  }

  function RunFrom(s: State, events: seq<Event>): State
    decreases |events|
  {
    if events == [] then s else RunFrom(Step(s, events[0]), events[1..])
  }

  // ----- what every run keeps

  ghost function Holders(tasks: map<nat, Task>): set<nat> { set t | t in tasks && HoldsPermit(tasks[t]) }

  ghost predicate PermitsCounted(s: State) { s.free + |Holders(s.tasks)| == MAX_CONCURRENT_COMMANDS }

  /** No task still registered has this id. */
  ghost predicate FreshId(s: State, id: string)
  {
    id == "" || forall t :: t in s.tasks && Live(s.tasks[t]) ==> s.tasks[t].command.id != id
  }

  /** The registry's keys are exactly the non-empty ids of the tasks spawned and
      not yet removed, each with its own task. */
  ghost predicate RegistryExact(s: State)
  {
    && (forall id :: id in s.registry ==>
          id != "" && s.registry[id] in s.tasks && Live(s.tasks[s.registry[id]])
          && s.tasks[s.registry[id]].command.id == id)
    && (forall t :: t in s.tasks && Live(s.tasks[t]) && s.tasks[t].command.id != "" ==>
          s.tasks[t].command.id in s.registry && s.registry[s.tasks[t].command.id] == t)
  }

  predicate HasSent(p: Phase)
  {
    match p
    case Finished(sent) => sent
    case Removed(_, sent) => sent
    case Closed(_, sent) => sent
    case _ => false
  }

  /** The task was stopped by an abort before its handler ended. */
  predicate WasAborted(p: Phase)
  {
    match p
    case Aborted => true
    case Removed(aborted, _) => aborted
    case Closed(aborted, _) => aborted
    case _ => false
  }

  /** A final result for each task whose handler sent one, the cancelled one for
      each that was aborted before its handler ended, and nothing else. */
  ghost predicate ResultsExact(s: State)
  {
    && (forall t, c :: Result(t, c) in s.results ==> t in s.tasks)
    && (forall t :: t in s.tasks ==> (Result(t, false) in s.results <==> HasSent(s.tasks[t].phase)))
    && (forall t :: t in s.tasks ==>
          (Result(t, true) in s.results <==> s.tasks[t].phase.Closed? && WasAborted(s.tasks[t].phase)))
    && (forall t :: t in s.tasks && WasAborted(s.tasks[t].phase) ==>
          s.tasks[t].abortRequested && !HasSent(s.tasks[t].phase))
  }

  /** No task has two final results. */
  ghost predicate ResultsOnce(s: State)
  {
    forall i, j :: 0 <= i < j < |s.results| ==> s.results[i].task != s.results[j].task
  }

  /** A permit that was seen free is still free, and only commands that need one
      are ever turned away. */
  ghost predicate AdmissionSound(s: State)
  {
    && (s.dispatch.Admitting? ==>
          && (s.dispatch.admission == BypassLimit <==> BypassesLimit(s.dispatch.command.kind))
          && (s.dispatch.admission == AcquirePermit ==> s.free > 0)
          && FreshId(s, s.dispatch.command.id))
    && (forall c :: c in s.busy ==> !BypassesLimit(c.kind))
  }

  /** Every received command is answered as invalid, cancels another, is turned
      away, is spawned, or is just being admitted: one of these, once. */
  predicate Routed(s: State)
  {
    s.received == |s.invalid| + |s.cancels| + |s.busy| + s.next + (if s.dispatch.Admitting? then 1 else 0)
  }

  ghost predicate Inv(s: State)
  {
    && PermitsCounted(s)
    && RegistryExact(s)
    && ResultsExact(s)
    && ResultsOnce(s)
    && AdmissionSound(s)
    && Routed(s)
    && (forall t: nat :: t in s.tasks <==> t < s.next)
  }

  /** Received commands do not reuse the id of a command still in the registry. */
  ghost predicate Allowed(s: State, e: Event) { e.Receive? ==> FreshId(s, e.command.id) }

  ghost predicate AllAllowed(s: State, events: seq<Event>)
    decreases |events|
  {
    events == [] || (Allowed(s, events[0]) && AllAllowed(Step(s, events[0]), events[1..]))
  }

  lemma HoldersSame(before: map<nat, Task>, after: map<nat, Task>)
    requires before.Keys == after.Keys
    requires forall t :: t in before ==> (HoldsPermit(before[t]) <==> HoldsPermit(after[t]))
    ensures Holders(before) == Holders(after)
  {
  }

  lemma HoldersAdd(tasks: map<nat, Task>, t: nat, task: Task)
    requires t !in tasks && HoldsPermit(task)
    ensures |Holders(tasks[t := task])| == |Holders(tasks)| + 1
  {
    assert Holders(tasks[t := task]) == Holders(tasks) + {t};
  }

  lemma HoldersSkip(tasks: map<nat, Task>, t: nat, task: Task)
    requires t !in tasks && !HoldsPermit(task)
    ensures Holders(tasks[t := task]) == Holders(tasks)
  {
  }

  lemma HoldersDrop(tasks: map<nat, Task>, t: nat, task: Task)
    requires t in tasks && HoldsPermit(tasks[t]) && !HoldsPermit(task)
    ensures |Holders(tasks[t := task])| == |Holders(tasks)| - 1
  {
    assert Holders(tasks) == Holders(tasks[t := task]) + {t};
  }

  /** Spawning keeps the registry exact if and only if no task still registered
      has the new command's id. */
  lemma SpawnExactIff(s: State, c: Command, permit: bool)
    requires RegistryExact(s) && s.next !in s.tasks
    ensures RegistryExact(Spawn(s, c, permit)) <==> FreshId(s, c.id)
  {
    if !FreshId(s, c.id) {
      var t :| t in s.tasks && Live(s.tasks[t]) && s.tasks[t].command.id == c.id;
      var s' := Spawn(s, c, permit);
      assert s'.tasks[t] == s.tasks[t] && s'.registry[c.id] == s.next;
    }
  }

  lemma SpawnKeepsResults(s: State, c: Command, permit: bool)
    requires ResultsExact(s) && s.next !in s.tasks
    ensures ResultsExact(Spawn(s, c, permit))
  {
  }

  lemma SpawnKeepsInv(s: State, c: Command, permit: bool)
    requires Inv(s) && s.dispatch.Admitting? && FreshId(s, c.id)
    requires permit ==> s.free > 0
    ensures Inv(Spawn(if permit then s.(free := s.free - 1) else s, c, permit))
  {
    var task := Task(c, permit, false, Running);
    if permit { HoldersAdd(s.tasks, s.next, task); } else { HoldersSkip(s.tasks, s.next, task); }
    var from := if permit then s.(free := s.free - 1) else s;
    SpawnExactIff(from, c, permit);
    SpawnKeepsResults(from, c, permit);
  }

  lemma ProceedKeepsInv(s: State)
    requires Inv(s)
    ensures Inv(StepProceed(s))
  {
    match s.dispatch
    case Idle =>
    case Admitting(c, BypassLimit) => SpawnKeepsInv(s, c, false);
    case Admitting(c, RejectBusy) =>
    case Admitting(c, AcquirePermit) => SpawnKeepsInv(s, c, true);
  }

  /** A change of a task that shows in no permit, registration or result. */
  predicate Unseen(before: Task, after: Task)
  {
    && after.command == before.command && after.permit == before.permit
    && Live(before) && Live(after)
    && !HasSent(before.phase) && !HasSent(after.phase)
    && (WasAborted(after.phase) ==> after.abortRequested)
  }

  lemma UnseenKeepsResults(s: State, s': State, t: nat)
    requires ResultsExact(s) && t in s.tasks && t in s'.tasks && Unseen(s.tasks[t], s'.tasks[t])
    requires s'.tasks == s.tasks[t := s'.tasks[t]] && s'.results == s.results
    ensures ResultsExact(s')
  {
  }

  lemma UnseenKeepsRegistry(s: State, s': State, t: nat)
    requires RegistryExact(s) && t in s.tasks && t in s'.tasks && Unseen(s.tasks[t], s'.tasks[t])
    requires s'.tasks == s.tasks[t := s'.tasks[t]] && s'.registry == s.registry
    ensures RegistryExact(s')
    ensures forall id :: FreshId(s, id) ==> FreshId(s', id)
  {
  }

  lemma UnseenKeepsInv(s: State, s': State, t: nat)
    requires Inv(s) && t in s.tasks && t in s'.tasks && Unseen(s.tasks[t], s'.tasks[t])
    requires s'.tasks == s.tasks[t := s'.tasks[t]] && s' == s.(tasks := s'.tasks, handles := s'.handles)
    ensures Inv(s')
  {
    HoldersSame(s.tasks, s'.tasks);
    UnseenKeepsResults(s, s', t);
    UnseenKeepsRegistry(s, s', t);
  }

  lemma AbortKeepsInv(s: State, t: nat)
    requires Inv(s)
    ensures Inv(StepAbort(s, t))
  {
    if t in s.handles && t in s.tasks {
      var s' := StepAbort(s, t);
      HoldersSame(s.tasks, s'.tasks);
      AbortKeepsResults(s, s', t);
      AbortKeepsRegistry(s, s', t);
    }
  }

  lemma AbortKeepsResults(s: State, s': State, t: nat)
    requires ResultsExact(s) && t in s.tasks && s'.results == s.results
    requires s'.tasks == s.tasks[t := s.tasks[t].(abortRequested := true)]
    ensures ResultsExact(s')
  {
  }

  lemma AbortKeepsRegistry(s: State, s': State, t: nat)
    requires RegistryExact(s) && t in s.tasks && s'.registry == s.registry
    requires s'.tasks == s.tasks[t := s.tasks[t].(abortRequested := true)]
    ensures RegistryExact(s')
    ensures forall id :: FreshId(s, id) ==> FreshId(s', id)
  {
  }

  lemma StartPollKeepsInv(s: State, t: nat)
    requires Inv(s)
    ensures Inv(StepStartPoll(s, t))
  {
    if t in s.tasks && s.tasks[t].phase == Running { UnseenKeepsInv(s, StepStartPoll(s, t), t); }
  }

  /** A task that goes on, without a result, keeps everything. */
  lemma PhaseKeepsInv(s: State, t: nat, phase: Phase)
    requires Inv(s) && t in s.tasks && s.tasks[t].phase == Polling
    requires phase == Running || (phase == Aborted && s.tasks[t].abortRequested) || phase == Finished(false)
    ensures Inv(SetPhase(s, t, phase))
  {
    UnseenKeepsInv(s, SetPhase(s, t, phase), t);
  }

  /** A result for a task that had none. */
  lemma SendKeepsOnce(s: State, s': State, r: Result)
    requires ResultsOnce(s) && ResultsExact(s)
    requires r.task in s.tasks && !HasSent(s.tasks[r.task].phase) && !s.tasks[r.task].phase.Closed?
    requires s'.results == s.results + [r]
    ensures ResultsOnce(s')
    ensures forall q :: q in s'.results <==> q in s.results || q == r
  {
    forall i | 0 <= i < |s.results| ensures s.results[i].task != r.task {
      var q := s.results[i];
      assert Result(q.task, q.cancelled) in s.results;
    }
  }

  lemma SentKeepsInv(s: State, t: nat)
    requires Inv(s) && t in s.tasks && s.tasks[t].phase == Polling
    ensures Inv(StepEndPoll(s, t, true, true))
  {
    var s' := StepEndPoll(s, t, true, true);
    HoldersSame(s.tasks, s'.tasks);
    SentKeepsResults(s, s', t);
    SentKeepsRegistry(s, s', t);
  }

  lemma SentKeepsResults(s: State, s': State, t: nat)
    requires ResultsExact(s) && ResultsOnce(s) && t in s.tasks && s.tasks[t].phase == Polling
    requires s'.tasks == s.tasks[t := s.tasks[t].(phase := Finished(true))] && s'.results == s.results + [Result(t, false)]
    ensures ResultsExact(s') && ResultsOnce(s')
  {
    SendKeepsOnce(s, s', Result(t, false));
  }

  lemma SentKeepsRegistry(s: State, s': State, t: nat)
    requires RegistryExact(s) && t in s.tasks && s.tasks[t].phase == Polling && s'.registry == s.registry
    requires s'.tasks == s.tasks[t := s.tasks[t].(phase := Finished(true))]
    ensures RegistryExact(s')
    ensures forall id :: FreshId(s, id) ==> FreshId(s', id)
  {
  }

  lemma EndPollKeepsInv(s: State, t: nat, ready: bool, sends: bool)
    requires Inv(s)
    ensures Inv(StepEndPoll(s, t, ready, sends))
  {
    if t in s.tasks && s.tasks[t].phase == Polling {
      if ready && sends {
        SentKeepsInv(s, t);
      } else {
        PhaseKeepsInv(s, t, if ready then Finished(false) else if s.tasks[t].abortRequested then Aborted else Running);
      }
    }
  }

  lemma RemoveKeepsRegistry(s: State, t: nat)
    requires RegistryExact(s)
    ensures RegistryExact(StepRemove(s, t))
  {
  }

  lemma RemoveKeepsResults(s: State, t: nat)
    requires ResultsExact(s)
    ensures ResultsExact(StepRemove(s, t))
  {
  }

  lemma RemoveKeepsInv(s: State, t: nat)
    requires Inv(s)
    ensures Inv(StepRemove(s, t))
  {
    RemoveKeepsRegistry(s, t);
    RemoveKeepsResults(s, t);
    HoldersSame(s.tasks, StepRemove(s, t).tasks);
  }

  lemma CloseKeepsPermits(s: State, t: nat)
    requires PermitsCounted(s)
    ensures PermitsCounted(StepClose(s, t))
  {
    if t in s.tasks && s.tasks[t].phase.Removed? {
      var task := s.tasks[t];
      var closed := task.(phase := Closed(task.phase.aborted, task.phase.sent));
      if task.permit { HoldersDrop(s.tasks, t, closed); } else { HoldersSame(s.tasks, s.tasks[t := closed]); }
    }
  }

  lemma CloseKeepsResults(s: State, t: nat)
    requires ResultsExact(s) && ResultsOnce(s)
    ensures ResultsExact(StepClose(s, t)) && ResultsOnce(StepClose(s, t))
  {
    if t in s.tasks && s.tasks[t].phase.Removed? && s.tasks[t].phase.aborted {
      SendKeepsOnce(s, StepClose(s, t), Result(t, true));
    }
  }

  lemma CloseKeepsInv(s: State, t: nat)
    requires Inv(s)
    ensures Inv(StepClose(s, t))
  {
    CloseKeepsPermits(s, t);
    CloseKeepsResults(s, t);
  }

  /** The dispatch loop's accounting: permits, registry, results, admission and
      routing survive every step of every task. */
  lemma StepKeepsInv(s: State, e: Event)
    requires Inv(s) && Allowed(s, e)
    ensures Inv(Step(s, e))
  {
    match e
    case Receive(c, valid) =>
    case Proceed => ProceedKeepsInv(s);
    case LookUp(target) =>
    case Abort(t) => AbortKeepsInv(s, t);
    case StartPoll(t) => StartPollKeepsInv(s, t);
    case EndPoll(t, ready, sends) => EndPollKeepsInv(s, t, ready, sends);
    case Remove(t) => RemoveKeepsInv(s, t);
    case Close(t) => CloseKeepsInv(s, t);
  }

  lemma {:induction false} RunFromKeepsInv(s: State, events: seq<Event>)
    requires Inv(s) && AllAllowed(s, events)
    ensures Inv(RunFrom(s, events))
    decreases |events|
  {
    if events != [] {
      StepKeepsInv(s, events[0]);
      RunFromKeepsInv(Step(s, events[0]), events[1..]);
    }
  }

  /** Over every interleaving in which ids are not reused while registered: all
      permits are accounted for and at most 50 are held, the registry is exact,
      every task has one final result at most, the cancelled one if and only if it
      was aborted before it ended, and no exempt command is turned away. */
  lemma RunKeepsInv(events: seq<Event>)
    requires AllAllowed(Initial(), events)
    ensures var s := RunFrom(Initial(), events);
            Inv(s) && |Holders(s.tasks)| <= 50 && forall c :: c in s.busy ==> !BypassesLimit(c.kind)
  {
    RunFromKeepsInv(Initial(), events);
  }

  /** A valid command is turned away if and only if it needs a permit and all 50
      are held; one that is not turned away gets a task, so the fallback for a
      permit that vanished between the check and the acquisition is never taken. */
  lemma BusyIffFull(s: State, c: Command)
    requires Inv(s) && s.dispatch == Idle && FreshId(s, c.id) && c.kind != CANCEL_COMMAND
    ensures var s' := StepProceed(StepReceive(s, c, true));
            if !BypassesLimit(c.kind) && |Holders(s.tasks)| == 50
            then s'.busy == s.busy + [c] && s'.tasks == s.tasks
            else s'.busy == s.busy && s'.tasks.Keys == s.tasks.Keys + {s.next} && s'.tasks[s.next].command == c
  {
  }

  /** An acquisition decided on never fails, whatever happens before it. */
  lemma AcquireNeverFails(s: State)
    requires Inv(s) && s.dispatch.Admitting? && s.dispatch.admission != RejectBusy
    ensures StepProceed(s).busy == s.busy && s.next in StepProceed(s).tasks
  {
  }

  /** The ways on from a task that is aborted between polls. */
  predicate Doomed(t: Task)
  {
    t.abortRequested && !HasSent(t.phase) && (t.phase == Running || WasAborted(t.phase))
  }

  /** A task aborted between polls never sends a result of its own: whatever
      follows, once closed it has sent the cancelled one and no other. */
  lemma {:induction false} AbortedNeverCompletes(s: State, events: seq<Event>, t: nat)
    requires Inv(s) && AllAllowed(s, events)
    requires t in s.tasks && Doomed(s.tasks[t])
    ensures var s' := RunFrom(s, events);
            && t in s'.tasks
            && Doomed(s'.tasks[t])
            && Result(t, false) !in s'.results
            && (s'.tasks[t].phase.Closed? ==> Result(t, true) in s'.results)
    decreases |events|
  {
    if events != [] {
      StepKeepsInv(s, events[0]);
      DoomedStays(s, events[0], t);
      AbortedNeverCompletes(Step(s, events[0]), events[1..], t);
    }
  }

  lemma DoomedStays(s: State, e: Event, t: nat)
    requires t in s.tasks && t < s.next && Doomed(s.tasks[t])
    ensures t in Step(s, e).tasks && Doomed(Step(s, e).tasks[t])
  {
  }

  /** How far an aborted task is on its way out. */
  function Progress(p: Phase): nat
  {
    match p
    case Aborted => 1
    case Removed(_, _) => 2
    case Closed(_, _) => 3
    case _ => 0
  }

  lemma ProgressStays(s: State, e: Event, t: nat)
    requires t in s.tasks && t < s.next && Doomed(s.tasks[t])
    ensures t in Step(s, e).tasks && Progress(Step(s, e).tasks[t].phase) >= Progress(s.tasks[t].phase)
  {
  }

  /** The step of the task itself that is due at each point. */
  predicate OwnStep(e: Event, t: nat, progress: nat)
  {
    (progress == 0 && e == StartPoll(t)) || (progress == 1 && e == Remove(t)) || (progress == 2 && e == Close(t))
  }

  lemma OwnStepProgresses(s: State, e: Event, t: nat, progress: nat)
    requires t in s.tasks && t < s.next && Doomed(s.tasks[t]) && Progress(s.tasks[t].phase) >= progress
    requires OwnStep(e, t, progress)
    ensures t in Step(s, e).tasks && Progress(Step(s, e).tasks[t].phase) >= progress + 1
  {
    if Progress(s.tasks[t].phase) > progress { ProgressStays(s, e, t); }
  }

  /** The events hold the steps of the task from `progress` on, in order. */
  ghost predicate StepsOf(events: seq<Event>, t: nat, progress: nat)
    decreases |events|
  {
    progress >= 3 ||
    (events != [] && StepsOf(events[1..], t, if OwnStep(events[0], t, progress) then progress + 1 else progress))
  }

  /** Whatever other steps come in between: once an aborted task has taken its own, it
      is closed, has sent the cancelled result and no other, and holds no permit. */
  lemma {:induction false} AbortedCloses(s: State, events: seq<Event>, t: nat, progress: nat)
    requires Inv(s) && AllAllowed(s, events)
    requires t in s.tasks && Doomed(s.tasks[t]) && Progress(s.tasks[t].phase) >= progress
    requires StepsOf(events, t, progress)
    ensures var s' := RunFrom(s, events);
            && t in s'.tasks && s'.tasks[t].phase.Closed?
            && Result(t, true) in s'.results && Result(t, false) !in s'.results
            && t !in Holders(s'.tasks)
    decreases |events|
  {
    if events == [] {
      AbortedNeverCompletes(s, events, t);
    } else {
      var e, s1 := events[0], Step(s, events[0]);
      StepKeepsInv(s, e);
      DoomedStays(s, e, t);
      ProgressStays(s, e, t);
      if OwnStep(e, t, progress) {
        OwnStepProgresses(s, e, t, progress);
        AbortedCloses(s1, events[1..], t, progress + 1);
      } else {
        AbortedCloses(s1, events[1..], t, progress);
      }
    }
  }

  /** In particular its own three steps can always be taken and do it. */
  lemma AbortedCanClose(s: State, t: nat)
    requires Inv(s) && t in s.tasks && Doomed(s.tasks[t])
    ensures var s' := RunFrom(s, [StartPoll(t), Remove(t), Close(t)]);
            && t in s'.tasks && s'.tasks[t].phase.Closed?
            && Result(t, true) in s'.results && Result(t, false) !in s'.results
            && s'.free == s.free + (if HoldsPermit(s.tasks[t]) then 1 else 0)
  {
    FreedByThree(s, t);
    ThreeOwnSteps(t);
    ThreeAllowed(s, StartPoll(t), Remove(t), Close(t));
    AbortedCloses(s, [StartPoll(t), Remove(t), Close(t)], t, 0);
  }

  lemma FreedByThree(s: State, t: nat)
    requires t in s.tasks && Doomed(s.tasks[t])
    ensures RunFrom(s, [StartPoll(t), Remove(t), Close(t)]).free
            == s.free + (if HoldsPermit(s.tasks[t]) then 1 else 0)
  {
    var s1 := StepStartPoll(s, t);
    var s2 := StepRemove(s1, t);
    RunThrough([s, s1, s2, StepClose(s2, t)], [StartPoll(t), Remove(t), Close(t)]);
  }

  lemma ThreeOwnSteps(t: nat)
    ensures StepsOf([StartPoll(t), Remove(t), Close(t)], t, 0)
  {
    var events := [StartPoll(t), Remove(t), Close(t)];
    assert events[1..] == [Remove(t), Close(t)] && [Remove(t), Close(t)][1..] == [Close(t)];
    assert StepsOf([Close(t)][1..], t, 3);
    assert StepsOf([Close(t)], t, 2);
    assert StepsOf([Remove(t), Close(t)], t, 1);
  }

  lemma ThreeAllowed(s: State, a: Event, b: Event, c: Event)
    requires !a.Receive? && !b.Receive? && !c.Receive?
    ensures AllAllowed(s, [a, b, c])
  {
    var s2 := Step(Step(s, a), b);
    assert [a, b, c][1..] == [b, c] && [b, c][1..] == [c];
    assert AllAllowed(Step(s2, c), [c][1..]);
    assert AllAllowed(s2, [c]);
    assert AllAllowed(Step(s, a), [b, c]);
  }

  /** A second command with the id of one that still runs: once the first task is
      done and removed, the second runs on and no cancellation finds it. */
  lemma ReusedIdCannotBeCancelled(c: Command)
    requires c.id != "" && c.kind != CANCEL_COMMAND
    ensures var s := RunFrom(Initial(), [Receive(c, true), Proceed, Receive(c, true), Proceed,
                                         StartPoll(0), EndPoll(0, true, true), Remove(0)]);
            && 1 in s.tasks && s.tasks[1].command == c && s.tasks[1].phase == Running
            && c.id !in s.registry && StepLookUp(s, c.id) == s
  {
    var first, second := [Receive(c, true), Proceed, Receive(c, true), Proceed], [StartPoll(0), EndPoll(0, true, true), Remove(0)];
    var s := TakeTwo(c);
    FirstEnds(s, c);
    RunConcat(Initial(), first, second);
    assert first + second == [Receive(c, true), Proceed, Receive(c, true), Proceed,
                              StartPoll(0), EndPoll(0, true, true), Remove(0)];
  }

  lemma TakeTwo(c: Command) returns (s: State)
    requires c.id != "" && c.kind != CANCEL_COMMAND
    ensures s == RunFrom(Initial(), [Receive(c, true), Proceed, Receive(c, true), Proceed])
    ensures 0 in s.tasks && 1 in s.tasks && s.tasks[0].command == s.tasks[1].command == c
    ensures s.tasks[0].phase == s.tasks[1].phase == Running && !s.tasks[0].abortRequested
    ensures s.registry == map[c.id := 1]
  {
    var s0 := Initial();
    var s1 := StepReceive(s0, c, true);
    var s2 := StepProceed(s1);
    var s3 := StepReceive(s2, c, true);
    s := StepProceed(s3);
    RunThrough([s0, s1, s2, s3, s], [Receive(c, true), Proceed, Receive(c, true), Proceed]);
  }

  lemma FirstEnds(s: State, c: Command)
    requires 0 in s.tasks && 1 in s.tasks && s.tasks[0].command == s.tasks[1].command == c
    requires s.tasks[0].phase == s.tasks[1].phase == Running && !s.tasks[0].abortRequested
    requires s.registry == map[c.id := 1]
    ensures var s' := RunFrom(s, [StartPoll(0), EndPoll(0, true, true), Remove(0)]);
            1 in s'.tasks && s'.tasks[1] == s.tasks[1] && s'.registry == map[]
  {
    var s1 := StepStartPoll(s, 0);
    var s2 := StepEndPoll(s1, 0, true, true);
    RunThrough([s, s1, s2, StepRemove(s2, 0)], [StartPoll(0), EndPoll(0, true, true), Remove(0)]);
  }

  lemma {:induction false} RunConcat(s: State, a: seq<Event>, b: seq<Event>)
    ensures RunFrom(s, a + b) == RunFrom(RunFrom(s, a), b)
    decreases |a|
  {
    if a == [] {
      assert a + b == b;
    } else {
      assert (a + b)[1..] == a[1..] + b;
      RunConcat(Step(s, a[0]), a[1..], b);
    }
  }

  lemma {:induction false} RunThrough(states: seq<State>, events: seq<Event>)
    requires |states| == |events| + 1
    requires forall i :: 0 <= i < |events| ==> states[i + 1] == Step(states[i], events[i])
    ensures RunFrom(states[0], events) == states[|events|]
    decreases |events|
  {
    if events != [] {
      assert states[1] == Step(states[0], events[0]);
      forall i | 0 <= i < |events| - 1 ensures states[1..][i + 1] == Step(states[1..][i], events[1..][i]) {
        assert states[i + 1 + 1] == Step(states[i + 1], events[i + 1]);
      }
      RunThrough(states[1..], events[1..]);
    }
  }
}
