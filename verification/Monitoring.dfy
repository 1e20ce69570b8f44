/** The health-check scheduler: which checks a tick starts, how completions free
    them, and the bounded buffer of results. Times are in nanoseconds. */
module Monitoring {
  import opened Basics

  const NANOS: nat := 1_000_000_000

  const DEFAULT_CHECK_INTERVAL: nat := 10 * NANOS

  const MAX_HEALTH_CHECKS: nat := 256

  const MAX_BUFFERED_RESULTS: nat := 4096

  datatype HealthCheck = HealthCheck(id: string, kind: string, target: string, intervalSeconds: int)

  datatype CheckState = CheckState(config: HealthCheck, lastRun: Option<nat>, inFlight: bool)

  datatype CheckResult = CheckResult(checkId: string, status: string)

  datatype MonitoringConfig = MonitoringConfig(version: int, checks: seq<HealthCheck>, statsdEnabled: bool, statsdPort: int)

  datatype Summary = Summary(version: int, healthChecks: nat, statsdEnabled: bool, statsdPort: int)

  type Checks = map<string, CheckState>

  /** What a check is known by. */
  datatype Name = Name(kind: string, id: string)

  function NameOf(c: HealthCheck): Name { Name(c.kind, c.id) }

  function KeyOf(n: Name): string { "check:" + n.kind + ":" + n.id }

  function CheckKey(c: HealthCheck): string { KeyOf(NameOf(c)) }

  predicate Supported(c: HealthCheck) { c.kind in {"http", "tcp", "process"} }

  function CheckInterval(c: HealthCheck): (r: nat)
    ensures r > 0
  {
    if c.intervalSeconds > 0 then c.intervalSeconds * NANOS else DEFAULT_CHECK_INTERVAL
  }

  // ----- configuration

  predicate Taken(c: HealthCheck, accepts: HealthCheck -> bool) { Supported(c) && accepts(c) }

  /** The checks of a configuration that are looked at. */
  function Firsts(cs: seq<HealthCheck>): seq<HealthCheck> { cs[..Min(|cs|, MAX_HEALTH_CHECKS)] }

  /** The checks configured by `cs`, the last of those sharing a key. */
  function Configured(cs: seq<HealthCheck>, accepts: HealthCheck -> bool): Checks
  {
    if cs == [] then map[]
    else
      var c := cs[|cs| - 1];
      var checks := Configured(cs[..|cs| - 1], accepts);
      if Taken(c, accepts) then checks[CheckKey(c) := CheckState(c, None, false)] else checks
  }

  /** Exactly the accepted checks are configured, idle and never run, each key by
      the last check that has it. */
  lemma {:induction false} ConfiguredMeans(cs: seq<HealthCheck>, accepts: HealthCheck -> bool, key: string)
    ensures var checks := Configured(cs, accepts);
            && |checks| <= |cs|
            && (key in checks <==> exists i :: 0 <= i < |cs| && Taken(cs[i], accepts) && CheckKey(cs[i]) == key)
            && (key in checks ==> exists i ::
                  && 0 <= i < |cs| && Taken(cs[i], accepts) && CheckKey(cs[i]) == key
                  && checks[key] == CheckState(cs[i], None, false)
                  && (forall j :: i < j < |cs| && Taken(cs[j], accepts) ==> CheckKey(cs[j]) != key))
    decreases |cs|
  {
    if cs != [] {
      var n := |cs| - 1;
      ConfiguredMeans(cs[..n], accepts, key);
      assert forall i :: 0 <= i < n ==> cs[..n][i] == cs[i];
      if Taken(cs[n], accepts) {
        GrowsByOne(Configured(cs[..n], accepts), CheckKey(cs[n]), CheckState(cs[n], None, false));
      }
    }
  }

  lemma GrowsByOne<T>(m: map<string, T>, k: string, v: T)
    ensures |m[k := v]| <= |m| + 1
  {
    if k in m {
      assert m[k := v].Keys == m.Keys;
      assert |m[k := v].Keys| == |m.Keys|;
    } else {
      assert m[k := v].Keys == m.Keys + {k};
      assert |m[k := v].Keys| == |m.Keys| + 1;
    }
  }

  /** Two supported checks share a key only if type and id agree. */
  lemma KeyInjective(a: HealthCheck, b: HealthCheck)
    requires Supported(a) && Supported(b)
    ensures CheckKey(a) == CheckKey(b) <==> a.kind == b.kind && a.id == b.id
  {
    var p := "check:";
    assert CheckKey(a)[|p|..] == a.kind + ":" + a.id && CheckKey(b)[|p|..] == b.kind + ":" + b.id;
    assert (a.kind + ":" + a.id)[0] == a.kind[0] && (b.kind + ":" + b.id)[0] == b.kind[0];
    if CheckKey(a) == CheckKey(b) {
      assert a.kind == b.kind;
      assert a.id == CheckKey(a)[|p| + |a.kind| + 1..] == b.id;
    }
  }

  // ----- the scheduler's steps on values

  predicate IsDue(c: CheckState, now: nat)
  {
    !c.inFlight && (c.lastRun.None? || Max(0, now - c.lastRun.value) >= CheckInterval(c.config))
  }

  function Started(c: CheckState, now: nat): CheckState
  {
    if IsDue(c, now) then c.(lastRun := Some(now), inFlight := true) else c
  }

  function StartDue(checks: Checks, now: nat): Checks { map k | k in checks :: Started(checks[k], now) }

  /** Every check with the id freed. */
  function Freed(checks: Checks, id: string): Checks
  {
    map k | k in checks :: if checks[k].config.id == id then checks[k].(inFlight := false) else checks[k]
  }

  ghost predicate DistinctIds(checks: Checks)
  {
    forall k, l :: k in checks && l in checks && checks[k].config.id == checks[l].config.id ==> k == l
  }

  function Buffered(buffer: seq<CheckResult>, r: CheckResult): seq<CheckResult>
  {
    (if |buffer| >= MAX_BUFFERED_RESULTS then buffer[1..] else buffer) + [r]
  }

  /** One check with the id was freed, or there is none and nothing changed. */
  ghost predicate FreedSome(before: Checks, after: Checks, id: string)
  {
    if exists k :: k in before && before[k].config.id == id
    then exists k :: k in before && before[k].config.id == id && after == before[k := before[k].(inFlight := false)]
    else after == before
  }

  lemma FreedOne(checks: Checks, id: string, k: string)
    requires DistinctIds(checks) && k in checks && checks[k].config.id == id
    ensures Freed(checks, id) == checks[k := checks[k].(inFlight := false)]
  {
  }

  lemma FreedNone(checks: Checks, id: string)
    requires forall k :: k in checks ==> checks[k].config.id != id
    ensures Freed(checks, id) == checks
  {
  }

  /** A completion is sure to free the running check it is for if and only if no
      other check has the same id, of whatever type. */
  lemma FreesTheRightCheckIff(checks: Checks, key: string)
    requires key in checks && checks[key].inFlight
    ensures var id := checks[key].config.id;
            (forall after :: FreedSome(checks, after, id) ==> after == checks[key := checks[key].(inFlight := false)])
            <==> (forall k :: k in checks && k != key ==> checks[k].config.id != id)
  {
    var id := checks[key].config.id;
    forall k | k in checks && k != key && checks[k].config.id == id
      ensures FreedSome(checks, checks[k := checks[k].(inFlight := false)], id)
      ensures checks[k := checks[k].(inFlight := false)][key].inFlight
    {
    }
  }

  lemma DistinctCarries(before: Checks, after: Checks)
    requires DistinctIds(before) && before.Keys == after.Keys
    requires forall k :: k in before ==> after[k].config == before[k].config
    ensures DistinctIds(after)
  {
  }

  // ----- the scheduler

  /** The due checks outside `todo`, each listed once with its key. */
  ghost predicate Listed(checks: Checks, todo: set<string>, now: nat, due: seq<HealthCheck>, keys: seq<string>)
  {
    && |keys| == |due|
    && (forall i :: 0 <= i < |keys| ==> keys[i] in checks && due[i] == checks[keys[i]].config)
    && (forall k :: k in keys <==> k in checks && k !in todo && IsDue(checks[k], now))
    && (forall i, j :: 0 <= i < j < |keys| ==> keys[i] != keys[j])
  }

  lemma ListedNext(checks: Checks, todo: set<string>, now: nat, due: seq<HealthCheck>, keys: seq<string>, k: string)
    requires k in checks && k in todo && Listed(checks, todo, now, due, keys)
    ensures if IsDue(checks[k], now) then Listed(checks, todo - {k}, now, due + [checks[k].config], keys + [k])
            else Listed(checks, todo - {k}, now, due, keys)
  {
    if IsDue(checks[k], now) {
      var more := keys + [k];
      assert forall l :: l in more <==> l in keys || l == k;
    }
  }

  class MonitoringState {
    var configVersion: int
    var healthChecks: Checks
    var results: seq<CheckResult>
    var statsdEnabled: bool
    var statsdPort: int

    constructor ()
      ensures healthChecks == map[] && results == [] && configVersion == 0 && !statsdEnabled && statsdPort == 0
    {
      configVersion, healthChecks, results, statsdEnabled, statsdPort := 0, map[], [], false, 0;
    }

    /** Replaces checks and settings, forgets what is in flight, keeps the results. */
    method ApplyConfig(config: MonitoringConfig, accepts: HealthCheck -> bool) returns (summary: Summary)
      modifies this`configVersion, this`healthChecks, this`statsdEnabled, this`statsdPort
      ensures healthChecks == Configured(Firsts(config.checks), accepts)
      ensures configVersion == config.version && statsdEnabled == config.statsdEnabled && statsdPort == config.statsdPort
      ensures summary == Summary(config.version, |healthChecks|, config.statsdEnabled, config.statsdPort)
      ensures |healthChecks| <= MAX_HEALTH_CHECKS
    {
      var checks := config.checks;
      var next: Checks := map[];
      var limit := Min(|checks|, MAX_HEALTH_CHECKS);
      for i := 0 to limit
        invariant next == Configured(checks[..i], accepts)
      {
        assert checks[..i + 1][..i] == checks[..i];
        var check := checks[i];
        if Supported(check) && accepts(check) {
          next := next[CheckKey(check) := CheckState(check, None, false)];
        }
      }
      configVersion, healthChecks := config.version, next;
      statsdEnabled, statsdPort := config.statsdEnabled, config.statsdPort;
      ConfiguredMeans(checks[..limit], accepts, "");
      return Summary(config.version, |healthChecks|, config.statsdEnabled, config.statsdPort);
    }

    method DrainResults() returns (drained: seq<CheckResult>)
      modifies this`results
      ensures drained == old(results) && results == []
    {
      drained := results;
      results := [];
    }

    /** Starts exactly the idle checks whose interval has passed, each once. The
        order of the map's values is arbitrary; `keys` names the checks started. */
    method TakeDueChecks(now: nat) returns (due: seq<HealthCheck>, ghost keys: seq<string>)
      modifies this`healthChecks
      ensures healthChecks == StartDue(old(healthChecks), now)
      ensures |keys| == |due|
      ensures forall i :: 0 <= i < |keys| ==> keys[i] in old(healthChecks) && due[i] == old(healthChecks)[keys[i]].config
      ensures forall k :: k in keys <==> k in old(healthChecks) && IsDue(old(healthChecks)[k], now)
      ensures forall i, j :: 0 <= i < j < |keys| ==> keys[i] != keys[j]
    {
      due, keys := [], [];
      ghost var before := healthChecks;
      var todo := healthChecks.Keys;
      while todo != {}
        invariant todo <= before.Keys == healthChecks.Keys
        invariant forall k :: k in before ==> healthChecks[k] == if k in todo then before[k] else Started(before[k], now)
        invariant Listed(before, todo, now, due, keys)
        decreases |todo|
      {
        var k :| k in todo;
        ListedNext(before, todo, now, due, keys, k);
        var started := StartIfDue(k, now);
        todo := todo - {k};
        if started {
          due, keys := due + [healthChecks[k].config], keys + [k];
        }
      }
    }

    method StartIfDue(k: string, now: nat) returns (started: bool)
      requires k in healthChecks
      modifies this`healthChecks
      ensures started <==> IsDue(old(healthChecks)[k], now)
      ensures healthChecks == old(healthChecks)[k := Started(old(healthChecks)[k], now)]
    {
      var state := healthChecks[k];
      if state.inFlight {
        return false;
      }
      var interval := CheckInterval(state.config);
      var shouldRun := state.lastRun.None? || Max(0, now - state.lastRun.value) >= interval;
      if shouldRun {
        healthChecks := healthChecks[k := state.(lastRun := Some(now), inFlight := true)];
      }
      return shouldRun;
    }

    /** Frees one check with the id, if there is one; with distinct ids, that one. */
    method FreeOne(id: string)
      modifies this`healthChecks
      ensures FreedSome(old(healthChecks), healthChecks, id)
      ensures DistinctIds(old(healthChecks)) ==> healthChecks == Freed(old(healthChecks), id)
    {
      var todo := healthChecks.Keys;
      while todo != {}
        invariant todo <= healthChecks.Keys
        invariant healthChecks == old(healthChecks)
        invariant forall k :: k in healthChecks && k !in todo ==> healthChecks[k].config.id != id
        decreases |todo|
      {
        var k :| k in todo;
        todo := todo - {k};
        if healthChecks[k].config.id == id {
          if DistinctIds(healthChecks) { FreedOne(healthChecks, id, k); }
          healthChecks := healthChecks[k := healthChecks[k].(inFlight := false)];
          return;
        }
      }
      FreedNone(healthChecks, id);
    }

    /** Frees the check the result is for and buffers the result. */
    method CompleteCheck(result: CheckResult)
      modifies this
      ensures results == Buffered(old(results), result)
      ensures FreedSome(old(healthChecks), healthChecks, result.checkId)
      ensures DistinctIds(old(healthChecks)) ==> healthChecks == Freed(old(healthChecks), result.checkId)
    {
      FreeOne(result.checkId);
      if |results| >= MAX_BUFFERED_RESULTS {
        results := results[1..];
      }
      results := results + [result];
    }
  }

  // ----- runs

  /** A start: when, and how long the check had to wait for it. */
  datatype Start = Start(at: nat, interval: nat)

  /** The scheduler with the exact history: how many tasks of each check have not
      completed, the starts of each check, and the results since the last drain.
      Tasks go on when a configuration is applied. */
  datatype Run = Run(checks: Checks, buffer: seq<CheckResult>, clock: nat,
                     running: Name -> nat, starts: Name -> seq<Start>, completed: seq<CheckResult>)

  datatype Event =
    | Tick(now: nat)
    | Complete(name: Name, status: string)
    | Drain
    | Reapply(cs: seq<HealthCheck>, accepts: HealthCheck -> bool)

  function Begin(checks: Checks): Run { Run(checks, [], 0, (n: Name) => 0, (n: Name) => [], []) }

  /** The state of a check, if it is configured. */
  function StateOf(checks: Checks, n: Name): Option<CheckState>
  {
    if KeyOf(n) in checks && NameOf(checks[KeyOf(n)].config) == n then Some(checks[KeyOf(n)]) else None
  }

  predicate Starting(checks: Checks, n: Name, now: nat)
  {
    StateOf(checks, n).Some? && IsDue(StateOf(checks, n).value, now)
  }

  function StartedAt(checks: Checks, n: Name, now: nat, starts: seq<Start>): seq<Start>
  {
    if Starting(checks, n, now) then starts + [Start(now, CheckInterval(StateOf(checks, n).value.config))] else starts
  }

  function StepTick(r: Run, now: nat): Run
  {
    Run(StartDue(r.checks, now), r.buffer, now,
        (n: Name) => r.running(n) + if Starting(r.checks, n, now) then 1 else 0,
        (n: Name) => StartedAt(r.checks, n, now, r.starts(n)),
        r.completed)
  }

  function StepComplete(r: Run, name: Name, status: string): Run
  {
    var result := CheckResult(name.id, status);
    Run(Freed(r.checks, name.id), Buffered(r.buffer, result), r.clock,
        (n: Name) => if n == name && r.running(n) > 0 then r.running(n) - 1 else r.running(n),
        r.starts, r.completed + [result])
  }

  /** The configuration is replaced; tasks and history go on. */
  function StepReapply(r: Run, cs: seq<HealthCheck>, accepts: HealthCheck -> bool): Run
  {
    r.(checks := Configured(Firsts(cs), accepts))
  }

  /** Only a running check completes, and the clock does not go back. */
  ghost predicate Enabled(r: Run, e: Event)
  {
    match e
    case Tick(now) => now >= r.clock
    case Complete(name, _) => r.running(name) > 0
    case Drain => true
    case Reapply(_, _) => true
  }

  function Step(r: Run, e: Event): Run
  {
    match e
    case Tick(now) => StepTick(r, now)
    case Complete(name, status) => StepComplete(r, name, status)
    case Drain => r.(buffer := [], completed := [])
    case Reapply(cs, accepts) => StepReapply(r, cs, accepts)
  }

  // ----- what every run keeps

  ghost predicate WellKeyed(checks: Checks)
  {
    forall k :: k in checks ==> k == CheckKey(checks[k].config) && Supported(checks[k].config)
  }

  /** Every start waited for its interval. */
  ghost predicate Spaced(starts: seq<Start>)
  {
    forall i :: 0 < i < |starts| ==> starts[i].at - starts[i - 1].at >= starts[i].interval
  }

  /** A start now would come an interval after the last one. */
  predicate Rested(starts: seq<Start>, interval: nat, clock: nat)
  {
    starts == [] || clock - starts[|starts| - 1].at >= interval
  }

  /** No check is in flight twice, and its starts are an interval apart. */
  ghost predicate Good(r: Run)
  {
    forall n: Name :: r.running(n) <= 1 && Spaced(r.starts(n))
  }

  /** What the scheduler remembers of a configured check agrees with its history. */
  ghost predicate Remembers(c: CheckState, running: nat, starts: seq<Start>, clock: nat)
  {
    && running == (if c.inFlight then 1 else 0)
    && (c.lastRun.Some? ==> starts != [] && starts[|starts| - 1].at == c.lastRun.value)
    && (c.lastRun.None? ==> Rested(starts, CheckInterval(c.config), clock))
  }

  ghost predicate NameInv(r: Run, n: Name)
  {
    && r.running(n) <= 1
    && Spaced(r.starts(n))
    && (r.starts(n) != [] ==> r.starts(n)[|r.starts(n)| - 1].at <= r.clock)
    && (StateOf(r.checks, n).Some? ==> Remembers(StateOf(r.checks, n).value, r.running(n), r.starts(n), r.clock))
  }

  /** No task has the id of a configured check other than its own. */
  ghost predicate Unmixed(r: Run)
  {
    forall n, m: Name :: r.running(n) > 0 && StateOf(r.checks, m).Some? && n.id == m.id ==> n == m
  }

  /** The buffer is the last 4096 of the results completed since the last drain. */
  ghost predicate BufferExact(r: Run)
  {
    r.buffer == r.completed[|r.completed| - Min(|r.completed|, MAX_BUFFERED_RESULTS)..]
  }

  ghost predicate Inv(r: Run)
  {
    && WellKeyed(r.checks)
    && DistinctIds(r.checks)
    && Unmixed(r)
    && BufferExact(r)
    && forall n: Name :: NameInv(r, n)
  }

  /** No task has the id of a check to be configured, and each of these has rested:
      it never started, or did so an interval ago. */
  ghost predicate Quiet(r: Run, checks: Checks)
  {
    forall m: Name :: StateOf(checks, m).Some? ==>
      && (forall n: Name :: n.id == m.id ==> r.running(n) == 0)
      && Rested(r.starts(m), CheckInterval(StateOf(checks, m).value.config), r.clock)
  }

  /** Configurations are applied only when quiet and with distinct ids. */
  ghost predicate Allowed(r: Run, e: Event)
  {
    Enabled(r, e) &&
    (e.Reapply? ==> var checks := Configured(Firsts(e.cs), e.accepts); DistinctIds(checks) && Quiet(r, checks))
  }

  lemma StateOfStarted(checks: Checks, now: nat, n: Name)
    ensures var c, c' := StateOf(checks, n), StateOf(StartDue(checks, now), n);
            c'.Some? <==> c.Some?
    ensures var c, c' := StateOf(checks, n), StateOf(StartDue(checks, now), n);
            c.Some? ==> c'.value == Started(c.value, now)
  {
  }

  lemma StateOfFreed(checks: Checks, id: string, n: Name)
    ensures var c, c' := StateOf(checks, n), StateOf(Freed(checks, id), n);
            c'.Some? <==> c.Some?
    ensures var c, c' := StateOf(checks, n), StateOf(Freed(checks, id), n);
            c.Some? ==> c'.value == if n.id == id then c.value.(inFlight := false) else c.value
  {
  }

  lemma DistinctNames(checks: Checks, n: Name, m: Name)
    requires DistinctIds(checks) && StateOf(checks, n).Some? && StateOf(checks, m).Some? && n.id == m.id
    ensures n == m
  {
    assert KeyOf(n) in checks && KeyOf(m) in checks;
  }

  lemma StartedRemembers(c: CheckState, running: nat, starts: seq<Start>, clock: nat, now: nat)
    requires Remembers(c, running, starts, clock) && Spaced(starts) && now >= clock
    requires starts != [] ==> starts[|starts| - 1].at <= clock
    ensures IsDue(c, now) ==>
              && running == 0
              && var starts' := starts + [Start(now, CheckInterval(c.config))];
              Spaced(starts') && Remembers(Started(c, now), 1, starts', now)
    ensures !IsDue(c, now) ==> Remembers(c, running, starts, now)
  {
  }

  lemma TickKeepsName(r: Run, now: nat, n: Name)
    requires NameInv(r, n) && now >= r.clock
    ensures NameInv(StepTick(r, now), n)
  {
    StateOfStarted(r.checks, now, n);
    if StateOf(r.checks, n).Some? {
      StartedRemembers(StateOf(r.checks, n).value, r.running(n), r.starts(n), r.clock, now);
    }
  }

  lemma TickKeepsUnmixed(r: Run, now: nat)
    requires Unmixed(r) && DistinctIds(r.checks)
    ensures Unmixed(StepTick(r, now))
  {
    var r' := StepTick(r, now);
    forall n, m: Name | r'.running(n) > 0 && StateOf(r'.checks, m).Some? && n.id == m.id ensures n == m {
      StateOfStarted(r.checks, now, m);
      if r.running(n) == 0 { DistinctNames(r.checks, n, m); }
    }
  }

  lemma TickKeepsInv(r: Run, now: nat)
    requires Inv(r) && now >= r.clock
    ensures Inv(StepTick(r, now))
  {
    DistinctCarries(r.checks, StepTick(r, now).checks);
    TickKeepsUnmixed(r, now);
    forall n: Name ensures NameInv(StepTick(r, now), n) { TickKeepsName(r, now, n); }
  }

  lemma BufferedExact(completed: seq<CheckResult>, buffer: seq<CheckResult>, result: CheckResult)
    requires buffer == completed[|completed| - Min(|completed|, MAX_BUFFERED_RESULTS)..]
    ensures var after := completed + [result];
            Buffered(buffer, result) == after[|after| - Min(|after|, MAX_BUFFERED_RESULTS)..]
  {
  }

  lemma CompleteKeepsName(r: Run, name: Name, status: string, n: Name)
    requires NameInv(r, n) && r.running(name) == 1
    requires StateOf(r.checks, n).Some? && n.id == name.id ==> n == name
    ensures NameInv(StepComplete(r, name, status), n)
  {
    StateOfFreed(r.checks, name.id, n);
  }

  lemma CompleteKeepsInv(r: Run, name: Name, status: string)
    requires Inv(r) && r.running(name) > 0
    ensures Inv(StepComplete(r, name, status))
  {
    var r' := StepComplete(r, name, status);
    DistinctCarries(r.checks, r'.checks);
    BufferedExact(r.completed, r.buffer, CheckResult(name.id, status));
    assert NameInv(r, name);
    forall n: Name ensures NameInv(r', n) { CompleteKeepsName(r, name, status, n); }
    forall n, m: Name | r'.running(n) > 0 && StateOf(r'.checks, m).Some? && n.id == m.id ensures n == m {
      StateOfFreed(r.checks, name.id, m);
      assert r.running(n) > 0;
    }
  }

  lemma {:induction false} ConfiguredKeyed(cs: seq<HealthCheck>, accepts: HealthCheck -> bool)
    ensures WellKeyed(Configured(cs, accepts)) && Fresh(Configured(cs, accepts))
    decreases |cs|
  {
    if cs != [] { ConfiguredKeyed(cs[..|cs| - 1], accepts); }
  }

  ghost predicate Fresh(checks: Checks)
  {
    forall k :: k in checks ==> checks[k].lastRun == None && !checks[k].inFlight
  }

  /** Applying a configuration keeps the history in line if and only if its ids are
      distinct and it is applied when quiet. */
  lemma ReapplyKeepsInvIff(r: Run, cs: seq<HealthCheck>, accepts: HealthCheck -> bool)
    requires Inv(r)
    ensures var checks := Configured(Firsts(cs), accepts);
            Inv(StepReapply(r, cs, accepts)) <==> DistinctIds(checks) && Quiet(r, checks)
  {
    var r', checks := StepReapply(r, cs, accepts), Configured(Firsts(cs), accepts);
    ConfiguredKeyed(Firsts(cs), accepts);
    if Inv(r') {
      forall m: Name | StateOf(checks, m).Some?
        ensures forall n: Name :: n.id == m.id ==> r.running(n) == 0
        ensures Rested(r.starts(m), CheckInterval(StateOf(checks, m).value.config), r.clock)
      {
        assert NameInv(r', m);
        forall n: Name | n.id == m.id ensures r.running(n) == 0 {
          if r.running(n) > 0 { assert n == m; }
        }
      }
    }
    if DistinctIds(checks) && Quiet(r, checks) {
      forall n: Name ensures NameInv(r', n) { assert NameInv(r, n); }
    }
  }

  lemma StepKeepsInv(r: Run, e: Event)
    requires Inv(r) && Allowed(r, e)
    ensures Inv(Step(r, e))
  {
    match e
    case Tick(now) => TickKeepsInv(r, now);
    case Complete(name, status) => CompleteKeepsInv(r, name, status);
    case Drain => forall n: Name ensures NameInv(Step(r, e), n) { assert NameInv(r, n); }
    case Reapply(cs, accepts) => ReapplyKeepsInvIff(r, cs, accepts);
  }

  function RunFrom(r: Run, events: seq<Event>): Run
    decreases |events|
  {
    if events == [] then r else RunFrom(Step(r, events[0]), events[1..])
  }

  ghost predicate AllAllowed(r: Run, events: seq<Event>)
    decreases |events|
  {
    events == [] || (Allowed(r, events[0]) && AllAllowed(Step(r, events[0]), events[1..]))
  }

  lemma InvIsGood(r: Run)
    requires Inv(r)
    ensures Good(r)
  {
    forall n: Name ensures r.running(n) <= 1 && Spaced(r.starts(n)) { assert NameInv(r, n); }
  }

  lemma {:induction false} RunFromKeepsInv(r: Run, events: seq<Event>)
    requires Inv(r) && AllAllowed(r, events)
    ensures Inv(RunFrom(r, events)) && Good(RunFrom(r, events))
    decreases |events|
  {
    if events == [] {
      InvIsGood(r);
    } else {
      StepKeepsInv(r, events[0]);
      RunFromKeepsInv(Step(r, events[0]), events[1..]);
    }
  }

  lemma BeginInv(checks: Checks)
    requires WellKeyed(checks) && DistinctIds(checks) && Fresh(checks)
    ensures Inv(Begin(checks))
  {
    var r := Begin(checks);
    forall n: Name ensures NameInv(r, n) {
      assert r.starts(n) == [] && r.running(n) == 0;
    }
  }

  /** Over every run of a configuration with distinct ids, and of others applied when
      quiet, with a clock that does not go back: no check is in flight twice, the
      starts of a check wait for its interval, and the buffer is the end of what
      completed since the last drain. */
  lemma RunKeepsInv(cs: seq<HealthCheck>, accepts: HealthCheck -> bool, events: seq<Event>)
    requires var checks := Configured(Firsts(cs), accepts); DistinctIds(checks) && AllAllowed(Begin(checks), events)
    ensures var r := RunFrom(Begin(Configured(Firsts(cs), accepts)), events);
            Inv(r) && Good(r) && BufferExact(r)
  {
    var checks := Configured(Firsts(cs), accepts);
    ConfiguredKeyed(Firsts(cs), accepts);
    BeginInv(checks);
    RunFromKeepsInv(Begin(checks), events);
  }

  /** In terms of the history alone: while the configuration stays, a tick starts a
      check if and only if none of its tasks is running and it rested. */
  lemma TickStartsIff(r: Run, now: nat, n: Name)
    requires Inv(r) && now >= r.clock && StateOf(r.checks, n).Some?
    ensures var interval := CheckInterval(StateOf(r.checks, n).value.config);
            StepTick(r, now).starts(n)
            == if r.running(n) == 0 && Rested(r.starts(n), interval, now) then r.starts(n) + [Start(now, interval)]
               else r.starts(n)
  {
    assert NameInv(r, n);
  }

  // ----- applying a configuration while checks run

  /** No continuation without further configurations breaks the promise. */
  ghost predicate StaysGood(r: Run)
  {
    forall events: seq<Event> ::
      AllAllowed(r, events) && (forall i :: 0 <= i < |events| ==> !events[i].Reapply?) ==> Good(RunFrom(r, events))
  }

  /** A task of the check itself, or one of its starts too recent: the next tick
      starts it all the same. */
  lemma RestartsAtOnce(r: Run, cs: seq<HealthCheck>, accepts: HealthCheck -> bool, m: Name)
    requires StateOf(Configured(Firsts(cs), accepts), m).Some?
    ensures var r' := RunFrom(StepReapply(r, cs, accepts), [Tick(r.clock)]);
            && r'.running(m) == r.running(m) + 1
            && r'.starts(m)
               == r.starts(m) + [Start(r.clock, CheckInterval(StateOf(Configured(Firsts(cs), accepts), m).value.config))]
  {
    ConfiguredKeyed(Firsts(cs), accepts);
    var r' := StepReapply(r, cs, accepts);
    assert RunFrom(r', [Tick(r.clock)]) == RunFrom(StepTick(r', r.clock), []);
    assert KeyOf(m) in r'.checks;
  }

  lemma UnspacedStart(starts: seq<Start>, interval: nat, clock: nat)
    requires !Rested(starts, interval, clock)
    ensures !Spaced(starts + [Start(clock, interval)])
  {
    var after := starts + [Start(clock, interval)];
    assert after[|starts|].at - after[|starts| - 1].at < after[|starts|].interval;
  }

  /** A task of another type with the same id: when it completes, the check is taken
      for idle and started beside its own task. */
  lemma WrongOneFreed(r: Run, cs: seq<HealthCheck>, accepts: HealthCheck -> bool, n: Name, m: Name)
    requires DistinctIds(Configured(Firsts(cs), accepts))
    requires StateOf(Configured(Firsts(cs), accepts), m).Some? && n != m && n.id == m.id && r.running(n) > 0
    ensures var later := r.clock + CheckInterval(StateOf(Configured(Firsts(cs), accepts), m).value.config);
            var events := [Tick(r.clock), Complete(n, ""), Tick(later)];
            && AllAllowed(StepReapply(r, cs, accepts), events)
            && RunFrom(StepReapply(r, cs, accepts), events).running(m) == r.running(m) + 2
  {
    ConfiguredKeyed(Firsts(cs), accepts);
    var r' := StepReapply(r, cs, accepts);
    assert KeyOf(m) in r'.checks;
    IdleRunsTwice(r', n, m);
  }

  lemma IdleRunsTwice(r: Run, n: Name, m: Name)
    requires StateOf(r.checks, m).Some? && n != m && n.id == m.id && r.running(n) > 0
    requires StateOf(r.checks, m).value.lastRun.None? && !StateOf(r.checks, m).value.inFlight
    ensures var later := r.clock + CheckInterval(StateOf(r.checks, m).value.config);
            var events := [Tick(r.clock), Complete(n, ""), Tick(later)];
            AllAllowed(r, events) && RunFrom(r, events).running(m) == r.running(m) + 2
  {
    var later := r.clock + CheckInterval(StateOf(r.checks, m).value.config);
    TickStarts(r, r.clock, m);
    var r1 := StepTick(r, r.clock);
    assert r1.running(n) > 0;
    CompleteFrees(r1, n, "", m);
    var r2 := StepComplete(r1, n, "");
    TickStarts(r2, later, m);
    ThreeSteps(r, Tick(r.clock), Complete(n, ""), Tick(later));
  }

  lemma TickStarts(r: Run, now: nat, m: Name)
    requires StateOf(r.checks, m).Some? && IsDue(StateOf(r.checks, m).value, now)
    ensures var r' := StepTick(r, now);
            && r'.running(m) == r.running(m) + 1 && r'.clock == now
            && StateOf(r'.checks, m) == Some(Started(StateOf(r.checks, m).value, now))
  {
    StateOfStarted(r.checks, now, m);
  }

  lemma CompleteFrees(r: Run, n: Name, status: string, m: Name)
    requires StateOf(r.checks, m).Some? && n != m && n.id == m.id
    ensures var r' := StepComplete(r, n, status);
            && r'.running(m) == r.running(m) && r'.clock == r.clock
            && StateOf(r'.checks, m) == Some(StateOf(r.checks, m).value.(inFlight := false))
  {
    StateOfFreed(r.checks, n.id, m);
  }

  lemma ThreeSteps(r: Run, a: Event, b: Event, c: Event)
    ensures RunFrom(r, [a, b, c]) == Step(Step(Step(r, a), b), c)
    ensures AllAllowed(r, [a, b, c]) <==>
            Allowed(r, a) && Allowed(Step(r, a), b) && Allowed(Step(Step(r, a), b), c)
  {
    var all := [a, b, c];
    assert all[1..] == [b, c] && [b, c][1..] == [c] && [c][1..] == [];
    var r1 := Step(r, a);
    var r2 := Step(r1, b);
    var none: seq<Event> := [];
    assert RunFrom(r2, [c]) == RunFrom(Step(r2, c), none) == Step(r2, c);
    assert AllAllowed(r2, [c]) <==> Allowed(r2, c) && AllAllowed(Step(r2, c), none);
    assert AllAllowed(Step(r2, c), none);
    assert RunFrom(r1, [b, c]) == RunFrom(r2, [c]);
    assert AllAllowed(r1, [b, c]) <==> Allowed(r1, b) && AllAllowed(r2, [c]);
  }

  /** From any reachable state, a new configuration with distinct ids is safe, whatever
      happens next, if and only if it is applied when quiet. */
  lemma ReapplyStaysGoodIff(r: Run, cs: seq<HealthCheck>, accepts: HealthCheck -> bool)
    requires Inv(r) && DistinctIds(Configured(Firsts(cs), accepts))
    ensures StaysGood(StepReapply(r, cs, accepts)) <==> Quiet(r, Configured(Firsts(cs), accepts))
  {
    var r', checks := StepReapply(r, cs, accepts), Configured(Firsts(cs), accepts);
    if Quiet(r, checks) {
      ReapplyKeepsInvIff(r, cs, accepts);
      forall events: seq<Event> | AllAllowed(r', events) ensures Good(RunFrom(r', events)) {
        RunFromKeepsInv(r', events);
      }
    } else {
      LoudIsNotGood(r, cs, accepts);
    }
  }

  lemma NotGoodBy(r: Run, events: seq<Event>)
    requires AllAllowed(r, events) && (forall i :: 0 <= i < |events| ==> !events[i].Reapply?)
    requires !Good(RunFrom(r, events))
    ensures !StaysGood(r)
  {
  }

  lemma LoudAtOnce(r: Run, cs: seq<HealthCheck>, accepts: HealthCheck -> bool, m: Name)
    requires StateOf(Configured(Firsts(cs), accepts), m).Some?
    requires r.running(m) > 0
             || !Rested(r.starts(m), CheckInterval(StateOf(Configured(Firsts(cs), accepts), m).value.config), r.clock)
    ensures !StaysGood(StepReapply(r, cs, accepts))
  {
    var r', interval := StepReapply(r, cs, accepts), CheckInterval(StateOf(Configured(Firsts(cs), accepts), m).value.config);
    var tick := [Tick(r.clock)];
    RestartsAtOnce(r, cs, accepts, m);
    assert AllAllowed(Step(r', tick[0]), tick[1..]);
    if r.running(m) == 0 { UnspacedStart(r.starts(m), interval, r.clock); }
    assert !Good(RunFrom(r', tick));
    NotGoodBy(r', tick);
  }

  lemma LoudLater(r: Run, cs: seq<HealthCheck>, accepts: HealthCheck -> bool, n: Name, m: Name)
    requires DistinctIds(Configured(Firsts(cs), accepts))
    requires StateOf(Configured(Firsts(cs), accepts), m).Some? && n != m && n.id == m.id && r.running(n) > 0
    ensures !StaysGood(StepReapply(r, cs, accepts))
  {
    WrongOneFreed(r, cs, accepts, n, m);
    var later := r.clock + CheckInterval(StateOf(Configured(Firsts(cs), accepts), m).value.config);
    var events := [Tick(r.clock), Complete(n, ""), Tick(later)];
    var r' := StepReapply(r, cs, accepts);
    assert !Good(RunFrom(r', events)) by { assert RunFrom(r', events).running(m) > 1; }
    NotGoodBy(r', events);
  }

  /** Loud in one of the two ways, for some check. */
  lemma LoudIsNotGood(r: Run, cs: seq<HealthCheck>, accepts: HealthCheck -> bool)
    requires DistinctIds(Configured(Firsts(cs), accepts))
    ensures Quiet(r, Configured(Firsts(cs), accepts)) || !StaysGood(StepReapply(r, cs, accepts))
  {
    var checks := Configured(Firsts(cs), accepts);
    if !Quiet(r, checks) {
      var m: Name :| StateOf(checks, m).Some? &&
        !((forall n: Name :: n.id == m.id ==> r.running(n) == 0)
          && Rested(r.starts(m), CheckInterval(StateOf(checks, m).value.config), r.clock));
      if r.running(m) > 0 || !Rested(r.starts(m), CheckInterval(StateOf(checks, m).value.config), r.clock) {
        LoudAtOnce(r, cs, accepts, m);
      } else {
        var n: Name :| n.id == m.id && r.running(n) != 0;
        LoudLater(r, cs, accepts, n, m);
      }
    }
  }

  /** One check, one tick, the same configuration again and another tick: two tasks of
      the check are in flight. */
  lemma ReappliedRunsTwice(cs: seq<HealthCheck>, accepts: HealthCheck -> bool, m: Name, now: nat)
    requires StateOf(Configured(Firsts(cs), accepts), m).Some?
    ensures RunFrom(Begin(Configured(Firsts(cs), accepts)), [Tick(now), Reapply(cs, accepts), Tick(now)]).running(m) == 2
  {
    ConfiguredKeyed(Firsts(cs), accepts);
    var r0 := Begin(Configured(Firsts(cs), accepts));
    var r1 := StepTick(r0, now);
    assert KeyOf(m) in r0.checks;
    assert r1.running(m) == 1;
    RestartsAtOnce(r1, cs, accepts, m);
    var events := [Tick(now), Reapply(cs, accepts), Tick(now)];
    assert events[1..] == [Reapply(cs, accepts), Tick(now)] && events[1..][1..] == [Tick(now)];
    assert RunFrom(r0, events) == RunFrom(r1, events[1..]) == RunFrom(StepReapply(r1, cs, accepts), [Tick(now)]);
  }

  // ----- checks that share an id

  /** The check a completion with the id reaches first: one that has it, if any. */
  ghost predicate Reaches(checks: Checks, first: string -> Name)
  {
    forall n: Name :: StateOf(checks, n).Some? ==>
      StateOf(checks, first(n.id)).Some? && first(n.id).id == n.id
  }

  /** Only the check reached first is freed. */
  function FreedFirst(checks: Checks, id: string, n: Name): Checks
  {
    if StateOf(checks, n).Some? && n.id == id then checks[KeyOf(n) := StateOf(checks, n).value.(inFlight := false)] else checks
  }

  function StepBy(first: string -> Name, r: Run, e: Event): Run
  {
    match e
    case Complete(name, status) => StepComplete(r, name, status).(checks := FreedFirst(r.checks, name.id, first(name.id)))
    case _ => Step(r, e)
  }

  function RunBy(first: string -> Name, r: Run, events: seq<Event>): Run
    decreases |events|
  {
    if events == [] then r else RunBy(first, StepBy(first, r, events[0]), events[1..])
  }

  ghost predicate EnabledBy(first: string -> Name, r: Run, events: seq<Event>)
    decreases |events|
  {
    events == [] ||
    (Enabled(r, events[0]) && !events[0].Reapply? && EnabledBy(first, StepBy(first, r, events[0]), events[1..]))
  }

  /** In every run of the configuration no check is in flight twice. */
  ghost predicate NeverTwice(first: string -> Name, r: Run)
  {
    forall events: seq<Event>, n: Name :: EnabledBy(first, r, events) ==> RunBy(first, r, events).running(n) <= 1
  }

  /** That is one of the outcomes of a completion, the same over a whole run. */
  lemma FirstIsFreedSome(checks: Checks, first: string -> Name, id: string)
    requires WellKeyed(checks) && Reaches(checks, first)
    ensures FreedSome(checks, FreedFirst(checks, id, first(id)), id)
  {
    var n := first(id);
    if k :| k in checks && checks[k].config.id == id {
      assert StateOf(checks, NameOf(checks[k].config)).Some?;
      assert KeyOf(n) in checks && checks[KeyOf(n)].config.id == id;
    }
  }

  /** With distinct ids the first check reached is the one and only. */
  lemma FirstIsFreed(checks: Checks, first: string -> Name, id: string)
    requires WellKeyed(checks) && DistinctIds(checks) && Reaches(checks, first)
    ensures (exists n: Name :: StateOf(checks, n).Some? && n.id == id) ==> FreedFirst(checks, id, first(id)) == Freed(checks, id)
  {
    if n: Name :| StateOf(checks, n).Some? && n.id == id {
      FreedOne(checks, id, KeyOf(first(id)));
    }
  }

  lemma {:induction false} DistinctNeverTwice(first: string -> Name, r: Run, events: seq<Event>)
    requires Inv(r) && Configures(r) && Reaches(r.checks, first) && EnabledBy(first, r, events)
    ensures Inv(RunBy(first, r, events))
    decreases |events|
  {
    if events != [] {
      var e := events[0];
      if e.Complete? {
        assert StateOf(r.checks, e.name).Some?;
        FirstIsFreed(r.checks, first, e.name.id);
      }
      assert StepBy(first, r, e) == Step(r, e);
      StepKeepsInv(r, e);
      StepKeepsConfigured(r, e, first);
      DistinctNeverTwice(first, Step(r, e), events[1..]);
    }
  }

  /** Only configured checks run. */
  ghost predicate Configures(r: Run) { forall n: Name :: r.running(n) > 0 ==> StateOf(r.checks, n).Some? }

  lemma StepKeepsConfigured(r: Run, e: Event, first: string -> Name)
    requires Configures(r) && Reaches(r.checks, first) && !e.Reapply?
    ensures Configures(Step(r, e)) && Reaches(Step(r, e).checks, first)
  {
    var r' := Step(r, e);
    forall n: Name ensures StateOf(r'.checks, n).Some? <==> StateOf(r.checks, n).Some? {
      match e
      case Tick(now) => StateOfStarted(r.checks, now, n);
      case Complete(name, _) => StateOfFreed(r.checks, name.id, n);
      case Drain =>
    }
  }

  /** Of two checks with one id the one reached first is freed by the other's
      completion, and started again beside its own task. */
  lemma SharedRunsTwice(cs: seq<HealthCheck>, accepts: HealthCheck -> bool, first: string -> Name, n: Name)
    requires var checks := Configured(Firsts(cs), accepts);
             && StateOf(checks, n).Some? && StateOf(checks, first(n.id)).Some?
             && first(n.id).id == n.id && first(n.id) != n
    ensures !NeverTwice(first, Begin(Configured(Firsts(cs), accepts)))
  {
    ConfiguredKeyed(Firsts(cs), accepts);
    var m, r0 := first(n.id), Begin(Configured(Firsts(cs), accepts));
    assert KeyOf(m) in r0.checks && KeyOf(n) in r0.checks;
    var later := CheckInterval(StateOf(r0.checks, m).value.config);
    var r1 := StepTick(r0, 0);
    StateOfStarted(r0.checks, 0, m);
    var r2 := StepBy(first, r1, Complete(n, ""));
    assert StateOf(r2.checks, m).value == StateOf(r1.checks, m).value.(inFlight := false);
    var events := [Tick(0), Complete(n, ""), Tick(later)];
    ThreeBy(first, r0, events[0], events[1], events[2]);
    assert RunBy(first, r0, events).running(m) == 2;
  }

  lemma ThreeBy(first: string -> Name, r: Run, a: Event, b: Event, c: Event)
    ensures RunBy(first, r, [a, b, c]) == StepBy(first, StepBy(first, StepBy(first, r, a), b), c)
    ensures !a.Reapply? && !b.Reapply? && !c.Reapply? ==>
              (EnabledBy(first, r, [a, b, c]) <==>
               Enabled(r, a) && Enabled(StepBy(first, r, a), b) && Enabled(StepBy(first, StepBy(first, r, a), b), c))
  {
    var all := [a, b, c];
    assert all[1..] == [b, c] && [b, c][1..] == [c] && [c][1..] == [];
    var r1 := StepBy(first, r, a);
    var r2 := StepBy(first, r1, b);
    var none: seq<Event> := [];
    assert RunBy(first, r2, [c]) == RunBy(first, StepBy(first, r2, c), none) == StepBy(first, r2, c);
    assert EnabledBy(first, StepBy(first, r2, c), none);
    assert RunBy(first, r1, [b, c]) == RunBy(first, r2, [c]);
    assert EnabledBy(first, r2, [c]) <==> Enabled(r2, c) && !c.Reapply?;
    assert EnabledBy(first, r1, [b, c]) <==> Enabled(r1, b) && !b.Reapply? && EnabledBy(first, r2, [c]);
  }

  /** Whatever the order in which the checks are looked at, no check of a configuration
      is ever in flight twice if and only if its ids are distinct. */
  lemma NeverTwiceIff(cs: seq<HealthCheck>, accepts: HealthCheck -> bool, first: string -> Name)
    requires Reaches(Configured(Firsts(cs), accepts), first)
    ensures NeverTwice(first, Begin(Configured(Firsts(cs), accepts))) <==> DistinctIds(Configured(Firsts(cs), accepts))
  {
    var checks := Configured(Firsts(cs), accepts);
    ConfiguredKeyed(Firsts(cs), accepts);
    if DistinctIds(checks) {
      BeginInv(checks);
      forall events: seq<Event>, n: Name | EnabledBy(first, Begin(checks), events)
        ensures RunBy(first, Begin(checks), events).running(n) <= 1
      {
        DistinctNeverTwice(first, Begin(checks), events);
        assert NameInv(RunBy(first, Begin(checks), events), n);
      }
    } else {
      var k, l :| k in checks && l in checks && checks[k].config.id == checks[l].config.id && k != l;
      var n, m := NameOf(checks[k].config), NameOf(checks[l].config);
      assert StateOf(checks, n).Some? && StateOf(checks, m).Some? && n.id == m.id && n != m;
      SharedRunsTwice(cs, accepts, first, if first(n.id) != n then n else m);
    }
  }
}
