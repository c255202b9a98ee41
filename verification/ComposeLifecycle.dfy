/** Phased start and stop of the managed Compose services. The container runtime and the clock
    are an environment that answers anything, at any pace, and may fail at every command. */
module ComposeLifecycle {
  import opened Wrappers

  datatype Phase = Phase(service: string, expected: string)

  const START_PHASES: seq<Phase> := [
    Phase("postgres-geo", "healthy"), Phase("redis", "healthy"), Phase("mqtt", "healthy"),
    Phase("auth-policy", "healthy"), Phase("backend", "healthy"), Phase("media-control", "healthy"),
    Phase("mediamtx", "running"), Phase("turn-primary", "healthy"), Phase("dashboard", "healthy"),
    Phase("edge", "healthy")]

  datatype Failure = ConfigRejected | ServiceAbsent(service: string) | ReadinessFailed(service: string, state: string)
                   | TimedOut(service: string) | CommandFailed

  /** What the runtime was told and what it showed. */
  datatype Action = Start(service: string) | Observe(service: string, state: string)

  predicate Failed(state: string) { state == "unhealthy" || state == "exited" || state == "dead" }

  /** Storage first, then the services on it, the media plane, and the edge last; of all these only
      the media server has no health check. */
  lemma PhaseOrder()
    ensures |START_PHASES| == 10
    ensures START_PHASES[0].service == "postgres-geo" && START_PHASES[1].service == "redis" && START_PHASES[2].service == "mqtt"
    ensures START_PHASES[3].service == "auth-policy" && START_PHASES[4].service == "backend"
    ensures START_PHASES[5].service == "media-control" && START_PHASES[6].service == "mediamtx"
    ensures START_PHASES[7].service == "turn-primary" && START_PHASES[8].service == "dashboard" && START_PHASES[9].service == "edge"
    ensures forall i | 0 <= i < 10 :: START_PHASES[i].expected == if i == 6 then "running" else "healthy"
  {
  }

  predicate DistinctServices(phases: seq<Phase>) {
    forall i, j | 0 <= i < j < |phases| :: phases[i].service != phases[j].service
  }

  // ---------- the start protocol ----------

  /** `confirmed` phases are done; `started` tells whether the next one has been told to start. */
  datatype Progress = Progress(confirmed: nat, started: bool)

  /** The protocol's next state, or None when the action is out of order. */
  function Advance(phases: seq<Phase>, p: Progress, a: Action): Option<Progress> {
    if p.confirmed >= |phases| || a.service != phases[p.confirmed].service then None
    else if a.Start? then if p.started then None else Some(Progress(p.confirmed, true))
    else if !p.started then None
    else if a.state == phases[p.confirmed].expected then Some(Progress(p.confirmed + 1, false))
    else Some(p)
  }

  function Replay(phases: seq<Phase>, log: seq<Action>): Option<Progress> {
    if log == [] then Some(Progress(0, false))
    else
      var p := Replay(phases, log[..|log| - 1]);
      if p.None? then None else Advance(phases, p.value, log[|log| - 1])
  }

  function Started(log: seq<Action>): seq<string> {
    if log == [] then []
    else
      var init, a := Started(log[..|log| - 1]), log[|log| - 1];
      if a.Start? then init + [a.service] else init
  }

  function Services(phases: seq<Phase>, n: nat): seq<string>
    requires n <= |phases|
  {
    seq(n, i requires 0 <= i < n => phases[i].service)
  }

  /** Service i was seen in its expected state, after it was told to start and before any later one was. */
  ghost predicate Confirmed(phases: seq<Phase>, log: seq<Action>, i: nat)
    requires i < |phases|
  {
    exists k :: 0 <= k < |log| && log[k] == Observe(phases[i].service, phases[i].expected)
      && Started(log[..k]) == Services(phases, i + 1)
  }

  lemma ConfirmedStays(phases: seq<Phase>, log: seq<Action>, a: Action, i: nat)
    requires i < |phases| && Confirmed(phases, log, i)
    ensures Confirmed(phases, log + [a], i)
  {
    var k :| 0 <= k < |log| && log[k] == Observe(phases[i].service, phases[i].expected)
      && Started(log[..k]) == Services(phases, i + 1);
    assert (log + [a])[..k] == log[..k] && (log + [a])[k] == log[k];
  }

  /** One protocol action extends the prefix of started services or confirms its last one. */
  lemma AdvanceKeepsPrefix(phases: seq<Phase>, log: seq<Action>, a: Action, before: Progress, after: Progress)
    requires before.confirmed + (if before.started then 1 else 0) <= |phases|
    requires Started(log) == Services(phases, before.confirmed + (if before.started then 1 else 0))
    requires Advance(phases, before, a) == Some(after)
    ensures after.confirmed + (if after.started then 1 else 0) <= |phases|
    ensures Started(log + [a]) == Services(phases, after.confirmed + (if after.started then 1 else 0))
    ensures after.confirmed == before.confirmed || (after.confirmed == before.confirmed + 1 && Confirmed(phases, log + [a], before.confirmed))
  {
    var extended := log + [a];
    assert extended[..|log|] == log && extended[|log|] == a;
    if after.confirmed > before.confirmed {
      assert a == Observe(phases[before.confirmed].service, phases[before.confirmed].expected);
    }
  }

  /** In every log the protocol allows, the services told to start are a prefix of the phases, and
      all of them but possibly the last were confirmed before the next was started. */
  lemma {:induction false} ReplayMeansPrefix(phases: seq<Phase>, log: seq<Action>, p: Progress)
    requires Replay(phases, log) == Some(p)
    ensures p.confirmed + (if p.started then 1 else 0) <= |phases|
    ensures Started(log) == Services(phases, p.confirmed + (if p.started then 1 else 0))
    ensures forall i: nat | i < p.confirmed :: Confirmed(phases, log, i)
  {
    if log != [] {
      var init, a := log[..|log| - 1], log[|log| - 1];
      var before := Replay(phases, init).value;
      ReplayMeansPrefix(phases, init, before);
      assert log == init + [a];
      forall i: nat | i < before.confirmed ensures Confirmed(phases, log, i) { ConfirmedStays(phases, init, a, i); }
      AdvanceKeepsPrefix(phases, init, a, before, p);
    }
  }

  lemma {:induction false} ReplayPrefix(phases: seq<Phase>, log: seq<Action>, k: nat)
    requires k <= |log| && Replay(phases, log).Some?
    ensures Replay(phases, log[..k]).Some?
  {
    if k < |log| {
      ReplayPrefix(phases, log[..|log| - 1], k);
      assert log[..|log| - 1][..k] == log[..k];
    } else {
      assert log[..k] == log;
    }
  }

  /** Observed in its expected state before action k. */
  ghost predicate SeenBefore(phases: seq<Phase>, log: seq<Action>, j: nat, k: nat)
    requires j < |phases| && k <= |log|
  {
    exists m :: 0 <= m < k && log[m] == Observe(phases[j].service, phases[j].expected)
  }

  /** In every log the protocol allows, a service is told to start only when all earlier phases have
      been seen in their expected states. */
  lemma StartsInOrder(phases: seq<Phase>, log: seq<Action>, k: nat) returns (i: nat)
    requires Replay(phases, log).Some? && k < |log| && log[k].Start?
    ensures i < |phases| && log[k].service == phases[i].service
    ensures forall j: nat | j < i :: SeenBefore(phases, log, j, k)
  {
    ReplayPrefix(phases, log, k);
    ReplayPrefix(phases, log, k + 1);
    assert log[..k + 1][..k] == log[..k];
    var p := Replay(phases, log[..k]).value;
    i := p.confirmed;
    ReplayMeansPrefix(phases, log[..k], p);
    forall j: nat | j < i ensures SeenBefore(phases, log, j, k) {
      assert Confirmed(phases, log[..k], j);
      var m :| 0 <= m < k && log[..k][m] == Observe(phases[j].service, phases[j].expected)
        && Started(log[..k][..m]) == Services(phases, j + 1);
      assert log[m] == log[..k][m];
    }
  }

  /** The started services are exactly those the log tells to start, as often as it does. */
  lemma {:induction false} StartedIs(log: seq<Action>, service: string)
    ensures multiset(Started(log))[service] == |set k | 0 <= k < |log| && log[k] == Start(service)|
  {
    if log != [] {
      var n := |log| - 1;
      StartedIs(log[..n], service);
      var before := set k | 0 <= k < n && log[..n][k] == Start(service);
      var all := set k | 0 <= k < |log| && log[k] == Start(service);
      assert all == before + if log[n] == Start(service) then {n} else {};
    }
  }

  // ---------- the environment ----------

  class Runtime {
    var now: real
    ghost var log: seq<Action>
    /** The containers that exist and those of them that run. */
    var present: set<string>
    var running: set<string>

    constructor (containers: set<string>, live: set<string>)
      requires live <= containers
      ensures log == [] && present == containers && running == live
    {
      now, log, present, running := 0.0, [], containers, live;
    }

    /** time.monotonic(): never goes back. */
    method Monotonic() returns (t: real)
      modifies this`now
      ensures t == now >= old(now)
    {
      t := *;
      if t < now { t := now; }
      now := t;
    }

    /** Readiness checks of configuration, secrets and PKI mounts. */
    method Check() returns (r: Result<(), Failure>)
      modifies this`now
      ensures now >= old(now) && (r.Err? ==> r.error == ConfigRejected)
    {
      var t := Monotonic();
      var ok: bool := *;
      if ok { r := Ok(()); } else { r := Err(ConfigRejected); }
    }

    /** docker compose ps -aq: the container's id, empty when the service has none. */
    method ContainerId(service: string) returns (r: Result<string, Failure>)
      modifies this`now
      ensures now >= old(now)
      ensures r.Ok? ==> (r.value != "" <==> service in present)
      ensures r.Err? ==> r.error == CommandFailed
    {
      var t := Monotonic();
      var ok: bool := *;
      if !ok { return Err(CommandFailed); }
      var id: string := *;
      if service in present { return Ok("c" + id); }
      return Ok("");
    }

    /** docker compose start: the service is told to start even if the command then fails. */
    method StartService(service: string) returns (r: Result<(), Failure>)
      modifies this`now, this`log
      ensures now >= old(now) && log == old(log) + [Start(service)]
      ensures r.Err? ==> r.error == CommandFailed
    {
      var t := Monotonic();
      log := log + [Start(service)];
      var ok: bool := *;
      if ok { r := Ok(()); } else { r := Err(CommandFailed); }
    }

    /** docker inspect: any state, or a failed command. */
    method Inspect(service: string) returns (r: Result<string, Failure>)
      modifies this`now, this`log
      ensures now >= old(now)
      ensures r.Ok? ==> log == old(log) + [Observe(service, r.value)]
      ensures r.Err? ==> r.error == CommandFailed && log == old(log)
    {
      var t := Monotonic();
      var ok: bool := *;
      if !ok { return Err(CommandFailed); }
      var state: string := *;
      log := log + [Observe(service, state)];
      return Ok(state);
    }

    method Sleep(seconds: real)
      requires seconds >= 0.0
      modifies this`now
      ensures now >= old(now) + seconds
    {
      now := now + seconds;
      var t := Monotonic();
    }

    /** docker compose stop: a failed command may or may not have stopped the service. */
    method StopService(service: string) returns (r: Result<(), Failure>)
      modifies this`now, this`running
      ensures now >= old(now)
      ensures r.Ok? ==> running == old(running) - {service}
      ensures r.Err? ==> r.error == CommandFailed && (running == old(running) || running == old(running) - {service})
    {
      var t := Monotonic();
      var ok: bool, stopped: bool := *, *;
      if ok || stopped { running := running - {service}; }
      if ok { r := Ok(()); } else { r := Err(CommandFailed); }
    }
  }

  // ---------- waiting ----------

  function Ceiling(x: real): int { -(0.0 - x).Floor }

  /** The least integer not below. */
  lemma CeilingMeans(x: real)
    ensures x <= Ceiling(x) as real < x + 1.0
  {
  }

  /** A poll that starts before the deadline is one of the first ceil(wait / poll). */
  lemma PollBound(k: nat, wait: real, poll: real)
    requires poll > 0.0 && k as real * poll < wait
    ensures k + 1 <= Ceiling(wait / poll)
  {
    assert k as real == k as real * poll / poll;
    assert k as real * poll / poll < wait / poll;
  }

  /** When poll k has come and a pause has passed, poll k + 1 has come. */
  lemma NextPoll(k: nat, poll: real, start: real, before: real, now: real)
    requires before >= start + k as real * poll && now >= before + poll
    ensures now >= start + (k + 1) as real * poll
  {
    assert (k + 1) as real * poll == k as real * poll + poll;
  }

  /** Observations of one service, none but possibly the last of which ends the wait. */
  ghost predicate Polls(seen: seq<Action>, service: string, expected: string) {
    && (forall i | 0 <= i < |seen| :: seen[i].Observe? && seen[i].service == service)
    && (forall i | 0 <= i < |seen| - 1 :: seen[i].state != expected && !Failed(seen[i].state))
  }

  /** How a wait ended agrees with what was last seen. */
  ghost predicate Explains(r: Result<(), Failure>, seen: seq<Action>, service: string, expected: string) {
    && (r.Ok? <==> seen != [] && seen[|seen| - 1] == Observe(service, expected))
    && (r.Err? ==> (r.error == CommandFailed || r.error == TimedOut(service)
                    || (seen != [] && seen[|seen| - 1].Observe? && Failed(seen[|seen| - 1].state)
                        && r.error == ReadinessFailed(service, seen[|seen| - 1].state))))
    && (r == Err(TimedOut(service)) && seen != [] ==>
        seen[|seen| - 1].Observe? && seen[|seen| - 1].state != expected && !Failed(seen[|seen| - 1].state))
  }

  /** A wait goes on while the state is neither the expected one nor "unhealthy", "exited" or "dead";
      it succeeds on the expected state, fails on one of these three, and times out on none. */
  lemma WaitMeans(r: Result<(), Failure>, seen: seq<Action>, service: string, expected: string)
    requires Polls(seen, service, expected) && Explains(r, seen, service, expected)
    ensures forall i | 0 <= i < |seen| - 1 ::
      (seen[i].Observe? && seen[i].service == service && seen[i].state != expected
       && seen[i].state != "unhealthy" && seen[i].state != "exited" && seen[i].state != "dead")
    ensures r.Ok? <==> seen != [] && seen[|seen| - 1] == Observe(service, expected)
    ensures r.Err? && r.error.ReadinessFailed? ==>
      seen != [] && seen[|seen| - 1] == Observe(service, r.error.state)
      && (r.error.state == "unhealthy" || r.error.state == "exited" || r.error.state == "dead")
    ensures r == Err(TimedOut(service)) && seen != [] ==>
      var last := seen[|seen| - 1];
      last.Observe? && last.state != expected && last.state != "unhealthy" && last.state != "exited" && last.state != "dead"
  {
  }

  /** The wait is 10 to 600 seconds and the poll 0.1 to 10 seconds. */
  predicate InBounds(wait: int, poll: real) { 10 <= wait <= 600 && 0.1 <= poll <= 10.0 }

  lemma BoundsMean(wait: int, poll: real)
    ensures InBounds(wait, poll) <==> !(wait < 10 || wait > 600 || poll < 0.1 || poll > 10.0)
  {
  }

  class Lifecycle {
    const runtime: Runtime
    const phases: seq<Phase>
    const waitSeconds: int
    const pollSeconds: real

    constructor (r: Runtime, wait: int, poll: real)
      ensures runtime == r && waitSeconds == wait && pollSeconds == poll
      ensures phases == START_PHASES && phases != [] && DistinctServices(phases)
    {
      runtime, phases, waitSeconds, pollSeconds := r, START_PHASES, wait, poll;
    }

    predicate BoundsValid() { InBounds(waitSeconds, pollSeconds) }

    /** wait: at most ceil(wait / poll) inspections, whatever the commands take. */
    method Wait(service: string, expected: string) returns (r: Result<(), Failure>, ghost seen: seq<Action>)
      requires BoundsValid()
      modifies runtime`now, runtime`log
      ensures runtime.log == old(runtime.log) + seen && runtime.now >= old(runtime.now)
      ensures Polls(seen, service, expected) && Explains(r, seen, service, expected)
      ensures |seen| <= Ceiling(waitSeconds as real / pollSeconds)
      ensures r == Err(TimedOut(service)) ==> runtime.now >= old(runtime.now) + waitSeconds as real
    {
      var start := runtime.Monotonic();
      var deadline := start + waitSeconds as real;
      seen := [];
      var clock := runtime.Monotonic();
      PollBound(0, waitSeconds as real, pollSeconds);
      while clock < deadline
        invariant clock == runtime.now >= start + |seen| as real * pollSeconds
        invariant runtime.log == old(runtime.log) + seen
        invariant Polls(seen, service, expected)
        invariant forall i | 0 <= i < |seen| :: seen[i].state != expected && !Failed(seen[i].state)
        invariant |seen| <= Ceiling(waitSeconds as real / pollSeconds)
        decreases Ceiling(waitSeconds as real / pollSeconds) - |seen|
      {
        ghost var k := |seen|;
        PollBound(k, waitSeconds as real, pollSeconds);
        ghost var before := clock;
        var state := runtime.Inspect(service);
        if state.Err? { return Err(state.error), seen; }
        seen := seen + [Observe(service, state.value)];
        if state.value == expected { return Ok(()), seen; }
        if Failed(state.value) { return Err(ReadinessFailed(service, state.value)), seen; }
        runtime.Sleep(pollSeconds);
        clock := runtime.Monotonic();
        NextPoll(k, pollSeconds, start, before, clock);
      }
      r := Err(TimedOut(service));
    }

    /** One phase: refuse an absent container, tell the service to start, wait for its state. */
    method StartPhase(i: nat, ghost trace: seq<Action>)
      returns (r: Result<(), Failure>, ghost extended: seq<Action>, ghost p: Progress)
      requires BoundsValid() && i < |phases| && Replay(phases, trace) == Some(Progress(i, false))
      modifies runtime`now, runtime`log
      ensures trace <= extended && runtime.log == old(runtime.log) + extended[|trace|..]
      ensures Replay(phases, extended) == Some(p)
      ensures p == Progress(i + 1, false) || p.confirmed == i
      ensures r.Ok? <==> p == Progress(i + 1, false)
      ensures r.Err? && r.error.ServiceAbsent? ==> p == Progress(i, false) && r.error.service == phases[i].service
    {
      var phase := phases[i];
      extended, p := trace, Progress(i, false);
      var container := runtime.ContainerId(phase.service);
      if container.Err? { return Err(container.error), extended, p; }
      if container.value == "" { return Err(ServiceAbsent(phase.service)), extended, p; }
      var started := runtime.StartService(phase.service);
      ReplayStart(phases, trace, i);
      extended, p := trace + [Start(phase.service)], Progress(i, true);
      if started.Err? { return started, extended, p; }
      ghost var seen;
      r, seen := Wait(phase.service, phase.expected);
      ReplayPolls(phases, extended, i, seen);
      p := if r.Ok? then Progress(i + 1, false) else p;
      extended := extended + seen;
    }

    /** The bounds check, then the phases in order until one fails. */
    method RunPhases() returns (r: Result<(), Failure>, ghost trace: seq<Action>, ghost p: Progress)
      requires phases != []
      modifies runtime`now, runtime`log
      ensures runtime.log == old(runtime.log) + trace && Replay(phases, trace) == Some(p)
      ensures !(10 <= waitSeconds <= 600 && 0.1 <= pollSeconds <= 10.0) ==> r == Err(ConfigRejected) && trace == []
      ensures r.Ok? <==> p == Progress(|phases|, false)
      ensures r.Err? && r.error.ServiceAbsent? ==>
        p.confirmed < |phases| && !p.started && r.error.service == phases[p.confirmed].service
    {
      trace, p := [], Progress(0, false);
      if !BoundsValid() { return Err(ConfigRejected), trace, p; }
      var checked := runtime.Check();
      if checked.Err? { return checked, trace, p; }
      var i := 0;
      while i < |phases|
        invariant 0 <= i <= |phases|
        invariant runtime.log == old(runtime.log) + trace
        invariant p == Progress(i, false) && Replay(phases, trace) == Some(p)
      {
        ghost var before := trace;
        r, trace, p := StartPhase(i, trace);
        assert trace == before + trace[|before|..];
        if r.Err? { return r, trace, p; }
        i := i + 1;
      }
      r := Ok(());
    }

    /** start: on every exit the services told to start are a prefix of the phases, and all but
        possibly the last were seen in their expected state before the next was started. */
    method StartAll() returns (r: Result<(), Failure>, ghost trace: seq<Action>, ghost p: Progress)
      requires phases != []
      modifies runtime`now, runtime`log
      ensures runtime.log == old(runtime.log) + trace && Replay(phases, trace) == Some(p)
      ensures !(10 <= waitSeconds <= 600 && 0.1 <= pollSeconds <= 10.0) ==> r == Err(ConfigRejected) && trace == []
      ensures r.Ok? <==> p == Progress(|phases|, false)
      ensures p.confirmed + (if p.started then 1 else 0) <= |phases|
      ensures Started(trace) == Services(phases, p.confirmed + (if p.started then 1 else 0))
      ensures forall i: nat | i < p.confirmed :: Confirmed(phases, trace, i)
      ensures r.Err? && r.error.ServiceAbsent? ==>
        p.confirmed < |phases| && !p.started && r.error.service == phases[p.confirmed].service
    {
      r, trace, p := RunPhases();
      ReplayMeansPrefix(phases, trace, p);
    }

    /** stop: from the last phase to the first, one service at a time. */
    method StopAll() returns (r: Result<(), Failure>, ghost snapshots: seq<set<string>>)
      requires runtime.running <= runtime.present && DistinctServices(phases)
      modifies runtime`now, runtime`running
      ensures |snapshots| > 0 && snapshots[0] == old(runtime.running) && snapshots[|snapshots| - 1] == runtime.running
      ensures forall k | 0 <= k < |snapshots| - 1 :: snapshots[k + 1] <= snapshots[k]
      ensures PrefixClosed(phases, old(runtime.running)) ==> forall k | 0 <= k < |snapshots| :: PrefixClosed(phases, snapshots[k])
      ensures !(10 <= waitSeconds <= 600 && 0.1 <= pollSeconds <= 10.0) ==>
        r == Err(ConfigRejected) && runtime.running == old(runtime.running)
      ensures r.Ok? ==> forall i | 0 <= i < |phases| :: phases[i].service !in runtime.running
      ensures forall s | s in old(runtime.running) && s !in runtime.running :: exists i :: 0 <= i < |phases| && phases[i].service == s
    {
      snapshots := [runtime.running];
      if !BoundsValid() { return Err(ConfigRejected), snapshots; }
      var j := |phases|;
      while j > 0
        invariant 0 <= j <= |phases|
        invariant runtime.running <= old(runtime.running) && old(runtime.running) - Managed(phases) <= runtime.running
        invariant Shrinks(snapshots, old(runtime.running), runtime.running)
        invariant PrefixClosed(phases, old(runtime.running)) ==> forall k | 0 <= k < |snapshots| :: PrefixClosed(phases, snapshots[k])
        invariant StoppedFrom(phases, runtime.running, j)
      {
        var service := phases[j - 1].service;
        var container := runtime.ContainerId(service);
        if container.Err? { return Err(container.error), snapshots; }
        if container.value != "" {
          ghost var before := runtime.running;
          StopKeepsPrefix(phases, before, j - 1);
          var stopped := runtime.StopService(service);
          snapshots := snapshots + [runtime.running];
          if stopped.Err? { return stopped, snapshots; }
        }
        j := j - 1;
      }
      r := Ok(());
    }
  }

  /** Snapshots of the running set, from the first to the last, each contained in the one before. */
  ghost predicate Shrinks(snapshots: seq<set<string>>, first: set<string>, last: set<string>) {
    && |snapshots| > 0 && snapshots[0] == first && snapshots[|snapshots| - 1] == last
    && forall k | 0 <= k < |snapshots| - 1 :: snapshots[k + 1] <= snapshots[k]
  }

  ghost predicate StoppedFrom(phases: seq<Phase>, running: set<string>, j: nat) {
    forall i | j <= i < |phases| :: phases[i].service !in running
  }

  ghost function Managed(phases: seq<Phase>): set<string> {
    set i | 0 <= i < |phases| :: phases[i].service
  }

  /** A running set that contains a phase's service contains those of all earlier phases. */
  ghost predicate PrefixClosed(phases: seq<Phase>, running: set<string>) {
    forall i, j | 0 <= i < j < |phases| && phases[j].service in running :: phases[i].service in running
  }

  /** The running services of the phases are those of the first n. */
  ghost predicate FirstRun(phases: seq<Phase>, running: set<string>, n: nat) {
    forall i | 0 <= i < |phases| :: phases[i].service in running <==> i < n
  }

  /** A running set is prefix-closed exactly when the running services of the phases are the first n. */
  lemma ClosedMeans(phases: seq<Phase>, running: set<string>)
    ensures PrefixClosed(phases, running) <==>
      exists n: nat :: n <= |phases| && FirstRun(phases, running, n)
  {
    if PrefixClosed(phases, running) {
      var n := 0;
      while n < |phases| && phases[n].service in running
        invariant 0 <= n <= |phases| && forall i | 0 <= i < n :: phases[i].service in running
      {
        n := n + 1;
      }
      assert FirstRun(phases, running, n);
    }
  }

  lemma StopKeepsPrefix(phases: seq<Phase>, running: set<string>, j: nat)
    requires DistinctServices(phases) && j < |phases| && StoppedFrom(phases, running, j + 1)
    ensures PrefixClosed(phases, running) ==> PrefixClosed(phases, running - {phases[j].service})
    ensures StoppedFrom(phases, running - {phases[j].service}, j)
    ensures phases[j].service in Managed(phases)
  {
    var rest := running - {phases[j].service};
    if PrefixClosed(phases, running) {
      forall i, k | 0 <= i < k < |phases| && phases[k].service in rest ensures phases[i].service in rest {
        assert k <= j;
        assert i < j && phases[i].service != phases[j].service;
      }
    }
  }

  lemma ReplayStart(phases: seq<Phase>, trace: seq<Action>, i: nat)
    requires i < |phases| && Replay(phases, trace) == Some(Progress(i, false))
    ensures Replay(phases, trace + [Start(phases[i].service)]) == Some(Progress(i, true))
  {
    assert (trace + [Start(phases[i].service)])[..|trace|] == trace;
  }

  lemma {:induction false} ReplayPolls(phases: seq<Phase>, trace: seq<Action>, i: nat, seen: seq<Action>)
    requires i < |phases| && Replay(phases, trace) == Some(Progress(i, true))
    requires Polls(seen, phases[i].service, phases[i].expected)
    ensures Replay(phases, trace + seen)
      == Some(if seen != [] && seen[|seen| - 1] == Observe(phases[i].service, phases[i].expected)
              then Progress(i + 1, false) else Progress(i, true))
  {
    if seen == [] {
      assert trace + seen == trace;
    } else {
      var n := |seen| - 1;
      ReplayPolls(phases, trace, i, seen[..n]);
      assert n > 0 ==> seen[..n][n - 1] == seen[n - 1];
      assert (trace + seen)[..|trace + seen| - 1] == trace + seen[..n];
    }
  }
}
