/** The decision broker (src/broker/linux.rs): one accept loop, up to sixteen
    handler threads, a shared ledger, a shutdown flag and the audit log, under
    every interleaving of their steps. */
module Broker {
  import opened Common
  import opened Audit
  import Outcome
  import opened Ledger

  const MAX_ACTIVE_CONNECTIONS := 16

  datatype Config = Config(
    audited: bool,                         // an audit path is configured
    admitted: bool,                        // an admission is configured
    otherChecks: HookInput -> bool,        // the remaining tests of `decide`
    digests: Digests,
    toolHash: HookInput -> Hash,
    inputHash: HookInput -> Option<Hash>)
  {
    /** `decide` allows only the permission event. */
    predicate Allows(input: HookInput) {
      input.event == Some(PERMISSION_REQUEST) && otherChecks(input)
    }
  }

  datatype Phase =
    | Accepted
    | Attempted
    | Parsed(input: HookInput)
    | Noted(input: HookInput)          // the invocation is on record
    | Screened(input: HookInput)       // first group of checks passed
    | Cleared(input: HookInput)        // every check but the ledger passed
    | Granted(input: HookInput)        // the ledger consumed the request
    | RequestLogged(input: HookInput)
    | AllowLogged(input: HookInput)
    | Answered(input: HookInput)       // the allow response was written
    | Finished                         // `handle_connection` returned
    | Exited                           // the connection counter was decremented

  /** `lines` counts the audit lines this handler has appended. */
  datatype Handler = Handler(phase: Phase, lines: nat)

  datatype HandlerAction =
    | Drop                             // any failure or refusal ends the connection
    | LogAttempt
    | ReadRequest(input: HookInput)
    | LogInvoked
    | Screen
    | Clear
    | ConsumeLedger(pid: nat, started: nat)
    | LogRequest
    | LogAllow
    | Answer
    | LogEmitted
    | Leave

  /** Program counter of the accept loop. */
  datatype Serve =
    | Looping
    | Reaping(pending: seq<nat>, running: seq<nat>)
    | Checking
    | Accepting
    | Counting                         // a stream was accepted
    | BackingOut
    | Spawning
    | Draining(rest: seq<nat>)
    | Ended

  datatype ServeAction =
    | SeeShutdown
    | BeginReap
    | ReapNext(finished: bool)
    | EndReap
    | CheckCapacity
    | AcceptNothing
    | AcceptFailure
    | AcceptStream
    | FetchAdd
    | BackOut
    | Spawn
    | JoinNext
    | EndDrain

  datatype LauncherAction = SetIdentity | StopAccepting | ReturnFromShutdown

  datatype Action = OfHandler(h: nat, act: HandlerAction) | OfServe(step: ServeAction) | OfLauncher(op: LauncherAction)

  datatype State = State(
    serve: Serve,
    workers: seq<nat>,
    joined: seq<nat>,
    handlers: map<nat, Handler>,
    counter: int,
    shutdown: bool,
    identityKnown: bool,
    ledger: LedgerState,
    granted: seq<Attempt>,             // attempts the ledger granted, in order
    grantees: seq<nat>,                // the handlers they were granted to
    log: seq<Record>,                  // the audit file, as the records appended to it
    grantedAtStop: Option<nat>,        // grants when the shutdown flag was first raised
    returned: bool)                    // `Broker::shutdown` has returned

  const START := State(Looping, [], [], map[], 0, false, false, EMPTY, [], [], [], None, false)

  // ----- Handlers -----

  predicate Alive(h: Handler) {
    !h.phase.Exited?
  }

  predicate HandlerEnabled(cfg: Config, s: State, h: nat, a: HandlerAction) {
    h in s.handlers &&
    var phase := s.handlers[h].phase;
    match a
    case Drop => !phase.Finished? && !phase.Exited?
    case LogAttempt => phase.Accepted?
    case ReadRequest(_) => phase.Attempted?
    case LogInvoked => phase.Parsed?
    case Screen => phase.Noted? && s.identityKnown && !s.shutdown
    case Clear => phase.Screened? && cfg.Allows(phase.input) && !s.shutdown
    case ConsumeLedger(_, _) => phase.Cleared?
    case LogRequest => phase.Granted?
    case LogAllow => phase.RequestLogged?
    case Answer => phase.AllowLogged?
    case LogEmitted => phase.Answered?
    case Leave => phase.Finished?
  }

  /** The ledger's answer to this handler; the mutex makes the call atomic. */
  function Decision(cfg: Config, s: State, input: HookInput, a: HandlerAction): (bool, LedgerState)
    requires a.ConsumeLedger?
  {
    Consume(cfg.digests, s.ledger, Attempt(input, a.pid, a.started), !cfg.admitted)
  }

  function NextPhase(cfg: Config, s: State, h: nat, a: HandlerAction): Phase
    requires HandlerEnabled(cfg, s, h, a)
  {
    var phase := s.handlers[h].phase;
    match a
    case Drop => Finished
    case LogAttempt => Attempted
    case ReadRequest(input) => Parsed(input)
    case LogInvoked => Noted(phase.input)
    case Screen => Screened(phase.input)
    case Clear => Cleared(phase.input)
    case ConsumeLedger(_, _) => if Decision(cfg, s, phase.input, a).0 then Granted(phase.input) else Finished
    case LogRequest => RequestLogged(phase.input)
    case LogAllow => AllowLogged(phase.input)
    case Answer => Answered(phase.input)
    case LogEmitted => Finished
    case Leave => Exited
  }

  /** The audit line a step appends when an audit path is configured. A failed
      append writes nothing and is a `Drop`. */
  function Appended(cfg: Config, s: State, h: nat, a: HandlerAction): seq<Record>
    requires HandlerEnabled(cfg, s, h, a)
  {
    if !cfg.audited then []
    else
      var phase := s.handlers[h].phase;
      match a
      case LogAttempt => [Connection]
      case LogInvoked => [Invoked(phase.input.event, cfg.toolHash(phase.input))]
      case LogRequest => [Request(phase.input.event, cfg.toolHash(phase.input), cfg.inputHash(phase.input))]
      case LogAllow => [Allowed(cfg.toolHash(phase.input), cfg.inputHash(phase.input))]
      case LogEmitted => [Emitted(cfg.toolHash(phase.input), cfg.inputHash(phase.input))]
      case _ => []
  }

  function ApplyHandler(cfg: Config, s: State, h: nat, a: HandlerAction): State
    requires HandlerEnabled(cfg, s, h, a)
  {
    var lines := Appended(cfg, s, h, a);
    var moved := s.(handlers := s.handlers[h := Handler(NextPhase(cfg, s, h, a), s.handlers[h].lines + |lines|)],
                    log := s.log + lines,
                    counter := if a.Leave? then s.counter - 1 else s.counter);
    if a.ConsumeLedger? then
      var input := s.handlers[h].phase.input;
      var (ok, ledger) := Decision(cfg, s, input, a);
      if ok then
        moved.(ledger := ledger, granted := s.granted + [Attempt(input, a.pid, a.started)], grantees := s.grantees + [h])
      else moved
    else moved
  }

  // ----- The accept loop -----

  predicate HasExited(s: State, h: nat) {
    h in s.handlers && s.handlers[h].phase.Exited?
  }

  predicate ServeEnabled(s: State, a: ServeAction) {
    match a
    case SeeShutdown => s.serve.Looping? && s.shutdown
    case BeginReap => s.serve.Looping? && !s.shutdown
    case ReapNext(finished) => s.serve.Reaping? && s.serve.pending != [] && (finished ==> HasExited(s, s.serve.pending[0]))
    case EndReap => s.serve.Reaping? && s.serve.pending == []
    case CheckCapacity => s.serve.Checking?
    case AcceptNothing => s.serve.Accepting?
    case AcceptFailure => s.serve.Accepting?
    case AcceptStream => s.serve.Accepting?
    case FetchAdd => s.serve.Counting?
    case BackOut => s.serve.BackingOut?
    case Spawn => s.serve.Spawning?
    case JoinNext => s.serve.Draining? && s.serve.rest != [] && HasExited(s, s.serve.rest[0])
    case EndDrain => s.serve.Draining? && s.serve.rest == []
  }

  function ApplyServe(s: State, a: ServeAction): State
    requires ServeEnabled(s, a)
  {
    match a
    case SeeShutdown => s.(serve := Draining(s.workers), workers := [])
    case BeginReap => s.(serve := Reaping(s.workers, []), workers := [])
    case ReapNext(finished) =>
      var worker, rest := s.serve.pending[0], s.serve.pending[1..];
      if finished then s.(serve := Reaping(rest, s.serve.running), joined := s.joined + [worker])
      else s.(serve := Reaping(rest, s.serve.running + [worker]))
    case EndReap => s.(serve := Checking, workers := s.serve.running)
    case CheckCapacity => s.(serve := if s.counter >= MAX_ACTIVE_CONNECTIONS then Looping else Accepting)
    case AcceptNothing => s.(serve := Looping)
    case AcceptFailure => s.(serve := Draining(s.workers), workers := [])
    case AcceptStream => s.(serve := Counting)
    case FetchAdd =>
      s.(serve := if s.counter >= MAX_ACTIVE_CONNECTIONS then BackingOut else Spawning, counter := s.counter + 1)
    case BackOut => s.(serve := Looping, counter := s.counter - 1)
    case Spawn =>
      var h := |s.handlers|;
      s.(serve := Looping, handlers := s.handlers[h := Handler(Accepted, 0)], workers := s.workers + [h])
    case JoinNext => s.(serve := Draining(s.serve.rest[1..]), joined := s.joined + [s.serve.rest[0]])
    case EndDrain => s.(serve := Ended)
  }

  /** The workers whose observed state is `want`, in their order. */
  function Select(workers: seq<nat>, finished: nat -> bool, want: bool): seq<nat> {
    if workers == [] then []
    else
      var front, last := workers[..|workers| - 1], workers[|workers| - 1];
      Select(front, finished, want) + if finished(last) == want then [last] else []
  }

  /** Reaping neither loses nor duplicates a worker. */
  lemma {:induction false} SelectSplits(workers: seq<nat>, finished: nat -> bool)
    ensures multiset(Select(workers, finished, false)) + multiset(Select(workers, finished, true)) == multiset(workers)
  {
    if workers != [] {
      var front, last := workers[..|workers| - 1], workers[|workers| - 1];
      SelectSplits(front, finished);
      assert workers == front + [last];
      var running, joined := Select(front, finished, false), Select(front, finished, true);
      OneMore(multiset(running), multiset(joined), multiset(front), multiset([last]));
      assert multiset(front + [last]) == multiset(front) + multiset([last]);
      if finished(last) {
        assert Select(workers, finished, false) == running;
        assert Select(workers, finished, true) == joined + [last];
      } else {
        assert Select(workers, finished, false) == running + [last];
        assert Select(workers, finished, true) == joined;
      }
    }
  }

  lemma OneMore(a: multiset<nat>, b: multiset<nat>, whole: multiset<nat>, x: multiset<nat>)
    requires a + b == whole
    ensures a + (b + x) == whole + x && (a + x) + b == whole + x
  {
  }

  /** `reap_finished_workers`: one pass that joins exactly the finished threads
      and keeps the others in their order. */
  method ReapFinishedWorkers(workers: seq<nat>, finished: nat -> bool) returns (running: seq<nat>, joined: seq<nat>)
    ensures running == Select(workers, finished, false) && joined == Select(workers, finished, true)
    ensures multiset(running) + multiset(joined) == multiset(workers)
  {
    running, joined := [], [];
    for i := 0 to |workers|
      invariant running == Select(workers[..i], finished, false)
      invariant joined == Select(workers[..i], finished, true)
    {
      assert workers[..i + 1][..i] == workers[..i];
      if finished(workers[i]) {
        joined := joined + [workers[i]];
      } else {
        running := running + [workers[i]];
      }
    }
    assert workers[..|workers|] == workers;
    SelectSplits(workers, finished);
  }

  // ----- The launcher -----

  predicate LauncherEnabled(s: State, a: LauncherAction) {
    a.ReturnFromShutdown? ==> s.shutdown && s.serve.Ended?
  }

  function ApplyLauncher(s: State, a: LauncherAction): State {
    match a
    case SetIdentity => s.(identityKnown := true)
    case StopAccepting =>
      s.(shutdown := true, grantedAtStop := if s.grantedAtStop.None? then Some(|s.granted|) else s.grantedAtStop)
    case ReturnFromShutdown => s.(returned := true)
  }

  // ----- Runs -----

  predicate Enabled(cfg: Config, s: State, a: Action) {
    match a
    case OfHandler(h, act) => HandlerEnabled(cfg, s, h, act)
    case OfServe(step) => ServeEnabled(s, step)
    case OfLauncher(op) => LauncherEnabled(s, op)
  }

  function Apply(cfg: Config, s: State, a: Action): State
    requires Enabled(cfg, s, a)
  {
    match a
    case OfHandler(h, act) => ApplyHandler(cfg, s, h, act)
    case OfServe(step) => ApplyServe(s, step)
    case OfLauncher(op) => ApplyLauncher(s, op)
  }

  /** The state after a schedule, when every step of it is possible. */
  function After(cfg: Config, schedule: seq<Action>): Option<State> {
    if schedule == [] then Some(START)
    else
      match After(cfg, schedule[..|schedule| - 1])
      case None => None
      case Some(s) =>
        var a := schedule[|schedule| - 1];
        if Enabled(cfg, s, a) then Some(Apply(cfg, s, a)) else None
  }

  // ----- Connections and threads -----

  function Live(handlers: map<nat, Handler>): set<nat> {
    set h | h in handlers && Alive(handlers[h])
  }

  /** Threads that are spawned but not joined yet, as the accept loop holds them. */
  function Outstanding(s: State): seq<nat> {
    match s.serve
    case Reaping(pending, running) => pending + running
    case Draining(rest) => rest
    case _ => s.workers
  }

  ghost predicate CounterInv(s: State) {
    && (forall h: nat :: h in s.handlers <==> h < |s.handlers|)
    && s.counter == |Live(s.handlers)| + (if s.serve.Spawning? then 1 else 0)
    && s.counter <= MAX_ACTIVE_CONNECTIONS
    && !s.serve.BackingOut?
    && (s.serve.Accepting? || s.serve.Counting? ==> s.counter < MAX_ACTIVE_CONNECTIONS)
  }

  ghost predicate ThreadInv(s: State) {
    && (forall h: nat :: h in s.handlers <==> h < |s.handlers|)
    && multiset(Outstanding(s)) + multiset(s.joined) == multiset(s.handlers.Keys)
    && (forall h :: h in s.joined ==> HasExited(s, h))
    && ControlInv(s)
  }

  predicate ControlInv(s: State) {
    && (s.serve.Reaping? || s.serve.Draining? || s.serve.Ended? ==> s.workers == [])
    && (s.returned ==> s.serve.Ended?)
  }

  lemma LiveUpdate(handlers: map<nat, Handler>, h: nat, next: Handler)
    ensures Live(handlers[h := next]) ==
            if Alive(next) then Live(handlers) + {h} else Live(handlers) - {h}
  {
  }

  lemma HandlerKeepsCounter(cfg: Config, s: State, h: nat, a: HandlerAction)
    requires CounterInv(s) && HandlerEnabled(cfg, s, h, a)
    ensures CounterInv(ApplyHandler(cfg, s, h, a))
  {
    MoveKeepsCounter(s, ApplyHandler(cfg, s, h, a), h);
  }

  lemma MoveKeepsCounter(s: State, t: State, h: nat)
    requires CounterInv(s) && h in s.handlers && h in t.handlers && t.handlers == s.handlers[h := t.handlers[h]]
    requires t.serve == s.serve && Alive(s.handlers[h])
    requires t.counter == (if Alive(t.handlers[h]) then s.counter else s.counter - 1)
    ensures CounterInv(t)
  {
    LiveUpdate(s.handlers, h, t.handlers[h]);
    assert h in Live(s.handlers);
    if Alive(t.handlers[h]) {
      assert Live(t.handlers) == Live(s.handlers);
    }
  }

  lemma SpawnFresh(s: State)
    requires forall h: nat :: h in s.handlers <==> h < |s.handlers|
    ensures var spawned: nat := |s.handlers|;
            var t := s.handlers[spawned := Handler(Accepted, 0)];
            && |s.handlers| !in s.handlers && |t| == |s.handlers| + 1
            && (forall h: nat :: h in t <==> h < |t|)
            && |Live(t)| == |Live(s.handlers)| + 1
            && multiset(t.Keys) == multiset(s.handlers.Keys) + multiset{spawned}
  {
    var h := |s.handlers|;
    var t := s.handlers[h := Handler(Accepted, 0)];
    assert h !in s.handlers;
    assert t.Keys == s.handlers.Keys + {h};
    assert |t| == |t.Keys| == |s.handlers.Keys| + 1;
    SpawnLive(s.handlers, h);
  }

  lemma SpawnLive(handlers: map<nat, Handler>, h: nat)
    requires h !in handlers
    ensures |Live(handlers[h := Handler(Accepted, 0)])| == |Live(handlers)| + 1
  {
    LiveUpdate(handlers, h, Handler(Accepted, 0));
    assert h !in Live(handlers);
  }

  lemma ServeKeepsCounter(s: State, a: ServeAction)
    requires CounterInv(s) && ServeEnabled(s, a)
    ensures CounterInv(ApplyServe(s, a))
  {
    if a.Spawn? { SpawnFresh(s); }
  }

  lemma HandlerKeepsThreads(cfg: Config, s: State, h: nat, a: HandlerAction)
    requires ThreadInv(s) && HandlerEnabled(cfg, s, h, a)
    ensures ThreadInv(ApplyHandler(cfg, s, h, a))
  {
    MoveKeepsThreads(s, ApplyHandler(cfg, s, h, a), h);
  }

  lemma MoveKeepsThreads(s: State, t: State, h: nat)
    requires ThreadInv(s) && h in s.handlers && h in t.handlers && t.handlers == s.handlers[h := t.handlers[h]]
    requires t.serve == s.serve && t.workers == s.workers && t.joined == s.joined && t.returned == s.returned
    requires Alive(s.handlers[h])
    ensures ThreadInv(t)
  {
  }

  lemma SpawnKeepsThreads(s: State)
    requires ThreadInv(s) && s.serve.Spawning?
    ensures ThreadInv(ApplyServe(s, Spawn))
  {
    SpawnFresh(s);
    var t := ApplyServe(s, Spawn);
    forall j | j in t.joined ensures HasExited(t, j) {
      assert HasExited(s, j);
    }
  }

  lemma ReapMoves(pending: seq<nat>, running: seq<nat>, joined: seq<nat>)
    requires pending != []
    ensures multiset(pending[1..] + running) + multiset(joined + [pending[0]]) == multiset(pending + running) + multiset(joined)
    ensures multiset(pending[1..] + (running + [pending[0]])) == multiset(pending + running)
  {
    assert pending == [pending[0]] + pending[1..];
  }

  lemma ReapKeepsThreads(s: State, finished: bool)
    requires ThreadInv(s) && ServeEnabled(s, ReapNext(finished))
    ensures ThreadInv(ApplyServe(s, ReapNext(finished)))
  {
    ReapMoves(s.serve.pending, s.serve.running, s.joined);
    ThreadsMove(s, ApplyServe(s, ReapNext(finished)));
  }

  /** Threads may move between outstanding and joined, the joined ones having exited. */
  lemma ThreadsMove(s: State, t: State)
    requires ThreadInv(s) && t.handlers == s.handlers && ControlInv(t)
    requires multiset(Outstanding(t)) + multiset(t.joined) == multiset(Outstanding(s)) + multiset(s.joined)
    requires forall j :: j in t.joined ==> j in s.joined || HasExited(s, j)
    ensures ThreadInv(t)
  {
    forall j | j in t.joined ensures HasExited(t, j) {
      assert HasExited(s, j);
    }
  }

  lemma HeadMoves(rest: seq<nat>, joined: seq<nat>)
    requires rest != []
    ensures multiset(rest[1..]) + multiset(joined + [rest[0]]) == multiset(rest) + multiset(joined)
  {
    assert rest == [rest[0]] + rest[1..];
  }

  lemma JoinKeepsThreads(s: State)
    requires ThreadInv(s) && ServeEnabled(s, JoinNext)
    ensures ThreadInv(ApplyServe(s, JoinNext))
  {
    var t := ApplyServe(s, JoinNext);
    HeadMoves(s.serve.rest, s.joined);
    ThreadsMove(s, t);
  }

  lemma ServeKeepsThreads(s: State, a: ServeAction)
    requires ThreadInv(s) && ServeEnabled(s, a)
    ensures ThreadInv(ApplyServe(s, a))
  {
    match a
    case Spawn => SpawnKeepsThreads(s);
    case ReapNext(finished) => ReapKeepsThreads(s, finished);
    case JoinNext => JoinKeepsThreads(s);
    case _ => ControlKeepsThreads(s, a);
  }

  lemma ControlKeepsThreads(s: State, a: ServeAction)
    requires ThreadInv(s) && ServeEnabled(s, a) && !a.Spawn? && !a.ReapNext? && !a.JoinNext?
    ensures ThreadInv(ApplyServe(s, a))
  {
    ThreadsMove(s, ApplyServe(s, a));
  }

  // ----- The audit log -----

  /** The five kinds of line, in the order in which a handler appends them. */
  function KindAt(k: nat): Kind {
    if k == 1 then KConnection
    else if k == 2 then KInvoked
    else if k == 3 then KRequest
    else if k == 4 then KAllowed
    else if k == 5 then KEmitted
    else KOther
  }

  /** The handlers that appended at least `k` lines. */
  function Reached(handlers: map<nat, Handler>, k: nat): set<nat> {
    set h | h in handlers && handlers[h].lines >= k
  }

  /** Lines appended by a handler that is in the middle of its connection. */
  function LinesBefore(phase: Phase): nat {
    if phase.Accepted? then 0
    else if phase.Attempted? || phase.Parsed? then 1
    else if phase.Noted? || phase.Screened? || phase.Cleared? || phase.Granted? then 2
    else if phase.RequestLogged? then 3
    else 4
  }

  predicate PastDecision(phase: Phase) {
    phase.Cleared? || phase.Granted? || phase.RequestLogged? || phase.AllowLogged? || phase.Answered?
  }

  predicate HandlerOk(cfg: Config, h: Handler) {
    && h.lines <= 5
    && (!cfg.audited ==> h.lines == 0)
    && (cfg.audited && !h.phase.Finished? && !h.phase.Exited? ==> h.lines == LinesBefore(h.phase))
    && (PastDecision(h.phase) ==> h.phase.input.event == Some(PERMISSION_REQUEST))
  }

  ghost predicate Tracked(handlers: map<nat, Handler>, log: seq<Record>) {
    && (forall k :: 1 <= k <= 5 ==> Count(log, KindAt(k)) == |Reached(handlers, k)|)
    && PrefixOrdered(log) && AllReadable(log)
  }

  ghost predicate LogInv(cfg: Config, s: State) {
    && Tracked(s.handlers, s.log)
    && (forall h :: h in s.handlers ==> HandlerOk(cfg, s.handlers[h]))
    && (!cfg.audited ==> s.log == [])
  }

  lemma ReachedNested(handlers: map<nat, Handler>, k: nat)
    ensures Reached(handlers, k + 1) <= Reached(handlers, k)
    ensures |Reached(handlers, k + 1)| <= |Reached(handlers, k)|
  {
    CardinalityMonotone(Reached(handlers, k + 1), Reached(handlers, k));
  }

  lemma CardinalityMonotone(a: set<nat>, b: set<nat>)
    requires a <= b
    ensures |a| <= |b|
  {
    assert b == a + (b - a);
  }

  lemma ReachedUpdate(handlers: map<nat, Handler>, h: nat, next: Handler, k: nat)
    requires h in handlers && next.lines == handlers[h].lines + 1
    ensures |Reached(handlers[h := next], k)| == |Reached(handlers, k)| + if k == next.lines then 1 else 0
  {
    var after := Reached(handlers[h := next], k);
    if k == next.lines {
      assert after == Reached(handlers, k) + {h} && h !in Reached(handlers, k);
    } else {
      assert after == Reached(handlers, k);
    }
  }

  /** One handler appends its next line. */
  lemma TrackAppend(handlers: map<nat, Handler>, log: seq<Record>, h: nat, next: Handler, r: Record)
    requires Tracked(handlers, log) && h in handlers && next.lines == handlers[h].lines + 1 <= 5
    requires KindOf(r) == KindAt(next.lines) && Readable(r)
    ensures Tracked(handlers[h := next], log + [r])
  {
    var t := handlers[h := next];
    forall k | 1 <= k <= 5 ensures Count(log + [r], KindAt(k)) == |Reached(t, k)| {
      ReachedUpdate(handlers, h, next, k);
    }
    OrderedByReach(t, log + [r]);
    PrefixOrderedAppend(log, r);
  }

  lemma OrderedByReach(handlers: map<nat, Handler>, log: seq<Record>)
    requires forall k :: 1 <= k <= 5 ==> Count(log, KindAt(k)) == |Reached(handlers, k)|
    ensures Ordered(log)
  {
    ReachedNested(handlers, 1);
    ReachedNested(handlers, 2);
    ReachedNested(handlers, 3);
    ReachedNested(handlers, 4);
    assert KindAt(1) == KConnection && KindAt(2) == KInvoked && KindAt(3) == KRequest;
    assert KindAt(4) == KAllowed && KindAt(5) == KEmitted;
  }

  lemma PrefixOrderedAppend(log: seq<Record>, r: Record)
    requires PrefixOrdered(log) && Ordered(log + [r])
    ensures PrefixOrdered(log + [r])
  {
    forall n | 0 <= n <= |log| + 1 ensures Ordered((log + [r])[..n]) {
      if n <= |log| {
        assert (log + [r])[..n] == log[..n];
      } else {
        assert (log + [r])[..n] == log + [r];
      }
    }
  }

  lemma TrackMove(handlers: map<nat, Handler>, log: seq<Record>, h: nat, next: Handler)
    requires Tracked(handlers, log) && next.lines == if h in handlers then handlers[h].lines else 0
    ensures Tracked(handlers[h := next], log)
  {
    forall k | 1 <= k <= 5 ensures Reached(handlers[h := next], k) == Reached(handlers, k) {
    }
  }

  lemma PhaseStaysOk(cfg: Config, s: State, h: nat, a: HandlerAction)
    requires HandlerEnabled(cfg, s, h, a) && HandlerOk(cfg, s.handlers[h])
    ensures HandlerOk(cfg, Handler(NextPhase(cfg, s, h, a), s.handlers[h].lines + |Appended(cfg, s, h, a)|))
  {
  }

  lemma LineIsNext(cfg: Config, s: State, h: nat, a: HandlerAction)
    requires HandlerEnabled(cfg, s, h, a) && HandlerOk(cfg, s.handlers[h]) && |Appended(cfg, s, h, a)| == 1
    ensures var line := Appended(cfg, s, h, a)[0];
            Readable(line) && KindOf(line) == KindAt(s.handlers[h].lines + 1) && cfg.audited
  {
  }

  /** The line that a step appends is the handler's next kind of line. */
  lemma AppendedIsNext(cfg: Config, s: State, h: nat, a: HandlerAction)
    requires HandlerEnabled(cfg, s, h, a) && HandlerOk(cfg, s.handlers[h])
    ensures var t := ApplyHandler(cfg, s, h, a);
            var lines := Appended(cfg, s, h, a);
            && h in t.handlers && HandlerOk(cfg, t.handlers[h])
            && t.log == s.log + lines && |lines| <= 1 && t.handlers[h].lines == s.handlers[h].lines + |lines|
            && (|lines| == 1 ==> Readable(lines[0]) && KindOf(lines[0]) == KindAt(t.handlers[h].lines) && cfg.audited)
  {
    PhaseStaysOk(cfg, s, h, a);
    if |Appended(cfg, s, h, a)| == 1 {
      LineIsNext(cfg, s, h, a);
    }
  }

  lemma HandlerKeepsLog(cfg: Config, s: State, h: nat, a: HandlerAction)
    requires LogInv(cfg, s) && HandlerEnabled(cfg, s, h, a)
    ensures LogInv(cfg, ApplyHandler(cfg, s, h, a))
  {
    AppendedIsNext(cfg, s, h, a);
    MoveKeepsLog(cfg, s, ApplyHandler(cfg, s, h, a), h, Appended(cfg, s, h, a));
  }

  lemma MoveKeepsLog(cfg: Config, s: State, t: State, h: nat, lines: seq<Record>)
    requires LogInv(cfg, s) && h in s.handlers && h in t.handlers && t.handlers == s.handlers[h := t.handlers[h]]
    requires HandlerOk(cfg, t.handlers[h])
    requires t.log == s.log + lines && |lines| <= 1 && t.handlers[h].lines == s.handlers[h].lines + |lines|
    requires |lines| == 1 ==> Readable(lines[0]) && KindOf(lines[0]) == KindAt(t.handlers[h].lines) && cfg.audited
    ensures LogInv(cfg, t)
  {
    if lines == [] {
      assert t.log == s.log;
      TrackMove(s.handlers, s.log, h, t.handlers[h]);
    } else {
      assert lines == [lines[0]];
      TrackAppend(s.handlers, s.log, h, t.handlers[h], lines[0]);
    }
  }

  lemma ServeKeepsLog(cfg: Config, s: State, a: ServeAction)
    requires LogInv(cfg, s) && CounterInv(s) && ServeEnabled(s, a)
    ensures LogInv(cfg, ApplyServe(s, a))
  {
    if a.Spawn? {
      TrackMove(s.handlers, s.log, |s.handlers|, Handler(Accepted, 0));
    }
  }

  // ----- Grants -----

  predicate HoldsGrant(phase: Phase) {
    phase.Granted? || phase.RequestLogged? || phase.AllowLogged? || phase.Answered?
  }

  predicate PastLedger(phase: Phase) {
    HoldsGrant(phase) || phase.Finished? || phase.Exited?
  }

  ghost predicate GrantInv(cfg: Config, s: State) {
    && Remembers(cfg.digests, s.ledger, s.granted)
    && Exclusive(cfg.digests, s.granted, !cfg.admitted)
    && GranteesInv(s.handlers, s.grantees) && |s.grantees| == |s.granted|
  }

  ghost predicate GranteesInv(handlers: map<nat, Handler>, grantees: seq<nat>) {
    && (forall i, j :: 0 <= i < j < |grantees| ==> grantees[i] != grantees[j])
    && (forall h :: h in grantees ==> h in handlers && PastLedger(handlers[h].phase))
    && (forall h :: h in handlers && (HoldsGrant(handlers[h].phase) || handlers[h].lines >= 3) ==> h in grantees)
  }

  lemma HandlerKeepsGrants(cfg: Config, s: State, h: nat, a: HandlerAction)
    requires GrantInv(cfg, s) && LogInv(cfg, s) && HandlerEnabled(cfg, s, h, a)
    ensures GrantInv(cfg, ApplyHandler(cfg, s, h, a))
  {
    GrantFrame(cfg, s, h, a);
    assert HandlerOk(cfg, s.handlers[h]);
    PhaseFrame(cfg, s, h, a);
    GranteesMove(s, ApplyHandler(cfg, s, h, a), h);
  }

  /** How a step changes the ledger and the grants. */
  lemma GrantFrame(cfg: Config, s: State, h: nat, a: HandlerAction)
    requires HandlerEnabled(cfg, s, h, a)
    requires Remembers(cfg.digests, s.ledger, s.granted) && Exclusive(cfg.digests, s.granted, !cfg.admitted)
    ensures var t := ApplyHandler(cfg, s, h, a);
            && Remembers(cfg.digests, t.ledger, t.granted) && Exclusive(cfg.digests, t.granted, !cfg.admitted)
            && ((t.granted == s.granted && t.grantees == s.grantees)
                || (|t.granted| == |s.granted| + 1 && t.grantees == s.grantees + [h] && a.ConsumeLedger?))
            && (t.grantees == s.grantees + [h] <==> a.ConsumeLedger? && Decision(cfg, s, s.handlers[h].phase.input, a).0)
  {
    if a.ConsumeLedger? {
      var attempt := Attempt(s.handlers[h].phase.input, a.pid, a.started);
      ConsumeStep(cfg.digests, s.ledger, s.granted, attempt, !cfg.admitted);
    }
  }

  /** How a step changes the phase of its handler. */
  lemma PhaseFrame(cfg: Config, s: State, h: nat, a: HandlerAction)
    requires HandlerEnabled(cfg, s, h, a) && HandlerOk(cfg, s.handlers[h])
    ensures var was := s.handlers[h];
            var now := Handler(NextPhase(cfg, s, h, a), was.lines + |Appended(cfg, s, h, a)|);
            && (PastLedger(was.phase) ==> PastLedger(now.phase))
            && (a.ConsumeLedger? <==> was.phase.Cleared? && !a.Drop?)
            && (HoldsGrant(now.phase) && !HoldsGrant(was.phase) ==> a.ConsumeLedger?)
            && (a.ConsumeLedger? ==> (now.phase.Granted? <==> Decision(cfg, s, was.phase.input, a).0))
            && (a.ConsumeLedger? ==> now.phase.Granted? || now.phase.Finished?)
            && (now.lines >= 3 ==> HoldsGrant(was.phase) || was.lines >= 3)
            && (now.phase.Cleared? ==> !s.shutdown)
  {
  }

  lemma GranteesMove(s: State, t: State, h: nat)
    requires GranteesInv(s.handlers, s.grantees)
    requires h in s.handlers && h in t.handlers && t.handlers == s.handlers[h := t.handlers[h]]
    requires t.grantees == s.grantees
             || (t.grantees == s.grantees + [h] && s.handlers[h].phase.Cleared? && t.handlers[h].phase.Granted?)
    requires PastLedger(s.handlers[h].phase) ==> PastLedger(t.handlers[h].phase)
    requires HoldsGrant(t.handlers[h].phase) && !HoldsGrant(s.handlers[h].phase) ==> t.grantees == s.grantees + [h]
    requires t.handlers[h].lines >= 3 ==> HoldsGrant(s.handlers[h].phase) || s.handlers[h].lines >= 3
    ensures GranteesInv(t.handlers, t.grantees)
  {
  }

  lemma ServeKeepsGrants(cfg: Config, s: State, a: ServeAction)
    requires GrantInv(cfg, s) && CounterInv(s) && ServeEnabled(s, a)
    ensures GrantInv(cfg, ApplyServe(s, a))
  {
    var t := ApplyServe(s, a);
    assert t.ledger == s.ledger && t.granted == s.granted && t.grantees == s.grantees;
    if a.Spawn? {
      NewHandlerHasNoGrant(s.handlers, s.grantees, |s.handlers|);
    } else {
      assert t.handlers == s.handlers;
    }
  }

  lemma NewHandlerHasNoGrant(handlers: map<nat, Handler>, grantees: seq<nat>, h: nat)
    requires GranteesInv(handlers, grantees) && h !in handlers
    ensures GranteesInv(handlers[h := Handler(Accepted, 0)], grantees)
  {
  }

  // ----- After the shutdown flag -----

  function ClearedSet(handlers: map<nat, Handler>): set<nat> {
    set h | h in handlers && handlers[h].phase.Cleared?
  }

  ghost predicate StopInv(s: State) {
    && (s.shutdown <==> s.grantedAtStop.Some?)
    && (s.shutdown ==> |s.granted| + |ClearedSet(s.handlers)| <= s.grantedAtStop.value + MAX_ACTIVE_CONNECTIONS)
  }

  lemma ClearedUpdate(handlers: map<nat, Handler>, h: nat, next: Handler)
    requires !next.phase.Cleared?
    ensures ClearedSet(handlers[h := next]) == ClearedSet(handlers) - {h}
  {
  }

  lemma HandlerKeepsStop(cfg: Config, s: State, h: nat, a: HandlerAction)
    requires StopInv(s) && GrantInv(cfg, s) && LogInv(cfg, s) && HandlerEnabled(cfg, s, h, a)
    ensures StopInv(ApplyHandler(cfg, s, h, a))
  {
    assert HandlerOk(cfg, s.handlers[h]);
    GrantFrame(cfg, s, h, a);
    PhaseFrame(cfg, s, h, a);
    StopMove(s, ApplyHandler(cfg, s, h, a), h);
  }

  lemma StopMove(s: State, t: State, h: nat)
    requires StopInv(s) && h in s.handlers && h in t.handlers && t.handlers == s.handlers[h := t.handlers[h]]
    requires t.shutdown == s.shutdown && t.grantedAtStop == s.grantedAtStop
    requires s.shutdown ==> !t.handlers[h].phase.Cleared?
    requires |t.granted| <= |s.granted| + if s.handlers[h].phase.Cleared? then 1 else 0
    ensures StopInv(t)
  {
    if s.shutdown {
      ClearedUpdate(s.handlers, h, t.handlers[h]);
      if s.handlers[h].phase.Cleared? {
        assert h in ClearedSet(s.handlers);
      } else {
        assert ClearedSet(s.handlers) - {h} == ClearedSet(s.handlers);
      }
    }
  }

  lemma ServeKeepsStop(s: State, a: ServeAction)
    requires StopInv(s) && CounterInv(s) && ServeEnabled(s, a)
    ensures StopInv(ApplyServe(s, a))
  {
    if a.Spawn? {
      ClearedUpdate(s.handlers, |s.handlers|, Handler(Accepted, 0));
      assert |s.handlers| !in ClearedSet(s.handlers);
      assert ClearedSet(ApplyServe(s, a).handlers) == ClearedSet(s.handlers);
    }
  }

  lemma LauncherKeepsStop(s: State, a: LauncherAction)
    requires StopInv(s) && CounterInv(s) && LauncherEnabled(s, a)
    ensures StopInv(ApplyLauncher(s, a))
  {
    CardinalityMonotone(ClearedSet(s.handlers), Live(s.handlers));
  }

  // ----- Every reachable state -----

  ghost predicate Inv(cfg: Config, s: State) {
    CounterInv(s) && ThreadInv(s) && LogInv(cfg, s) && GrantInv(cfg, s) && StopInv(s)
  }

  lemma InvStart(cfg: Config)
    ensures Inv(cfg, START)
  {
  }

  lemma InvHandler(cfg: Config, s: State, h: nat, a: HandlerAction)
    requires Inv(cfg, s) && HandlerEnabled(cfg, s, h, a)
    ensures Inv(cfg, ApplyHandler(cfg, s, h, a))
  {
    HandlerKeepsCounter(cfg, s, h, a);
    HandlerKeepsThreads(cfg, s, h, a);
    HandlerKeepsLog(cfg, s, h, a);
    HandlerKeepsGrants(cfg, s, h, a);
    HandlerKeepsStop(cfg, s, h, a);
  }

  lemma InvServe(cfg: Config, s: State, a: ServeAction)
    requires Inv(cfg, s) && ServeEnabled(s, a)
    ensures Inv(cfg, ApplyServe(s, a))
  {
    ServeKeepsCounter(s, a);
    ServeKeepsThreads(s, a);
    ServeKeepsLog(cfg, s, a);
    ServeKeepsGrants(cfg, s, a);
    ServeKeepsStop(s, a);
  }

  lemma InvLauncher(cfg: Config, s: State, a: LauncherAction)
    requires Inv(cfg, s) && LauncherEnabled(s, a)
    ensures Inv(cfg, ApplyLauncher(s, a))
  {
    LauncherKeepsStop(s, a);
    var t := ApplyLauncher(s, a);
    assert Outstanding(t) == Outstanding(s);
    assert forall j :: HasExited(t, j) <==> HasExited(s, j);
  }

  lemma InvStep(cfg: Config, s: State, a: Action)
    requires Inv(cfg, s) && Enabled(cfg, s, a)
    ensures Inv(cfg, Apply(cfg, s, a))
  {
    match a
    case OfHandler(h, act) => InvHandler(cfg, s, h, act);
    case OfServe(step) => InvServe(cfg, s, step);
    case OfLauncher(op) => InvLauncher(cfg, s, op);
  }

  lemma {:induction false} InvAlways(cfg: Config, schedule: seq<Action>)
    requires After(cfg, schedule).Some?
    ensures Inv(cfg, After(cfg, schedule).value)
  {
    if schedule == [] {
      InvStart(cfg);
    } else {
      InvAlways(cfg, schedule[..|schedule| - 1]);
      InvStep(cfg, After(cfg, schedule[..|schedule| - 1]).value, schedule[|schedule| - 1]);
    }
  }

  // ----- The main results -----

  /** On every schedule the counter is the number of live handlers, counting the
      one about to be spawned; it never exceeds sixteen and never backs out. */
  lemma CounterIsLiveHandlers(cfg: Config, schedule: seq<Action>)
    requires After(cfg, schedule).Some?
    ensures var s := After(cfg, schedule).value;
            && s.counter == |Live(s.handlers)| + (if s.serve.Spawning? then 1 else 0)
            && 0 <= s.counter <= 16
            && !s.serve.BackingOut?
  {
    InvAlways(cfg, schedule);
  }

  /** When the accept loop has ended, every handler that was ever spawned has
      been joined exactly once and has exited. */
  lemma JoinedExactlyOnce(cfg: Config, schedule: seq<Action>)
    requires After(cfg, schedule).Some? && After(cfg, schedule).value.serve.Ended?
    ensures var s := After(cfg, schedule).value;
            && multiset(s.joined) == multiset(s.handlers.Keys)
            && forall h :: h in s.handlers ==> HasExited(s, h)
  {
    InvAlways(cfg, schedule);
    EndedMeansExited(After(cfg, schedule).value);
  }

  /** Once `shutdown` has returned, no schedule appends another audit line,
      grants another request or starts another handler. */
  lemma {:induction false} QuietAfterShutdown(cfg: Config, schedule: seq<Action>, later: seq<Action>)
    requires After(cfg, schedule + later).Some?
    ensures After(cfg, schedule).Some?
    ensures After(cfg, schedule).value.returned ==>
              var s, t := After(cfg, schedule).value, After(cfg, schedule + later).value;
              t.returned && t.log == s.log && t.granted == s.granted && t.handlers == s.handlers
  {
    if later == [] {
      assert schedule + later == schedule;
    } else {
      var front := later[..|later| - 1];
      assert (schedule + later)[..|schedule + later| - 1] == schedule + front;
      QuietAfterShutdown(cfg, schedule, front);
      if After(cfg, schedule).value.returned {
        InvAlways(cfg, schedule + front);
        QuietStep(cfg, After(cfg, schedule + front).value, later[|later| - 1]);
      }
    }
  }

  lemma EndedMeansExited(s: State)
    requires ThreadInv(s) && s.serve.Ended?
    ensures multiset(s.joined) == multiset(s.handlers.Keys)
    ensures forall h :: h in s.handlers ==> HasExited(s, h)
  {
    assert Outstanding(s) == [];
    forall h | h in s.handlers ensures HasExited(s, h) {
      assert h in multiset(s.handlers.Keys);
      assert h in multiset(s.joined);
    }
  }

  /** With the accept loop ended and everybody gone, only the launcher can move. */
  lemma QuietStep(cfg: Config, s: State, a: Action)
    requires ThreadInv(s) && s.returned && Enabled(cfg, s, a)
    ensures var t := Apply(cfg, s, a);
            t.returned && t.log == s.log && t.granted == s.granted && t.handlers == s.handlers
  {
    EndedMeansExited(s);
    assert a.OfHandler? ==> a.h !in s.handlers || HasExited(s, a.h);
  }

  // ----- Shutdown comes to an end -----

  /** The most steps that a handler in this phase can still make. */
  function StepsLeft(phase: Phase): nat {
    match phase
    case Accepted => 11
    case Attempted => 10
    case Parsed(_) => 9
    case Noted(_) => 8
    case Screened(_) => 7
    case Cleared(_) => 6
    case Granted(_) => 5
    case RequestLogged(_) => 4
    case AllowLogged(_) => 3
    case Answered(_) => 2
    case Finished => 1
    case Exited => 0
  }

  /** The steps left to the handlers below `n`. */
  function HandlerWork(handlers: map<nat, Handler>, n: nat): nat {
    if n == 0 then 0
    else HandlerWork(handlers, n - 1) + if n - 1 in handlers then StepsLeft(handlers[n - 1].phase) else 0
  }

  /** The most steps left to an accept loop that will find the flag raised, with
      those of the one connection it may still start. */
  function ServeWork(s: State): nat {
    match s.serve
    case Ended => 0
    case Draining(rest) => |rest| + 1
    case Looping => |s.workers| + 2
    case BackingOut => |s.workers| + 3
    case Spawning => |s.workers| + 15
    case Counting => |s.workers| + 16
    case Accepting => |s.workers| + 17
    case Checking => |s.workers| + 18
    case Reaping(pending, running) => 2 * |pending| + |running| + 19
  }

  function Work(s: State): nat {
    ServeWork(s) + HandlerWork(s.handlers, |s.handlers|)
  }

  lemma {:induction false} WorkUpdate(handlers: map<nat, Handler>, h: nat, next: Handler, n: nat)
    ensures h >= n ==> HandlerWork(handlers[h := next], n) == HandlerWork(handlers, n)
    ensures h < n && h in handlers ==>
              HandlerWork(handlers[h := next], n) + StepsLeft(handlers[h].phase)
              == HandlerWork(handlers, n) + StepsLeft(next.phase)
  {
    if n > 0 {
      WorkUpdate(handlers, h, next, n - 1);
    }
  }

  lemma PhaseLowersWork(cfg: Config, s: State, h: nat, a: HandlerAction)
    requires HandlerEnabled(cfg, s, h, a)
    ensures StepsLeft(NextPhase(cfg, s, h, a)) < StepsLeft(s.handlers[h].phase)
  {
  }

  lemma HandlerLowersWork(cfg: Config, s: State, h: nat, a: HandlerAction)
    requires CounterInv(s) && HandlerEnabled(cfg, s, h, a)
    ensures var t := ApplyHandler(cfg, s, h, a);
            Work(t) < Work(s) && t.shutdown == s.shutdown
  {
    var t := ApplyHandler(cfg, s, h, a);
    var next := t.handlers[h];
    PhaseLowersWork(cfg, s, h, a);
    MoveLowersWork(s, t, h, next);
  }

  lemma MoveLowersWork(s: State, t: State, h: nat, next: Handler)
    requires h in s.handlers && h < |s.handlers| && t.handlers == s.handlers[h := next]
    requires t.serve == s.serve && t.workers == s.workers
    requires StepsLeft(next.phase) < StepsLeft(s.handlers[h].phase)
    ensures Work(t) < Work(s)
  {
    WorkUpdate(s.handlers, h, next, |s.handlers|);
    assert t.handlers.Keys == s.handlers.Keys;
    assert |t.handlers| == |s.handlers|;
  }

  lemma ServeLowersWork(s: State, a: ServeAction)
    requires CounterInv(s) && s.shutdown && ServeEnabled(s, a)
    ensures Work(ApplyServe(s, a)) < Work(s) && ApplyServe(s, a).shutdown
  {
    if a.Spawn? {
      SpawnFresh(s);
      WorkUpdate(s.handlers, |s.handlers|, Handler(Accepted, 0), |s.handlers|);
    }
  }

  /** Once the flag is up every step of the loop or of a handler uses up work. */
  lemma StepLowersWork(cfg: Config, s: State, a: Action)
    requires CounterInv(s) && s.shutdown && Enabled(cfg, s, a) && !a.OfLauncher?
    ensures Work(Apply(cfg, s, a)) < Work(s) && Apply(cfg, s, a).shutdown
  {
    match a
    case OfHandler(h, act) => HandlerLowersWork(cfg, s, h, act);
    case OfServe(step) => ServeLowersWork(s, step);
  }

  /** The steps of a schedule that are not the launcher's. */
  function OwnSteps(schedule: seq<Action>): nat {
    if schedule == [] then 0
    else OwnSteps(schedule[..|schedule| - 1]) + if schedule[|schedule| - 1].OfLauncher? then 0 else 1
  }

  /** The flag is up, and at most so much work is left. */
  ghost predicate Within(s: State, work: int) {
    s.shutdown && Work(s) <= work
  }

  /** After the flag is raised no schedule runs for ever: the loop and the handlers
      make at most as many steps as there was work. */
  lemma {:induction false} ShutdownIsBounded(cfg: Config, schedule: seq<Action>, later: seq<Action>)
    requires After(cfg, schedule + later).Some?
    ensures After(cfg, schedule).Some?
    ensures After(cfg, schedule).value.shutdown ==>
              Within(After(cfg, schedule + later).value, Work(After(cfg, schedule).value) - OwnSteps(later))
  {
    if later == [] {
      assert schedule + later == schedule;
    } else {
      var front, a := later[..|later| - 1], later[|later| - 1];
      assert schedule + later == schedule + front + [a];
      LastStep(cfg, schedule + front, a);
      ShutdownIsBounded(cfg, schedule, front);
      if After(cfg, schedule).value.shutdown {
        InvAlways(cfg, schedule + front);
        StepWithin(cfg, After(cfg, schedule + front).value, a, Work(After(cfg, schedule).value) - OwnSteps(front));
      }
    }
  }

  lemma LastStep(cfg: Config, schedule: seq<Action>, a: Action)
    requires After(cfg, schedule + [a]).Some?
    ensures After(cfg, schedule).Some? && Enabled(cfg, After(cfg, schedule).value, a)
    ensures After(cfg, schedule + [a]).value == Apply(cfg, After(cfg, schedule).value, a)
  {
    assert (schedule + [a])[..|schedule|] == schedule;
  }

  lemma StepWithin(cfg: Config, s: State, a: Action, work: int)
    requires CounterInv(s) && Within(s, work) && Enabled(cfg, s, a)
    ensures Within(Apply(cfg, s, a), if a.OfLauncher? then work else work - 1)
  {
    if !a.OfLauncher? {
      StepLowersWork(cfg, s, a);
    }
  }

  /** The accept loop's next step, when it need not wait for a handler. */
  function ServeNext(serve: Serve): (a: ServeAction)
    requires !serve.Ended?
  {
    match serve
    case Looping => SeeShutdown
    case Reaping(pending, _) => if pending == [] then EndReap else ReapNext(false)
    case Checking => CheckCapacity
    case Accepting => AcceptNothing
    case Counting => FetchAdd
    case BackingOut => BackOut
    case Spawning => Spawn
    case Draining(rest) => if rest == [] then EndDrain else JoinNext
  }

  /** Until `shutdown` returns somebody can always move: the loop, the handler it
      waits for, or the launcher that waits for the loop. */
  lemma ShutdownNeverStuck(cfg: Config, schedule: seq<Action>) returns (a: Action)
    requires After(cfg, schedule).Some?
    requires After(cfg, schedule).value.shutdown && !After(cfg, schedule).value.returned
    ensures Enabled(cfg, After(cfg, schedule).value, a)
    ensures if After(cfg, schedule).value.serve.Ended? then a == OfLauncher(ReturnFromShutdown) else !a.OfLauncher?
  {
    InvAlways(cfg, schedule);
    var s := After(cfg, schedule).value;
    if s.serve.Ended? {
      a := OfLauncher(ReturnFromShutdown);
    } else if s.serve.Draining? && s.serve.rest != [] && !HasExited(s, s.serve.rest[0]) {
      var h := s.serve.rest[0];
      assert h in multiset(Outstanding(s));
      assert h in multiset(s.handlers.Keys);
      a := OfHandler(h, if s.handlers[h].phase.Finished? then Leave else Drop);
    } else {
      a := OfServe(ServeNext(s.serve));
    }
  }

  lemma OneMoreStep(cfg: Config, schedule: seq<Action>, a: Action)
    requires After(cfg, schedule).Some? && Enabled(cfg, After(cfg, schedule).value, a)
    ensures After(cfg, schedule + [a]) == Some(Apply(cfg, After(cfg, schedule).value, a))
  {
    assert (schedule + [a])[..|schedule|] == schedule;
  }

  ghost predicate HasReturned(cfg: Config, schedule: seq<Action>) {
    After(cfg, schedule).Some? && After(cfg, schedule).value.returned
  }

  /** The flag is up, and so much work is left. */
  ghost predicate Stopping(cfg: Config, schedule: seq<Action>, work: nat) {
    After(cfg, schedule).Some? && After(cfg, schedule).value.shutdown && Work(After(cfg, schedule).value) == work
  }

  /** Every run can be continued until `shutdown` has returned. */
  lemma ShutdownCanReturn(cfg: Config, schedule: seq<Action>) returns (tail: seq<Action>)
    requires After(cfg, schedule).Some?
    ensures HasReturned(cfg, schedule + tail)
  {
    var stop := OfLauncher(StopAccepting);
    OneMoreStep(cfg, schedule, stop);
    var rest := RunToReturn(cfg, schedule + [stop], Work(After(cfg, schedule + [stop]).value));
    tail := [stop] + rest;
    assert schedule + tail == schedule + [stop] + rest;
  }

  lemma {:induction false} RunToReturn(cfg: Config, schedule: seq<Action>, work: nat) returns (tail: seq<Action>)
    requires Stopping(cfg, schedule, work)
    ensures HasReturned(cfg, schedule + tail)
    decreases work
  {
    var a, left := StepToReturn(cfg, schedule, work);
    tail := [a];
    if !HasReturned(cfg, schedule + [a]) {
      var rest := RunToReturn(cfg, schedule + [a], left);
      tail := [a] + rest;
      assert schedule + tail == schedule + [a] + rest;
    }
  }

  lemma StepToReturn(cfg: Config, schedule: seq<Action>, work: nat) returns (a: Action, left: nat)
    requires Stopping(cfg, schedule, work)
    ensures HasReturned(cfg, schedule + [a]) || (left < work && Stopping(cfg, schedule + [a], left))
  {
    var s := After(cfg, schedule).value;
    InvAlways(cfg, schedule);
    a := OfLauncher(ReturnFromShutdown);
    if !s.returned {
      a := ShutdownNeverStuck(cfg, schedule);
    }
    OneMoreStep(cfg, schedule, a);
    left := Work(After(cfg, schedule + [a]).value);
    if !a.OfLauncher? {
      StepLowersWork(cfg, s, a);
    }
  }

  // ----- Grants and the log -----

  /** On every schedule all grants share one session and repeat neither a process
      nor a serialised input; there are at most 4096, and at most one without
      an admission. The ledger's two sets have the number of the grants. */
  lemma GrantsAreExclusive(cfg: Config, schedule: seq<Action>)
    requires After(cfg, schedule).Some?
    ensures var s := After(cfg, schedule).value;
            && Exclusive(cfg.digests, s.granted, !cfg.admitted)
            && |s.ledger.invocations| == |s.granted| == |s.ledger.requests|
  {
    InvAlways(cfg, schedule);
  }

  /** At most sixteen requests can still be granted after the shutdown flag was raised. */
  lemma FewGrantsAfterStop(cfg: Config, schedule: seq<Action>)
    requires After(cfg, schedule).Some? && After(cfg, schedule).value.shutdown
    ensures var s := After(cfg, schedule).value;
            s.grantedAtStop.Some? && |s.granted| <= s.grantedAtStop.value + 16
  {
    InvAlways(cfg, schedule);
  }

  /** Every logged request, allow and emission stands for a grant of its own. */
  lemma LoggedAllowsAreGranted(cfg: Config, schedule: seq<Action>)
    requires After(cfg, schedule).Some?
    ensures var s := After(cfg, schedule).value;
            Count(s.log, KEmitted) <= Count(s.log, KAllowed) <= Count(s.log, KRequest) <= |s.granted|
  {
    InvAlways(cfg, schedule);
    var s := After(cfg, schedule).value;
    RequestsWithinGrants(s.handlers, s.log, s.grantees);
  }

  lemma RequestsWithinGrants(handlers: map<nat, Handler>, log: seq<Record>, grantees: seq<nat>)
    requires Tracked(handlers, log) && GranteesInv(handlers, grantees)
    ensures Count(log, KEmitted) <= Count(log, KAllowed) <= Count(log, KRequest) <= |grantees|
  {
    OrderedByReach(handlers, log);
    DistinctCount(grantees);
    CardinalityMonotone(Reached(handlers, 3), IdSet(grantees));
    assert Count(log, KindAt(3)) == |Reached(handlers, 3)|;
  }

  function IdSet(ids: seq<nat>): set<nat> {
    set h | h in ids
  }

  lemma {:induction false} DistinctCount(ids: seq<nat>)
    requires forall i, j :: 0 <= i < j < |ids| ==> ids[i] != ids[j]
    ensures |IdSet(ids)| == |ids|
  {
    if ids == [] {
      assert IdSet(ids) == {};
    } else {
      var front, last := ids[..|ids| - 1], ids[|ids| - 1];
      DistinctCount(front);
      assert ids == front + [last];
      assert IdSet(ids) == IdSet(front) + {last};
      assert last !in IdSet(front);
    }
  }

  /** Writer and reader agree on every run: each prefix of the log is ordered, and
      the file is never malformed; the reader gives up exactly when more than
      64 connections were made, and otherwise recovers the exact counts. */
  lemma AuditIsReadable(cfg: Config, schedule: seq<Action>)
    requires After(cfg, schedule).Some?
    ensures var s := After(cfg, schedule).value;
            && PrefixOrdered(s.log) && Ordered(s.log)
            && Count(s.log, KConnection) == |Reached(s.handlers, 1)|
            && Count(s.log, KEmitted) == |Reached(s.handlers, 5)|
            && (s.log != [] ==>
                  ReadAudit(Text(s.log)) ==
                  if Count(s.log, KConnection) > 64 then Err(Outcome.TooManyRecords) else Ok(Summary(s.log)))
  {
    InvAlways(cfg, schedule);
    var s := After(cfg, schedule).value;
    assert s.log == s.log[..|s.log|];
    assert KindAt(1) == KConnection && KindAt(5) == KEmitted;
    if s.log != [] {
      ReadOrderedLog(s.log);
    }
  }
}
