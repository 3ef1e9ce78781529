/** That the broker serves: as long as it has not been stopped, every request that
    may be granted can be accepted, granted, answered and logged. */
module BrokerService {
  import opened Common
  import opened Audit
  import opened Ledger
  import opened Broker
  import opened BrokerGrants

  /** What the accept loop leaves alone. */
  ghost predicate Kept(s: State, t: State) {
    && t.granted == s.granted && t.log == s.log && t.ledger == s.ledger
    && t.shutdown == s.shutdown && t.identityKnown == s.identityKnown
  }

  /** The loop runs and will accept connections. */
  predicate Open(s: State) {
    !s.shutdown && !s.serve.Draining? && !s.serve.Ended?
  }

  // ----- Back to the head of the loop -----

  function ToHead(serve: Serve): nat {
    match serve
    case Reaping(pending, _) => 3 + |pending|
    case Checking => 2
    case Accepting => 1
    case Counting => 2
    case BackingOut => 1
    case Spawning => 1
    case _ => 0
  }

  lemma HeadStep(s: State)
    requires Open(s) && !s.serve.Looping?
    ensures ServeEnabled(s, ServeNext(s.serve))
    ensures var t := ApplyServe(s, ServeNext(s.serve)); Open(t) && Kept(s, t) && ToHead(t.serve) < ToHead(s.serve)
  {
  }

  /** After `t` the loop is at its head, and nothing was granted or logged since `before`. */
  ghost predicate AtHead(cfg: Config, t: seq<Action>, before: State) {
    After(cfg, t).Some? && Open(After(cfg, t).value) && Kept(before, After(cfg, t).value) && After(cfg, t).value.serve.Looping?
  }

  /** The same, with `k` steps to go at most. */
  ghost predicate Heading(cfg: Config, t: seq<Action>, before: State, k: nat) {
    After(cfg, t).Some? && Open(After(cfg, t).value) && Kept(before, After(cfg, t).value) && ToHead(After(cfg, t).value.serve) <= k
  }

  lemma HeadOne(cfg: Config, t: seq<Action>, before: State, k: nat) returns (a: Action)
    requires Heading(cfg, t, before, k) && !AtHead(cfg, t, before)
    ensures k > 0 && Heading(cfg, t + [a], before, k - 1)
  {
    var s := After(cfg, t).value;
    a := OfServe(ServeNext(s.serve));
    HeadStep(s);
    OneMoreStep(cfg, t, a);
  }

  lemma {:induction false} ReturnToHead(cfg: Config, t: seq<Action>, before: State, k: nat) returns (u: seq<Action>)
    requires Heading(cfg, t, before, k)
    ensures t <= u && AtHead(cfg, u, before)
    decreases k
  {
    u := t;
    if !AtHead(cfg, t, before) {
      var a := HeadOne(cfg, t, before, k);
      u := ReturnToHead(cfg, t + [a], before, k - 1);
    }
  }

  // ----- Room for one more -----

  ghost predicate Roomy(cfg: Config, t: seq<Action>, before: State) {
    AtHead(cfg, t, before) && After(cfg, t).value.counter < MAX_ACTIVE_CONNECTIONS
  }

  lemma DropKeeps(cfg: Config, s: State, h: nat)
    requires h in s.handlers && Alive(s.handlers[h])
    ensures var a := if s.handlers[h].phase.Finished? then Leave else Drop;
            && HandlerEnabled(cfg, s, h, a)
            && var t := ApplyHandler(cfg, s, h, a);
               && Kept(s, t) && t.serve == s.serve && h in t.handlers
               && t.handlers[h].phase == (if a.Leave? then Exited else Finished)
               && t.counter == (if a.Leave? then s.counter - 1 else s.counter)
  {
  }

  /** A full broker makes room when a handler ends its connection. */
  lemma MakeRoom(cfg: Config, t: seq<Action>, before: State) returns (u: seq<Action>)
    requires AtHead(cfg, t, before)
    ensures t <= u && Roomy(cfg, u, before)
  {
    InvAlways(cfg, t);
    var s := After(cfg, t).value;
    u := t;
    if s.counter >= MAX_ACTIVE_CONNECTIONS {
      assert Live(s.handlers) != {};
      var h :| h in Live(s.handlers);
      u := EndConnection(cfg, t, before, h);
    }
  }

  lemma EndConnection(cfg: Config, t: seq<Action>, before: State, h: nat) returns (u: seq<Action>)
    requires AtHead(cfg, t, before) && After(cfg, t).value.counter <= MAX_ACTIVE_CONNECTIONS
    requires h in After(cfg, t).value.handlers && Alive(After(cfg, t).value.handlers[h])
    ensures t <= u && Roomy(cfg, u, before)
  {
    u := t;
    DropKeeps(cfg, After(cfg, t).value, h);
    if !After(cfg, t).value.handlers[h].phase.Finished? {
      OneMoreStep(cfg, t, OfHandler(h, Drop));
      u := t + [OfHandler(h, Drop)];
      DropKeeps(cfg, After(cfg, u).value, h);
    }
    OneMoreStep(cfg, u, OfHandler(h, Leave));
    u := u + [OfHandler(h, Leave)];
  }

  // ----- A new connection -----

  /** The loop's way from its head to a new handler. */
  function Accept(serve: Serve): ServeAction {
    match serve
    case Looping => BeginReap
    case Reaping(pending, _) => if pending == [] then EndReap else ReapNext(false)
    case Checking => CheckCapacity
    case Accepting => AcceptStream
    case Counting => FetchAdd
    case _ => Spawn
  }

  function ToSpawn(s: State): nat {
    match s.serve
    case Looping => |s.workers| + 6
    case Reaping(pending, _) => |pending| + 5
    case Checking => 4
    case Accepting => 3
    case Counting => 2
    case _ => 1
  }

  /** The loop is on that way. */
  ghost predicate Accepting(cfg: Config, t: seq<Action>, before: State, handlers: map<nat, Handler>, k: nat) {
    After(cfg, t).Some? &&
    var s := After(cfg, t).value;
    && ToSpawn(s) <= k && Open(s) && Kept(before, s) && s.handlers == handlers && !s.serve.BackingOut?
    && (!s.serve.Spawning? ==> s.counter < MAX_ACTIVE_CONNECTIONS)
  }

  /** Handler `h` is new. */
  ghost predicate Connected(cfg: Config, t: seq<Action>, before: State, h: nat) {
    After(cfg, t).Some? &&
    var s := After(cfg, t).value;
    Open(s) && Kept(before, s) && h in s.handlers && s.handlers[h] == Handler(Broker.Accepted, 0)
  }

  lemma AcceptStep(s: State)
    requires Open(s) && !s.serve.BackingOut? && (!s.serve.Spawning? ==> s.counter < MAX_ACTIVE_CONNECTIONS)
    ensures ServeEnabled(s, Accept(s.serve))
    ensures var t := ApplyServe(s, Accept(s.serve));
            && Open(t) && Kept(s, t)
            && (!s.serve.Spawning? ==>
                  && t.handlers == s.handlers && !t.serve.BackingOut? && ToSpawn(t) < ToSpawn(s)
                  && (!t.serve.Spawning? ==> t.counter < MAX_ACTIVE_CONNECTIONS))
            && (s.serve.Spawning? ==>
                  |s.handlers| in t.handlers && t.handlers[|s.handlers|] == Handler(Broker.Accepted, 0))
  {
  }

  lemma AcceptOne(cfg: Config, t: seq<Action>, before: State, handlers: map<nat, Handler>, k: nat) returns (a: Action)
    requires Accepting(cfg, t, before, handlers, k)
    ensures Connected(cfg, t + [a], before, |handlers|) || (k > 0 && Accepting(cfg, t + [a], before, handlers, k - 1))
  {
    var s := After(cfg, t).value;
    a := OfServe(Accept(s.serve));
    AcceptStep(s);
    OneMoreStep(cfg, t, a);
  }

  lemma {:induction false} Connect(cfg: Config, t: seq<Action>, before: State, handlers: map<nat, Handler>, k: nat)
    returns (u: seq<Action>)
    requires Accepting(cfg, t, before, handlers, k)
    ensures t <= u && Connected(cfg, u, before, |handlers|)
    decreases k
  {
    var a := AcceptOne(cfg, t, before, handlers, k);
    u := t + [a];
    if !Connected(cfg, t + [a], before, |handlers|) {
      u := Connect(cfg, t + [a], before, handlers, k - 1);
    }
  }

  // ----- One request, from its first line to its last -----

  datatype Plan = Plan(h: nat, input: HookInput, pid: nat, started: nat)
  {
    function Attempt(): Attempt {
      Ledger.Attempt(input, pid, started)
    }
  }

  function PhaseAt(plan: Plan, k: nat): Phase {
    if k == 0 then Broker.Accepted
    else if k == 1 then Attempted
    else if k == 2 then Parsed(plan.input)
    else if k == 3 then Noted(plan.input)
    else if k == 4 then Screened(plan.input)
    else if k == 5 then Cleared(plan.input)
    else if k == 6 then Granted(plan.input)
    else if k == 7 then RequestLogged(plan.input)
    else if k == 8 then AllowLogged(plan.input)
    else if k == 9 then Answered(plan.input)
    else if k == 10 then Finished
    else Exited
  }

  function StepAt(plan: Plan, k: nat): HandlerAction {
    if k == 0 then LogAttempt
    else if k == 1 then ReadRequest(plan.input)
    else if k == 2 then LogInvoked
    else if k == 3 then Screen
    else if k == 4 then Clear
    else if k == 5 then ConsumeLedger(plan.pid, plan.started)
    else if k == 6 then LogRequest
    else if k == 7 then LogAllow
    else if k == 8 then Answer
    else if k == 9 then LogEmitted
    else Leave
  }

  /** The five lines that a served request leaves, as far as they are written. */
  function LinesAt(cfg: Config, plan: Plan, k: nat): seq<Record> {
    var tool, input := cfg.toolHash(plan.input), cfg.inputHash(plan.input);
    if !cfg.audited then []
    else
      (if k >= 1 then [Connection] else [])
      + (if k >= 3 then [Invoked(plan.input.event, tool)] else [])
      + (if k >= 7 then [Request(plan.input.event, tool, input)] else [])
      + (if k >= 8 then [Allowed(tool, input)] else [])
      + (if k >= 10 then [Emitted(tool, input)] else [])
  }

  /** The request has come `k` steps of the way. */
  ghost predicate Served(cfg: Config, t: seq<Action>, before: State, plan: Plan, k: nat) {
    After(cfg, t).Some? &&
    var s := After(cfg, t).value;
    && !s.shutdown && s.identityKnown && plan.h in s.handlers && s.handlers[plan.h].phase == PhaseAt(plan, k)
    && s.log == before.log + LinesAt(cfg, plan, k)
    && s.granted == before.granted + (if k >= 6 then [plan.Attempt()] else [])
  }

  lemma StepIsEnabled(cfg: Config, s: State, plan: Plan, k: nat)
    requires Deserves(cfg, plan.input) && !s.shutdown && s.identityKnown && k <= 10
    requires plan.h in s.handlers && s.handlers[plan.h].phase == PhaseAt(plan, k)
    ensures HandlerEnabled(cfg, s, plan.h, StepAt(plan, k))
  {
  }

  lemma StepServes(cfg: Config, s: State, plan: Plan, k: nat)
    requires k <= 10 && k != 5 && plan.h in s.handlers && s.handlers[plan.h].phase == PhaseAt(plan, k)
    requires HandlerEnabled(cfg, s, plan.h, StepAt(plan, k))
    ensures var t := ApplyHandler(cfg, s, plan.h, StepAt(plan, k));
            && t.shutdown == s.shutdown && t.identityKnown == s.identityKnown && t.granted == s.granted
            && plan.h in t.handlers && t.handlers[plan.h].phase == PhaseAt(plan, k + 1)
            && t.log == s.log + LineAt(cfg, plan, k)
  {
  }

  /** The line of step `k`. */
  function LineAt(cfg: Config, plan: Plan, k: nat): seq<Record> {
    var tool, input := cfg.toolHash(plan.input), cfg.inputHash(plan.input);
    if !cfg.audited then []
    else if k == 0 then [Connection]
    else if k == 2 then [Invoked(plan.input.event, tool)]
    else if k == 6 then [Request(plan.input.event, tool, input)]
    else if k == 7 then [Allowed(tool, input)]
    else if k == 9 then [Emitted(tool, input)]
    else []
  }

  lemma LinesGrow(cfg: Config, plan: Plan, k: nat)
    requires k <= 10
    ensures LinesAt(cfg, plan, k + 1) == LinesAt(cfg, plan, k) + LineAt(cfg, plan, k)
  {
  }

  lemma StepGrants(cfg: Config, t: seq<Action>, s: State, plan: Plan)
    requires After(cfg, t) == Some(s) && plan.h in s.handlers && s.handlers[plan.h].phase == Cleared(plan.input)
    requires Grantable(cfg, s.granted, plan.Attempt())
    ensures HandlerEnabled(cfg, s, plan.h, StepAt(plan, 5))
    ensures var u := ApplyHandler(cfg, s, plan.h, StepAt(plan, 5));
            && u.shutdown == s.shutdown && u.identityKnown == s.identityKnown && u.log == s.log
            && u.granted == s.granted + [plan.Attempt()]
            && plan.h in u.handlers && u.handlers[plan.h].phase == Granted(plan.input)
  {
    GrantedExactly(cfg, t, plan.h, plan.pid, plan.started);
  }

  lemma Serve1(cfg: Config, t: seq<Action>, before: State, plan: Plan, k: nat)
    requires Served(cfg, t, before, plan, k) && k <= 10
    requires Deserves(cfg, plan.input) && Grantable(cfg, before.granted, plan.Attempt())
    ensures Served(cfg, t + [OfHandler(plan.h, StepAt(plan, k))], before, plan, k + 1)
  {
    var s := After(cfg, t).value;
    StepIsEnabled(cfg, s, plan, k);
    OneMoreStep(cfg, t, OfHandler(plan.h, StepAt(plan, k)));
    LinesGrow(cfg, plan, k);
    assert before.log + LinesAt(cfg, plan, k) + LineAt(cfg, plan, k) == before.log + LinesAt(cfg, plan, k + 1);
    if k == 5 {
      assert s.granted == before.granted;
      StepGrants(cfg, t, s, plan);
    } else {
      StepServes(cfg, s, plan, k);
    }
  }

  lemma {:induction false} ServeAll(cfg: Config, t: seq<Action>, before: State, plan: Plan, k: nat) returns (u: seq<Action>)
    requires Served(cfg, t, before, plan, k) && k <= 11
    requires Deserves(cfg, plan.input) && Grantable(cfg, before.granted, plan.Attempt())
    ensures t <= u && Served(cfg, u, before, plan, 11)
    decreases 11 - k
  {
    u := t;
    if k < 11 {
      Serve1(cfg, t, before, plan, k);
      u := ServeAll(cfg, t + [OfHandler(plan.h, StepAt(plan, k))], before, plan, k + 1);
    }
  }

  // ----- The main result -----

  lemma RoomyAccepts(cfg: Config, t: seq<Action>, before: State) returns (handlers: map<nat, Handler>, k: nat)
    requires Roomy(cfg, t, before)
    ensures Accepting(cfg, t, before, handlers, k)
  {
    handlers, k := After(cfg, t).value.handlers, ToSpawn(After(cfg, t).value);
  }

  /** A new handler, in a run that goes on from `t`. */
  lemma NewHandler(cfg: Config, t: seq<Action>, before: State, k: nat) returns (u: seq<Action>, h: nat)
    requires Heading(cfg, t, before, k)
    ensures t <= u && Connected(cfg, u, before, h)
  {
    u := ReturnToHead(cfg, t, before, k);
    u := MakeRoom(cfg, u, before);
    var handlers, n := RoomyAccepts(cfg, u, before);
    u := Connect(cfg, u, before, handlers, n);
    h := |handlers|;
  }

  lemma BeginServing(cfg: Config, t: seq<Action>, before: State, plan: Plan)
    requires Connected(cfg, t, before, plan.h)
    ensures Served(cfg, t + [OfLauncher(SetIdentity)], before, plan, 0)
  {
    OneMoreStep(cfg, t, OfLauncher(SetIdentity));
    assert LinesAt(cfg, plan, 0) == [];
  }

  /** The lines that tell of a served request, in their order. */
  function FiveLines(cfg: Config, input: HookInput): seq<Record> {
    var tool, hash := cfg.toolHash(input), cfg.inputHash(input);
    [Connection, Invoked(input.event, tool), Request(input.event, tool, hash), Allowed(tool, hash), Emitted(tool, hash)]
  }

  /** Every request that deserves it and fits beside the earlier grants can still be
      served, from every reachable state of a broker that accepts connections: a
      run goes on in which it is the next grant, its handler ends, and the log
      grows by its five lines. */
  lemma RequestCanBeServed(cfg: Config, schedule: seq<Action>, input: HookInput, pid: nat, started: nat)
    returns (tail: seq<Action>, h: nat)
    requires After(cfg, schedule).Some? && Open(After(cfg, schedule).value)
    requires input.event == Some("PermissionRequest") && cfg.otherChecks(input)
    requires Grantable(cfg, After(cfg, schedule).value.granted, Attempt(input, pid, started))
    ensures After(cfg, schedule + tail).Some?
    ensures var s, t := After(cfg, schedule).value, After(cfg, schedule + tail).value;
            && t.granted == s.granted + [Attempt(input, pid, started)] && HasExited(t, h)
            && t.log == s.log + if cfg.audited then FiveLines(cfg, input) else []
  {
    var before := After(cfg, schedule).value;
    var u;
    u, h := NewHandler(cfg, schedule, before, ToHead(before.serve));
    var plan := Plan(h, input, pid, started);
    u := ServeNew(cfg, u, before, plan);
    ServedMeans(cfg, u, before, plan);
    tail := u[|schedule|..];
    assert schedule + tail == u;
  }

  lemma ServeNew(cfg: Config, t: seq<Action>, before: State, plan: Plan) returns (u: seq<Action>)
    requires Connected(cfg, t, before, plan.h)
    requires Deserves(cfg, plan.input) && Grantable(cfg, before.granted, plan.Attempt())
    ensures t <= u && Served(cfg, u, before, plan, 11)
  {
    BeginServing(cfg, t, before, plan);
    u := ServeAll(cfg, t + [OfLauncher(SetIdentity)], before, plan, 0);
  }

  lemma ServedMeans(cfg: Config, t: seq<Action>, before: State, plan: Plan)
    requires Served(cfg, t, before, plan, 11)
    ensures After(cfg, t).Some?
    ensures var s := After(cfg, t).value;
            && s.granted == before.granted + [plan.Attempt()] && HasExited(s, plan.h)
            && s.log == before.log + if cfg.audited then FiveLines(cfg, plan.input) else []
  {
    assert cfg.audited ==> LinesAt(cfg, plan, 11) == FiveLines(cfg, plan.input);
  }

  // ----- Why the loop ends -----

  predicate LoopOver(s: State) {
    s.serve.Draining? || s.serve.Ended?
  }

  lemma LoopStep(cfg: Config, s: State, a: Action)
    requires Enabled(cfg, s, a)
    ensures var t := Apply(cfg, s, a);
            && (LoopOver(t) ==> LoopOver(s) || s.shutdown || a == OfServe(AcceptFailure))
            && (LoopOver(s) || a == OfServe(AcceptFailure) ==> LoopOver(t))
            && (s.shutdown ==> t.shutdown)
            && (LoopOver(s) ==> t.handlers.Keys == s.handlers.Keys)
  {
  }

  /** The loop stops accepting for two reasons only, the flag or a failure of
      `accept`, and after such a failure always. */
  lemma {:induction false} LoopEndsForCause(cfg: Config, schedule: seq<Action>)
    requires After(cfg, schedule).Some?
    ensures LoopOver(After(cfg, schedule).value) ==>
              After(cfg, schedule).value.shutdown || OfServe(AcceptFailure) in schedule
    ensures OfServe(AcceptFailure) in schedule ==> LoopOver(After(cfg, schedule).value)
  {
    if schedule != [] {
      var front, a := schedule[..|schedule| - 1], schedule[|schedule| - 1];
      assert schedule == front + [a];
      LoopEndsForCause(cfg, front);
      LoopStep(cfg, After(cfg, front).value, a);
    }
  }

  /** Then no schedule starts another handler. */
  lemma {:induction false} NoHandlerAfterLoop(cfg: Config, schedule: seq<Action>, later: seq<Action>)
    requires After(cfg, schedule + later).Some?
    requires After(cfg, schedule).Some? && LoopOver(After(cfg, schedule).value)
    ensures LoopOver(After(cfg, schedule + later).value)
    ensures After(cfg, schedule + later).value.handlers.Keys == After(cfg, schedule).value.handlers.Keys
  {
    if later == [] {
      assert schedule + later == schedule;
    } else {
      var front, a := later[..|later| - 1], later[|later| - 1];
      assert schedule + later == schedule + front + [a];
      LastStep(cfg, schedule + front, a);
      NoHandlerAfterLoop(cfg, schedule, front);
      LoopStep(cfg, After(cfg, schedule + front).value, a);
    }
  }
}
