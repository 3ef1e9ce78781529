/** What stands behind a grant of the broker and behind each line of its log, and
    when a request is granted. */
module BrokerGrants {
  import opened Common
  import opened Audit
  import opened Ledger
  import opened Broker

  // ----- What was decided before a grant, and what the log says of it -----

  /** The request is for the permission event and passes the other checks of `decide`. */
  predicate Deserves(cfg: Config, input: HookInput) {
    input.event == Some("PermissionRequest") && cfg.otherChecks(input)
  }

  /** The inputs that handlers read over a run. */
  function Heard(schedule: seq<Action>): set<HookInput> {
    if schedule == [] then {}
    else
      var a := schedule[|schedule| - 1];
      Heard(schedule[..|schedule| - 1]) + if a.OfHandler? && a.act.ReadRequest? then {a.act.input} else {}
  }

  predicate HasInput(phase: Phase) {
    phase.Parsed? || phase.Noted? || phase.Screened? || PastDecision(phase)
  }

  /** What is known of the input of a handler in this phase. */
  ghost predicate Backed(cfg: Config, phase: Phase, heard: set<HookInput>, identityKnown: bool, granted: seq<Attempt>) {
    && (HasInput(phase) ==> phase.input in heard)
    && (phase.Screened? || PastDecision(phase) ==> identityKnown)
    && (PastDecision(phase) ==> Deserves(cfg, phase.input))
    && (HoldsGrant(phase) ==> GrantFor(granted, phase.input))
  }

  ghost predicate GrantFor(granted: seq<Attempt>, input: HookInput) {
    exists a :: a in granted && a.input == input
  }

  /** The line tells of an input that was read, and from the request line on of a
      granted one, with its hashes. */
  ghost predicate Sourced(cfg: Config, r: Record, heard: set<HookInput>, granted: seq<Attempt>) {
    match r
    case Connection => true
    case Invoked(_, _) => exists i :: i in heard && r == Invoked(i.event, cfg.toolHash(i))
    case Request(_, _, _) =>
      exists a :: a in granted && r == Request(Some("PermissionRequest"), cfg.toolHash(a.input), cfg.inputHash(a.input))
    case Allowed(_, _) => exists a :: a in granted && r == Allowed(cfg.toolHash(a.input), cfg.inputHash(a.input))
    case Emitted(_, _) => exists a :: a in granted && r == Emitted(cfg.toolHash(a.input), cfg.inputHash(a.input))
  }

  ghost predicate DecisionInv(cfg: Config, s: State, heard: set<HookInput>) {
    && (forall h :: h in s.handlers ==> Backed(cfg, s.handlers[h].phase, heard, s.identityKnown, s.granted))
    && (forall a :: a in s.granted ==> Deserves(cfg, a.input) && a.input in heard)
    && (s.granted != [] ==> s.identityKnown)
    && (forall i :: 0 <= i < |s.log| ==> Sourced(cfg, s.log[i], heard, s.granted))
  }

  lemma BackedGrows(cfg: Config, phase: Phase, heard: set<HookInput>, more: set<HookInput>, known: bool, now: bool,
                    granted: seq<Attempt>, later: seq<Attempt>)
    requires Backed(cfg, phase, heard, known, granted) && heard <= more && (known ==> now) && granted <= later
    ensures Backed(cfg, phase, more, now, later)
  {
    assert forall a :: a in granted ==> a in later;
  }

  lemma SourcedGrows(cfg: Config, r: Record, heard: set<HookInput>, more: set<HookInput>,
                     granted: seq<Attempt>, later: seq<Attempt>)
    requires Sourced(cfg, r, heard, granted) && heard <= more && granted <= later
    ensures Sourced(cfg, r, more, later)
  {
    assert forall a :: a in granted ==> a in later;
  }

  /** The handler's own phase after its step. */
  lemma OwnPhaseBacked(cfg: Config, s: State, h: nat, a: HandlerAction, heard: set<HookInput>)
    requires HandlerEnabled(cfg, s, h, a) && Backed(cfg, s.handlers[h].phase, heard, s.identityKnown, s.granted)
    requires a.ReadRequest? ==> a.input in heard
    ensures Backed(cfg, NextPhase(cfg, s, h, a), heard, s.identityKnown, ApplyHandler(cfg, s, h, a).granted)
    ensures s.granted <= ApplyHandler(cfg, s, h, a).granted
  {
    var phase := s.handlers[h].phase;
    if a.ConsumeLedger? && Decision(cfg, s, phase.input, a).0 {
      assert Attempt(phase.input, a.pid, a.started) in ApplyHandler(cfg, s, h, a).granted;
    }
  }

  lemma OwnLineSourced(cfg: Config, s: State, h: nat, a: HandlerAction, heard: set<HookInput>)
    requires HandlerEnabled(cfg, s, h, a) && Backed(cfg, s.handlers[h].phase, heard, s.identityKnown, s.granted)
    requires |Appended(cfg, s, h, a)| == 1
    ensures Sourced(cfg, Appended(cfg, s, h, a)[0], heard, s.granted)
  {
    var phase := s.handlers[h].phase;
    if HoldsGrant(phase) {
      var g :| g in s.granted && g.input == phase.input;
    }
  }

  lemma NewGrantDeserved(cfg: Config, s: State, h: nat, a: HandlerAction, heard: set<HookInput>)
    requires HandlerEnabled(cfg, s, h, a) && DecisionInv(cfg, s, heard)
    ensures var t := ApplyHandler(cfg, s, h, a);
            && (forall g :: g in t.granted ==> Deserves(cfg, g.input) && g.input in heard)
            && (t.granted != [] ==> t.identityKnown)
  {
    assert Backed(cfg, s.handlers[h].phase, heard, s.identityKnown, s.granted);
  }

  lemma HandlerKeepsDecision(cfg: Config, s: State, h: nat, a: HandlerAction, heard: set<HookInput>, more: set<HookInput>)
    requires HandlerEnabled(cfg, s, h, a) && DecisionInv(cfg, s, heard) && heard <= more
    requires a.ReadRequest? ==> a.input in more
    ensures DecisionInv(cfg, ApplyHandler(cfg, s, h, a), more)
  {
    var t := ApplyHandler(cfg, s, h, a);
    NewGrantDeserved(cfg, s, h, a, heard);
    BackedGrows(cfg, s.handlers[h].phase, heard, more, s.identityKnown, s.identityKnown, s.granted, s.granted);
    OwnPhaseBacked(cfg, s, h, a, more);
    forall k | k in t.handlers ensures Backed(cfg, t.handlers[k].phase, more, t.identityKnown, t.granted) {
      if k != h {
        BackedGrows(cfg, s.handlers[k].phase, heard, more, s.identityKnown, t.identityKnown, s.granted, t.granted);
      }
    }
    forall i | 0 <= i < |t.log| ensures Sourced(cfg, t.log[i], more, t.granted) {
      if i < |s.log| {
        SourcedGrows(cfg, s.log[i], heard, more, s.granted, t.granted);
      } else {
        OwnLineSourced(cfg, s, h, a, more);
        SourcedGrows(cfg, t.log[i], more, more, s.granted, t.granted);
      }
    }
  }

  lemma OthersKeepDecision(cfg: Config, s: State, t: State, heard: set<HookInput>)
    requires DecisionInv(cfg, s, heard) && t.log == s.log && t.granted == s.granted && (s.identityKnown ==> t.identityKnown)
    requires forall h :: h in t.handlers ==> t.handlers[h] == Handler(Accepted, 0) || (h in s.handlers && t.handlers[h] == s.handlers[h])
    ensures DecisionInv(cfg, t, heard)
  {
    forall h | h in t.handlers ensures Backed(cfg, t.handlers[h].phase, heard, t.identityKnown, t.granted) {
    }
  }

  lemma ServeKeepsDecision(cfg: Config, s: State, a: ServeAction, heard: set<HookInput>)
    requires ServeEnabled(s, a) && DecisionInv(cfg, s, heard)
    ensures DecisionInv(cfg, ApplyServe(s, a), heard)
  {
    OthersKeepDecision(cfg, s, ApplyServe(s, a), heard);
  }

  lemma LauncherKeepsDecision(cfg: Config, s: State, a: LauncherAction, heard: set<HookInput>)
    requires LauncherEnabled(s, a) && DecisionInv(cfg, s, heard)
    ensures DecisionInv(cfg, ApplyLauncher(s, a), heard)
  {
    OthersKeepDecision(cfg, s, ApplyLauncher(s, a), heard);
  }

  lemma DecisionStep(cfg: Config, s: State, a: Action, heard: set<HookInput>, more: set<HookInput>)
    requires Enabled(cfg, s, a) && DecisionInv(cfg, s, heard)
    requires more == heard + if a.OfHandler? && a.act.ReadRequest? then {a.act.input} else {}
    ensures DecisionInv(cfg, Apply(cfg, s, a), more)
  {
    match a
    case OfHandler(h, act) => HandlerKeepsDecision(cfg, s, h, act, heard, more);
    case OfServe(step) => ServeKeepsDecision(cfg, s, step, heard);
    case OfLauncher(op) => LauncherKeepsDecision(cfg, s, op, heard);
  }

  lemma {:induction false} DecisionAlways(cfg: Config, schedule: seq<Action>)
    requires After(cfg, schedule).Some?
    ensures DecisionInv(cfg, After(cfg, schedule).value, Heard(schedule))
  {
    if schedule != [] {
      var front, a := schedule[..|schedule| - 1], schedule[|schedule| - 1];
      DecisionAlways(cfg, front);
      DecisionStep(cfg, After(cfg, front).value, a, Heard(front), Heard(schedule));
    }
  }

  lemma IdentityStep(cfg: Config, s: State, a: Action)
    requires Enabled(cfg, s, a) && Apply(cfg, s, a).identityKnown
    ensures s.identityKnown || a == OfLauncher(SetIdentity)
  {
  }

  lemma {:induction false} IdentityWasSet(cfg: Config, schedule: seq<Action>) returns (i: nat)
    requires After(cfg, schedule).Some? && After(cfg, schedule).value.identityKnown
    ensures i < |schedule| && schedule[i] == OfLauncher(SetIdentity)
  {
    var front, a := schedule[..|schedule| - 1], schedule[|schedule| - 1];
    if a == OfLauncher(SetIdentity) {
      i := |schedule| - 1;
    } else {
      IdentityStep(cfg, After(cfg, front).value, a);
      i := IdentityWasSet(cfg, front);
    }
  }

  /** On every schedule whatever was granted was read by a handler, is for the
      permission event and passes the other checks, and the identity of the
      guarded process had been set before the first grant. */
  lemma GrantsAreDeserved(cfg: Config, schedule: seq<Action>)
    requires After(cfg, schedule).Some?
    ensures forall a :: a in After(cfg, schedule).value.granted ==>
              a.input.event == Some("PermissionRequest") && cfg.otherChecks(a.input) && a.input in Heard(schedule)
    ensures After(cfg, schedule).value.granted != [] ==> OfLauncher(SetIdentity) in schedule
  {
    DecisionAlways(cfg, schedule);
    if After(cfg, schedule).value.granted != [] {
      var i := IdentityWasSet(cfg, schedule);
    }
  }

  /** Every line of the log tells the truth: an invoked line of an input that was
      read, a request, allow or emission line of a request that was granted. */
  lemma LogIsTrue(cfg: Config, schedule: seq<Action>, i: nat)
    requires After(cfg, schedule).Some? && i < |After(cfg, schedule).value.log|
    ensures var s := After(cfg, schedule).value; Sourced(cfg, s.log[i], Heard(schedule), s.granted)
  {
    DecisionAlways(cfg, schedule);
  }

  /** The attempt fits beside what was granted before. */
  ghost predicate Grantable(cfg: Config, granted: seq<Attempt>, a: Attempt) {
    && a.input.session.Some? && a.input.session.value != "" && cfg.digests.serialise(a.input).Some?
    && |granted| < 4096 && (!cfg.admitted ==> granted == [])
    && forall g :: g in granted ==>
         && g.input.session == a.input.session && (g.pid, g.started) != (a.pid, a.started)
         && Key(cfg.digests, g.input) != Key(cfg.digests, a.input)
  }

  /** At the ledger a request that passed every other check is granted exactly
      when it fits beside the earlier grants, and refused without a trace otherwise. */
  lemma GrantedExactly(cfg: Config, schedule: seq<Action>, h: nat, pid: nat, started: nat)
    requires After(cfg, schedule).Some? && HandlerEnabled(cfg, After(cfg, schedule).value, h, ConsumeLedger(pid, started))
    ensures var s := After(cfg, schedule).value;
            var a, t := Attempt(s.handlers[h].phase.input, pid, started), ApplyHandler(cfg, s, h, ConsumeLedger(pid, started));
            if Grantable(cfg, s.granted, a)
            then t.granted == s.granted + [a] && t.handlers[h].phase == Granted(a.input)
            else t.granted == s.granted && t.ledger == s.ledger && t.handlers[h].phase == Finished
  {
    InvAlways(cfg, schedule);
    GrantedFrom(cfg, After(cfg, schedule).value, h, pid, started);
  }

  lemma GrantedFrom(cfg: Config, s: State, h: nat, pid: nat, started: nat)
    requires Remembers(cfg.digests, s.ledger, s.granted) && HandlerEnabled(cfg, s, h, ConsumeLedger(pid, started))
    ensures var a, t := Attempt(s.handlers[h].phase.input, pid, started), ApplyHandler(cfg, s, h, ConsumeLedger(pid, started));
            if Grantable(cfg, s.granted, a)
            then t.granted == s.granted + [a] && t.handlers[h].phase == Granted(a.input)
            else t.granted == s.granted && t.ledger == s.ledger && t.handlers[h].phase == Finished
  {
    var a := Attempt(s.handlers[h].phase.input, pid, started);
    GrantableExactly(cfg, s.ledger, s.granted, a);
  }

  lemma GrantableExactly(cfg: Config, l: LedgerState, granted: seq<Attempt>, a: Attempt)
    requires Remembers(cfg.digests, l, granted)
    ensures Consume(cfg.digests, l, a, !cfg.admitted).0 <==> Grantable(cfg, granted, a)
  {
    ConsumeExact(cfg.digests, l, granted, a, !cfg.admitted);
  }

  // ----- After the stop flag -----

  /** The handlers between the two checks of the flag, and those past both. */
  predicate Passing(s: State, h: nat) {
    h in s.handlers && s.handlers[h].phase.Screened?
  }

  predicate Passed(s: State, h: nat) {
    h in s.handlers && s.handlers[h].phase.Cleared?
  }

  lemma StoppedHandler(cfg: Config, s: State, h: nat, act: HandlerAction)
    requires s.shutdown && HandlerEnabled(cfg, s, h, act)
    ensures var t := ApplyHandler(cfg, s, h, act);
            && t.shutdown && t.handlers == s.handlers[h := t.handlers[h]]
            && !t.handlers[h].phase.Screened? && !t.handlers[h].phase.Cleared?
            && (t.granted != s.granted ==>
                  act.ConsumeLedger? && Passed(s, h)
                  && t.granted == s.granted + [Attempt(s.handlers[h].phase.input, act.pid, act.started)])
  {
  }

  /** What a step after the flag can do to the grants and to those who pass. */
  lemma StoppedStep(cfg: Config, s: State, a: Action)
    requires s.shutdown && Enabled(cfg, s, a)
    ensures var t := Apply(cfg, s, a);
            && t.shutdown
            && (forall h :: Passing(t, h) ==> Passing(s, h))
            && (forall h :: Passed(t, h) ==> Passed(s, h) && t.handlers[h] == s.handlers[h])
            && (t.granted != s.granted ==>
                  exists h :: Passed(s, h) && |t.granted| == |s.granted| + 1 && t.granted[..|s.granted|] == s.granted
                              && t.granted[|s.granted|].input == s.handlers[h].phase.input)
  {
    match a
    case OfHandler(h, act) =>
      StoppedHandler(cfg, s, h, act);
    case OfServe(step) =>
    case OfLauncher(op) =>
  }

  /** A grant since `s` went to the input of a handler that had passed by then. */
  ghost predicate FromPassed(s: State, t: State, i: nat)
    requires |s.granted| <= i < |t.granted|
  {
    exists h :: Passed(s, h) && t.granted[i].input == s.handlers[h].phase.input
  }

  /** Once the flag is up nobody passes either of its checks any more, and whatever
      is granted later is the request of a handler that had passed both before. */
  lemma {:induction false} StopAdmitsNobody(cfg: Config, schedule: seq<Action>, later: seq<Action>)
    requires After(cfg, schedule + later).Some?
    requires After(cfg, schedule).Some? && After(cfg, schedule).value.shutdown
    ensures var s, t := After(cfg, schedule).value, After(cfg, schedule + later).value;
            && t.shutdown && |s.granted| <= |t.granted|
            && (forall h :: Passing(t, h) ==> Passing(s, h))
            && (forall h :: Passed(t, h) ==> Passed(s, h) && t.handlers[h] == s.handlers[h])
            && (forall i :: |s.granted| <= i < |t.granted| ==> FromPassed(s, t, i))
  {
    if later == [] {
      assert schedule + later == schedule;
    } else {
      var front, a := later[..|later| - 1], later[|later| - 1];
      assert schedule + later == schedule + front + [a];
      LastStep(cfg, schedule + front, a);
      StopAdmitsNobody(cfg, schedule, front);
      StoppedStep(cfg, After(cfg, schedule + front).value, a);
      GrantsFromPassed(After(cfg, schedule).value, After(cfg, schedule + front).value, After(cfg, schedule + later).value);
    }
  }

  lemma GrantsFromPassed(s: State, u: State, t: State)
    requires |s.granted| <= |u.granted| && forall i :: |s.granted| <= i < |u.granted| ==> FromPassed(s, u, i)
    requires forall h :: Passed(u, h) ==> Passed(s, h) && u.handlers[h] == s.handlers[h]
    requires t.granted != u.granted ==>
               exists h :: Passed(u, h) && |t.granted| == |u.granted| + 1 && t.granted[..|u.granted|] == u.granted
                           && t.granted[|u.granted|].input == u.handlers[h].phase.input
    ensures |s.granted| <= |t.granted| && forall i :: |s.granted| <= i < |t.granted| ==> FromPassed(s, t, i)
  {
    if t.granted != u.granted {
      var h :| Passed(u, h) && |t.granted| == |u.granted| + 1 && t.granted[..|u.granted|] == u.granted
               && t.granted[|u.granted|].input == u.handlers[h].phase.input;
      forall i | |s.granted| <= i < |t.granted| ensures FromPassed(s, t, i) {
        if i < |u.granted| {
          assert FromPassed(s, u, i) && t.granted[i] == u.granted[i];
        } else {
          assert Passed(s, h);
        }
      }
    } else {
      forall i | |s.granted| <= i < |t.granted| ensures FromPassed(s, t, i) {
        assert FromPassed(s, u, i);
      }
    }
  }
}
