/** From broker runs, through the audit reader and the concurrent state store,
    to the hook outcome that ends up in the state file. */
module EndToEnd {
  import opened Common
  import opened Outcome
  import opened Audit
  import opened Observations
  import Broker
  import StateStore

  // ----- The state file -----

  /** The store's machine: record one observation, refuse an invalid result. */
  function RecordStored(list: seq<Observation>, call: Call): Option<seq<Observation>> {
    if call.Accepted() && ValidList(RecordCall(list, call)) then Some(RecordCall(list, call)) else None
  }

  const STORE := StateStore.Machine([], (list: seq<Observation>) => ValidList(list),
                                    (list: seq<Observation>, call: Call) => RecordStored(list, call))

  function CallsOf(commits: seq<StateStore.Commit<Call>>): (calls: seq<Call>)
    ensures |calls| == |commits| && forall i :: 0 <= i < |commits| ==> calls[i] == commits[i].call
  {
    seq(|commits|, i requires 0 <= i < |commits| => commits[i].call)
  }

  lemma {:induction false} ValueIsRun(commits: seq<StateStore.Commit<Call>>)
    requires StateStore.Value(STORE, commits).Some?
    ensures StateStore.Value(STORE, commits) == Some(Run(CallsOf(commits)))
  {
    if commits != [] {
      var front := commits[..|commits| - 1];
      ValueIsRun(front);
      assert CallsOf(commits)[..|commits| - 1] == CallsOf(front);
    }
  }

  /** After any interleaving of processes and crashes, the state file holds the
      summary of the committed observations: sorted, the eight greatest
      identities, each with its saturated totals and worst outcome. */
  lemma StateFileSummarisesCommits(schedule: seq<StateStore.Event<Call>>)
    requires StateStore.After(STORE, schedule).Some?
    ensures var s := StateStore.After(STORE, schedule).value;
            && (StateStore.StateName in s.files <==> s.commits != [])
            && (StateStore.StateName in s.files ==>
                  && s.files[StateStore.StateName] == StateStore.Whole(Run(CallsOf(s.commits)))
                  && Summarises(Run(CallsOf(s.commits)), History(CallsOf(s.commits))))
  {
    StateStore.StateNameAlwaysWhole(STORE, schedule);
    var s := StateStore.After(STORE, schedule).value;
    ValueIsRun(s.commits);
    RunSummarisesHistory(CallsOf(s.commits));
  }

  // ----- Sessions -----

  /** What the launcher passes to the store after reading an audit file. */
  function RecordingOf(contents: string, id: Identity, firstNow: nat, secondNow: nat): seq<Call> {
    match ReadAudit(contents)
    case Err(_) => []
    case Ok(counts) =>
      [Call(FromSession(id, SessionOutcome(counts.Aggregate(), Unknown, counts)), firstNow, secondNow)]
  }

  /** `record_session_observation`, up to the store: a child's exit status is no
      evidence, so the command outcome is recorded as unknown. */
  method RecordSession(contents: string, id: Identity, firstNow: nat, secondNow: nat) returns (recording: seq<Call>)
    ensures recording == RecordingOf(contents, id, firstNow, secondNow)
  {
    var error, audit := ReadAuditFile(contents);
    if error.Some? {
      return [];
    }
    audit.RecordCommandOutcome(Unknown);
    var session := audit.Finish();
    AggregateIsWorst(audit.counts, session.hook);
    WorstCommandUnique(audit.recorded, [Unknown], session.command, Unknown);
    return [Call(FromSession(id, session), firstNow, secondNow)];
  }

  /** A launcher session: a broker run and the recording of what it left behind. */
  datatype Session = Session(id: Identity, cfg: Broker.Config, schedule: seq<Broker.Action>, firstNow: nat, secondNow: nat)
  {
    predicate Possible() {
      Broker.After(cfg, schedule).Some?
    }

    function Log(): seq<Audit.Record>
      requires Possible()
    {
      Broker.After(cfg, schedule).value.log
    }

    /** The launcher records a session exactly when its audit can be read. */
    function Recording(): seq<Call>
      requires Possible()
    {
      RecordingOf(Text(Log()), id, firstNow, secondNow)
    }

    function Connections(): nat
      requires Possible()
    {
      Count(Log(), KConnection)
    }

    function EmittedAllows(): nat
      requires Possible()
    {
      Count(Log(), KEmitted)
    }

    /** The session leaves an observation: its log is neither empty nor too long,
        and the clock was running. */
    predicate Counts()
      requires Possible()
    {
      Log() != [] && Connections() <= MAX_OUTCOME_COUNT && firstNow != 0
    }
  }

  ghost predicate AllPossible(sessions: seq<Session>) {
    forall i :: 0 <= i < |sessions| ==> sessions[i].Possible()
  }

  function Recordings(sessions: seq<Session>): seq<Call>
    requires AllPossible(sessions)
  {
    if sessions == [] then []
    else Recordings(sessions[..|sessions| - 1]) + sessions[|sessions| - 1].Recording()
  }

  /** What one session contributes to the history of observations. */
  lemma SessionContribution(s: Session)
    requires s.Possible()
    ensures Ordered(s.Log())
    ensures s.Counts() ==> s.Connections() > 0
    ensures s.Counts() ==> |s.Recording()| == 1 && s.Recording()[0].Accepted()
                           && s.Recording()[0].observation.id == s.id
                           && s.Recording()[0].observation.command == Unknown
                           && s.Recording()[0].secondNow == s.secondNow
                           && s.Recording()[0].observation.counts == Summary(s.Log())
    ensures !s.Counts() ==> s.Recording() == [] || !s.Recording()[0].Accepted()
  {
    Broker.AuditIsReadable(s.cfg, s.schedule);
    var log := s.Log();
    if log == [] {
      EmptyIsUnavailable();
    } else {
      LogLength(log);
      if Count(log, KConnection) <= MAX_OUTCOME_COUNT {
        SummaryValid(log);
        RecordingOfSummary(Text(log), Summary(log), s.id, s.firstNow, s.secondNow);
      }
    }
  }

  lemma RecordingOfSummary(contents: string, counts: Counts, id: Identity, firstNow: nat, secondNow: nat)
    requires ReadAudit(contents) == Ok(counts) && counts.Valid()
    ensures var recording := RecordingOf(contents, id, firstNow, secondNow);
            && |recording| == 1 && recording[0].observation.id == id && recording[0].observation.counts == counts
            && recording[0].observation.command == Unknown && recording[0].secondNow == secondNow
            && (recording[0].Accepted() <==> firstNow != 0)
  {
  }

  /** What a broker session contributes always has an outcome, so merging
      sessions never softens one. */
  lemma SessionsAlwaysReport(s: Session, c: Counts)
    requires s.Possible() && s.Counts()
    ensures Ordered(s.Log()) && Reported(Summary(s.Log()))
    ensures !Hides(Summary(s.Log()), c)
  {
    SessionContribution(s);
  }

  lemma EmptyIsUnavailable()
    ensures ReadAudit(Text([])) == Err(Unavailable)
  {
  }

  lemma SummaryValid(log: seq<Audit.Record>)
    requires Ordered(log) && Count(log, KConnection) <= MAX_OUTCOME_COUNT
    ensures Summary(log).Valid()
  {
  }

  /** The numbers of a session that left an observation. */
  datatype Fact = Fact(id: Identity, connections: nat, emitted: nat)
  {
    predicate Failed() {
      connections > emitted
    }

    predicate Tells(o: Observation) {
      && o.id == id && o.command == Unknown && connections > 0 && emitted <= connections
      && o.counts.protocol == (if Failed() then 1 else 0)
      && o.counts.allowUnconfirmed == emitted && o.counts.transport == 0 == o.counts.rejection
    }
  }

  function Facts(sessions: seq<Session>): seq<Fact>
    requires AllPossible(sessions)
  {
    if sessions == [] then []
    else
      var last := sessions[|sessions| - 1];
      Facts(sessions[..|sessions| - 1])
      + if last.Counts() then [Fact(last.id, last.Connections(), last.EmittedAllows())] else []
  }

  /** The history of observations, told by the sessions behind it. */
  ghost predicate ToldBy(history: seq<Observation>, facts: seq<Fact>) {
    |history| == |facts| && forall i :: 0 <= i < |history| ==> facts[i].Tells(history[i])
  }

  lemma HistoryAppend(calls: seq<Call>, more: seq<Call>)
    requires |more| <= 1
    ensures History(calls + more) ==
            if more != [] && more[0].Accepted() then History(calls) + [more[0].observation.(observedAt := 0)]
            else History(calls)
  {
    if more == [] {
      assert calls + more == calls;
    } else {
      assert (calls + more)[..|calls|] == calls;
    }
  }

  lemma SessionStep(calls: seq<Call>, facts: seq<Fact>, s: Session)
    requires s.Possible() && ToldBy(History(calls), facts)
    ensures ToldBy(History(calls + s.Recording()),
                   facts + if s.Counts() then [Fact(s.id, s.Connections(), s.EmittedAllows())] else [])
  {
    SessionContribution(s);
    HistoryAppend(calls, s.Recording());
    if s.Counts() {
      var fact := Fact(s.id, s.Connections(), s.EmittedAllows());
      assert fact.Tells(s.Recording()[0].observation.(observedAt := 0));
    }
  }

  lemma {:induction false} HistoryToldBySessions(sessions: seq<Session>)
    requires AllPossible(sessions)
    ensures ToldBy(History(Recordings(sessions)), Facts(sessions))
  {
    if sessions != [] {
      var front, last := sessions[..|sessions| - 1], sessions[|sessions| - 1];
      HistoryToldBySessions(front);
      SessionStep(Recordings(front), Facts(front), last);
    }
  }

  /** The session failed: recorded, with a connection that saw no emitted allow. */
  ghost predicate FailedSession(s: Session, id: Identity)
    requires s.Possible()
  {
    s.id == id && s.Counts() && s.Connections() > s.EmittedAllows()
  }

  ghost predicate SomeFailed(sessions: seq<Session>, id: Identity)
    requires AllPossible(sessions)
  {
    exists i :: 0 <= i < |sessions| && FailedSession(sessions[i], id)
  }

  ghost predicate SomeFactFailed(facts: seq<Fact>, id: Identity) {
    exists i :: 0 <= i < |facts| && facts[i].id == id && facts[i].Failed()
  }

  lemma {:induction false} FailuresInFacts(sessions: seq<Session>, id: Identity)
    requires AllPossible(sessions)
    ensures SomeFailed(sessions, id) <==> SomeFactFailed(Facts(sessions), id)
  {
    if sessions != [] {
      var front, last := sessions[..|sessions| - 1], sessions[|sessions| - 1];
      assert sessions == front + [last];
      FailuresInFacts(front, id);
      FailedAppend(front, last, id);
      if last.Counts() {
        FactFailedAppend(Facts(front), Fact(last.id, last.Connections(), last.EmittedAllows()), id);
      } else {
        assert Facts(sessions) == Facts(front);
      }
    }
  }

  lemma FailedAppend(front: seq<Session>, last: Session, id: Identity)
    requires AllPossible(front) && last.Possible()
    ensures AllPossible(front + [last])
    ensures SomeFailed(front + [last], id) <==> SomeFailed(front, id) || FailedSession(last, id)
  {
    var all := front + [last];
    assert all[|front|] == last;
    if SomeFailed(front, id) {
      var i :| 0 <= i < |front| && FailedSession(front[i], id);
      assert FailedSession(all[i], id);
    }
  }

  lemma FactFailedAppend(front: seq<Fact>, last: Fact, id: Identity)
    ensures SomeFactFailed(front + [last], id) <==> SomeFactFailed(front, id) || (last.id == id && last.Failed())
  {
    var all := front + [last];
    assert all[|front|] == last;
    if SomeFactFailed(front, id) {
      var i :| 0 <= i < |front| && front[i].id == id && front[i].Failed();
      assert all[i].id == id && all[i].Failed();
    }
  }

  /** The totals of an identity, as far as they decide its outcome. */
  lemma TotalsFromFacts(history: seq<Observation>, facts: seq<Fact>, id: Identity)
    requires ToldBy(history, facts) && id in Ids(history)
    ensures Total(history, id, Transport) == 0 == Total(history, id, Rejection)
    ensures Total(history, id, Protocol) > 0 <==> SomeFactFailed(facts, id)
    ensures !SomeFactFailed(facts, id) ==> Total(history, id, AllowUnconfirmed) > 0
  {
    TotalPositive(history, id, Transport);
    TotalPositive(history, id, Rejection);
    ProtocolTotal(history, facts, id);
    TotalPositive(history, id, AllowUnconfirmed);
    if !SomeFactFailed(facts, id) {
      var k :| 0 <= k < |history| && history[k].id == id;
      assert facts[k].Tells(history[k]) && history[k] in history;
      assert !facts[k].Failed();
      assert history[k].counts.Get(AllowUnconfirmed) > 0;
    }
  }

  /** Sessions never claim that the command succeeded, nor that it failed. */
  lemma CommandsUnknown(history: seq<Observation>, facts: seq<Fact>, id: Identity)
    requires ToldBy(history, facts) && id in Ids(history)
    ensures Worst(history, id) == Unknown
  {
    assert forall i :: 0 <= i < |history| ==> facts[i].Tells(history[i]);
    var o :| o in history && o.id == id;
    assert o.command == Unknown;
  }

  lemma ProtocolTotal(history: seq<Observation>, facts: seq<Fact>, id: Identity)
    requires ToldBy(history, facts)
    ensures Total(history, id, Protocol) > 0 <==> SomeFactFailed(facts, id)
  {
    TotalPositive(history, id, Protocol);
    if SomeFactFailed(facts, id) {
      var i :| 0 <= i < |facts| && facts[i].id == id && facts[i].Failed();
      assert facts[i].Tells(history[i]) && history[i] in history;
      assert history[i].counts.Get(Protocol) > 0;
    }
  }

  /** What the stored entry of an identity reports. */
  lemma FactsOutcome(history: seq<Observation>, facts: seq<Fact>, e: Observation)
    requires ToldBy(history, facts) && Faithful(e, history) && e.id in Ids(history)
    ensures e.hook == if SomeFactFailed(facts, e.id) then ProtocolFailure else BrokerAllowUnconfirmed
    ensures e.command == Unknown
  {
    CommandsUnknown(history, facts, e.id);
    TotalsFromFacts(history, facts, e.id);
    assert e.counts.Get(Protocol) == e.counts.protocol && e.counts.Get(Transport) == e.counts.transport;
    assert e.counts.Get(Rejection) == e.counts.rejection && e.counts.Get(AllowUnconfirmed) == e.counts.allowUnconfirmed;
  }

  /** End to end: whatever the broker schedules of the sessions, the entry stored
      for an identity reports a protocol failure exactly when some recorded
      session of that identity had a connection without an emitted allow, and an
      unconfirmed broker allow otherwise; saturation never hides a failure. */
  lemma StoredHookOutcome(sessions: seq<Session>, e: Observation)
    requires AllPossible(sessions) && e in Run(Recordings(sessions))
    ensures e.hook == if SomeFailed(sessions, e.id) then ProtocolFailure else BrokerAllowUnconfirmed
    ensures e.command == Unknown && e.observedAt == LastReading(Recordings(sessions), e.id)
  {
    HistoryToldBySessions(sessions);
    FailuresInFacts(sessions, e.id);
    EntryIsFaithful(Recordings(sessions), e);
    StoredTimes(Recordings(sessions), e);
    FactsOutcome(History(Recordings(sessions)), Facts(sessions), e);
  }

  lemma EntryIsFaithful(calls: seq<Call>, e: Observation)
    requires e in Run(calls)
    ensures Faithful(e, History(calls)) && e.id in Ids(History(calls))
  {
    RunSummarisesHistory(calls);
    assert e.id in Ids(Run(calls));
  }

  // ----- Sessions as processes of the store -----

  /** Each process that opens the store records one session. */
  ghost predicate RecordedBy(schedule: seq<StateStore.Event<Call>>, sessions: map<nat, Session>) {
    forall i :: 0 <= i < |schedule| && schedule[i].action.Open? ==>
      && schedule[i].process in sessions && sessions[schedule[i].process].Possible()
      && sessions[schedule[i].process].Recording() == [schedule[i].action.call]
  }

  /** The sessions whose observations are committed, in the order of the commits. */
  function CommittedSessions(commits: seq<StateStore.Commit<Call>>, sessions: map<nat, Session>): (list: seq<Session>)
    requires forall i :: 0 <= i < |commits| ==> commits[i].who in sessions
    ensures |list| == |commits| && forall i :: 0 <= i < |commits| ==> list[i] == sessions[commits[i].who]
  {
    seq(|commits|, i requires 0 <= i < |commits| => sessions[commits[i].who])
  }

  /** Every commit is the recording of its process's session. */
  lemma CommitsAreSessions(schedule: seq<StateStore.Event<Call>>, sessions: map<nat, Session>)
    requires StateStore.After(STORE, schedule).Some? && RecordedBy(schedule, sessions)
    ensures forall c :: c in StateStore.After(STORE, schedule).value.commits ==>
              c.who in sessions && sessions[c.who].Possible() && sessions[c.who].Recording() == [c.call]
  {
    StateStore.InvAlways(STORE, schedule);
    var s := StateStore.After(STORE, schedule).value;
    forall c | c in s.commits
      ensures c.who in sessions && sessions[c.who].Possible() && sessions[c.who].Recording() == [c.call]
    {
      var i :| 0 <= i < |s.commits| && s.commits[i] == c;
      assert StateStore.OwnCommit(s, s.commits[i]);
      var k := StateStore.CallsAreOpened(STORE, schedule, c.who);
    }
  }

  lemma RecordingsSnoc(front: seq<Session>, last: Session)
    requires AllPossible(front) && last.Possible()
    ensures AllPossible(front + [last])
    ensures Recordings(front + [last]) == Recordings(front) + last.Recording()
  {
    assert (front + [last])[..|front|] == front;
  }

  lemma {:induction false} RecordingsInOrder(list: seq<Session>, calls: seq<Call>)
    requires |list| == |calls| && AllPossible(list)
    requires forall i :: 0 <= i < |list| ==> list[i].Recording() == [calls[i]]
    ensures Recordings(list) == calls
  {
    if list != [] {
      var n := |list| - 1;
      var front, last := list[..n], list[n];
      SplitLast(list);
      SplitLast(calls);
      RecordingsInOrder(front, calls[..n]);
      RecordingsSnoc(front, last);
    }
  }

  lemma SplitLast<T>(s: seq<T>)
    requires s != []
    ensures s == s[..|s| - 1] + [s[|s| - 1]]
  {
  }

  lemma CommittedRecordings(commits: seq<StateStore.Commit<Call>>, sessions: map<nat, Session>)
    requires forall c :: c in commits ==>
               c.who in sessions && sessions[c.who].Possible() && sessions[c.who].Recording() == [c.call]
    ensures AllPossible(CommittedSessions(commits, sessions))
    ensures Recordings(CommittedSessions(commits, sessions)) == CallsOf(commits)
  {
    var list := CommittedSessions(commits, sessions);
    forall i | 0 <= i < |list| ensures list[i].Possible() && list[i].Recording() == [commits[i].call] {
      assert commits[i] in commits;
    }
    RecordingsInOrder(list, CallsOf(commits));
  }

  /** The same for an entry of the state file, on every schedule of concurrent
      processes that each record a session, with crashes: what counts are the
      sessions whose processes committed. */
  lemma FileHookOutcome(schedule: seq<StateStore.Event<Call>>, sessions: map<nat, Session>, e: Observation)
    requires StateStore.After(STORE, schedule).Some? && RecordedBy(schedule, sessions)
    requires var files := StateStore.After(STORE, schedule).value.files;
             StateStore.StateName in files && files[StateStore.StateName].Whole? && e in files[StateStore.StateName].value
    ensures forall c :: c in StateStore.After(STORE, schedule).value.commits ==> c.who in sessions
    ensures var committed := CommittedSessions(StateStore.After(STORE, schedule).value.commits, sessions);
            && AllPossible(committed)
            && e.hook == (if SomeFailed(committed, e.id) then ProtocolFailure else BrokerAllowUnconfirmed)
            && e.command == Unknown && e.observedAt == LastReading(Recordings(committed), e.id)
  {
    var commits := StateStore.After(STORE, schedule).value.commits;
    CommitsAreSessions(schedule, sessions);
    CommittedRecordings(commits, sessions);
    StateFileSummarisesCommits(schedule);
    StoredHookOutcome(CommittedSessions(commits, sessions), e);
  }

  /** From every reachable store, whoever is inside and whatever has crashed, every
      accepted observation can still be recorded while the clock is running. */
  lemma ObservationCanBeRecorded(schedule: seq<StateStore.Event<Call>>, p: nat, call: Call)
    returns (tail: seq<StateStore.Event<Call>>)
    requires StateStore.After(STORE, schedule).Some? && p !in StateStore.After(STORE, schedule).value.processes
    requires call.Accepted() && call.secondNow != 0
    ensures StateStore.EndsIn(STORE, schedule + tail, p, StateStore.Done(true),
                              StateStore.After(STORE, schedule).value.commits + [StateStore.Commit(p, call)])
  {
    StateStore.InvAlways(STORE, schedule);
    var commits := StateStore.After(STORE, schedule).value.commits;
    RecordKeepsValid(StateStore.Value(STORE, commits).value, call);
    tail := StateStore.NeverStuck(STORE, schedule, p, call);
  }
}
