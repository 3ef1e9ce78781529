/** The replay ledger shared by the broker's handlers (src/broker/mod.rs). */
module Ledger {
  import opened Common

  const MAX_INVOCATIONS := 4096

  /** The parts of a hook request that the broker inspects; `body` is the rest. */
  datatype HookInput = HookInput(event: Option<string>, session: Option<string>, body: string)

  /** Library code: JSON serialisation, which may fail, and the digest of its bytes. */
  datatype Digests = Digests(serialise: HookInput -> Option<string>, digest: string -> string)

  datatype LedgerState = LedgerState(session: Option<string>, invocations: set<(nat, nat)>, requests: set<string>)

  const EMPTY := LedgerState(None, {}, {})

  datatype Attempt = Attempt(input: HookInput, pid: nat, started: nat)

  /** The answer of `consume`, and the ledger after it. */
  function Consume(d: Digests, l: LedgerState, a: Attempt, verification: bool): (bool, LedgerState) {
    if a.input.session.None? || a.input.session.value == "" then (false, l)
    else if (l.session.Some? && l.session != a.input.session)
         || |l.invocations| >= MAX_INVOCATIONS
         || (verification && l.invocations != {})
         || (a.pid, a.started) in l.invocations then (false, l)
    else if d.serialise(a.input).None? then (false, l)
    else
      var key := d.digest(d.serialise(a.input).value);
      if key in l.requests then (false, l)
      else (true, LedgerState(a.input.session, l.invocations + {(a.pid, a.started)}, l.requests + {key}))
  }

  class RequestLedger {
    var session: Option<string>
    var invocations: set<(nat, nat)>
    var requests: set<string>

    ghost function State(): LedgerState
      reads this
    {
      LedgerState(session, invocations, requests)
    }

    constructor ()
      ensures State() == EMPTY
    {
      session := None;
      invocations := {};
      requests := {};
    }

    method TryConsume(d: Digests, a: Attempt, verification: bool) returns (ok: bool)
      modifies this
      ensures (ok, State()) == Consume(d, old(State()), a, verification)
      ensures !ok ==> unchanged(this)
    {
      if a.input.session.None? || a.input.session.value == "" {
        return false;
      }
      if (session.Some? && session != a.input.session)
         || |invocations| >= MAX_INVOCATIONS
         || (verification && invocations != {})
         || (a.pid, a.started) in invocations {
        return false;
      }
      var bytes := d.serialise(a.input);
      if bytes.None? {
        return false;
      }
      var key := d.digest(bytes.value);
      if key in requests {
        return false;
      }
      requests := requests + {key};
      session := a.input.session;
      invocations := invocations + {(a.pid, a.started)};
      return true;
    }
  }

  // ----- Whole runs -----

  /** What a list of granted attempts must look like. */
  ghost predicate Exclusive(d: Digests, granted: seq<Attempt>, verification: bool) {
    && (forall i :: 0 <= i < |granted| ==> granted[i].input.session.Some? && granted[i].input.session.value != "")
    && (forall i, j :: 0 <= i < j < |granted| ==>
          && granted[i].input.session == granted[j].input.session
          && Source(granted[i]) != Source(granted[j])
          && d.serialise(granted[i].input) != d.serialise(granted[j].input))
    && |granted| <= 4096
    && (verification ==> |granted| <= 1)
  }

  function Key(d: Digests, input: HookInput): Option<string> {
    match d.serialise(input)
    case None => None
    case Some(bytes) => Some(d.digest(bytes))
  }

  function Source(a: Attempt): (nat, nat) {
    (a.pid, a.started)
  }

  function Sources(granted: seq<Attempt>): set<(nat, nat)> {
    set a | a in granted :: Source(a)
  }

  function KeysOf(d: Digests, granted: seq<Attempt>): set<string> {
    set a | a in granted && Key(d, a.input).Some? :: Key(d, a.input).value
  }

  /** The ledger remembers exactly the granted attempts. */
  ghost predicate Remembers(d: Digests, l: LedgerState, granted: seq<Attempt>) {
    && l.invocations == Sources(granted) && l.requests == KeysOf(d, granted)
    && |l.invocations| == |granted| == |l.requests|
    && (l.session.None? <==> granted == [])
    && (forall a :: a in granted ==> a.input.session == l.session && Key(d, a.input).Some?)
  }

  /** In terms of the earlier grants alone: an attempt is granted exactly when it
      names the one session, comes from a process not yet used, carries an input
      whose digest was not granted before, and the bounds leave room. */
  lemma ConsumeExact(d: Digests, l: LedgerState, granted: seq<Attempt>, a: Attempt, verification: bool)
    requires Remembers(d, l, granted)
    ensures Consume(d, l, a, verification).0 <==>
            && a.input.session.Some? && a.input.session.value != "" && Key(d, a.input).Some?
            && |granted| < 4096 && (verification ==> granted == [])
            && forall g :: g in granted ==>
                 && g.input.session == a.input.session && Source(g) != Source(a)
                 && Key(d, g.input) != Key(d, a.input)
  {
    assert granted != [] ==> granted[0] in granted && granted[0].input.session == l.session;
    assert l.invocations == {} <==> granted == [];
    assert Source(a) in l.invocations <==> exists g :: g in granted && Source(g) == Source(a);
    if Key(d, a.input).Some? {
      KeyRemembered(d, granted, a);
    }
  }

  lemma KeyRemembered(d: Digests, granted: seq<Attempt>, a: Attempt)
    requires Key(d, a.input).Some?
    ensures Key(d, a.input).value in KeysOf(d, granted) <==>
            exists g :: g in granted && Key(d, g.input) == Key(d, a.input)
  {
  }

  lemma RememberAppend(d: Digests, granted: seq<Attempt>, a: Attempt)
    requires Key(d, a.input).Some?
    ensures Sources(granted + [a]) == Sources(granted) + {Source(a)}
    ensures KeysOf(d, granted + [a]) == KeysOf(d, granted) + {Key(d, a.input).value}
  {
  }

  /** One call keeps the ledger's memory exact and the grants exclusive. */
  lemma ConsumeStep(d: Digests, l: LedgerState, granted: seq<Attempt>, a: Attempt, verification: bool)
    requires Remembers(d, l, granted) && Exclusive(d, granted, verification)
    ensures var (ok, next) := Consume(d, l, a, verification);
            && (!ok ==> next == l)
            && (ok ==> Remembers(d, next, granted + [a]) && Exclusive(d, granted + [a], verification))
  {
    var (ok, next) := Consume(d, l, a, verification);
    if ok {
      ConsumeExact(d, l, granted, a, verification);
      RememberAppend(d, granted, a);
      assert |next.invocations| == |granted| + 1;
      KeyRemembered(d, granted, a);
      assert |next.requests| == |granted| + 1;
      ExclusiveAppend(d, granted, a, verification);
    }
  }

  lemma ExclusiveAppend(d: Digests, granted: seq<Attempt>, a: Attempt, verification: bool)
    requires Exclusive(d, granted, verification) && |granted| < MAX_INVOCATIONS && (verification ==> granted == [])
    requires a.input.session.Some? && a.input.session.value != ""
    requires forall g :: g in granted ==>
               && g.input.session == a.input.session && Source(g) != Source(a)
               && Key(d, g.input) != Key(d, a.input)
    ensures Exclusive(d, granted + [a], verification)
  {
  }

  /** The ledger and the grants after a sequence of calls under the lock. */
  function RunCalls(d: Digests, calls: seq<Attempt>, verification: bool): (LedgerState, seq<Attempt>) {
    if calls == [] then (EMPTY, [])
    else
      var (l, granted) := RunCalls(d, calls[..|calls| - 1], verification);
      var a := calls[|calls| - 1];
      var (ok, next) := Consume(d, l, a, verification);
      (next, if ok then granted + [a] else granted)
  }

  /** Over any run of calls the grants share one session and repeat neither a
      process nor a serialised input; both sets of the ledger have their number. */
  lemma {:induction false} GrantsAreExclusive(d: Digests, calls: seq<Attempt>, verification: bool)
    ensures var (l, granted) := RunCalls(d, calls, verification);
            Remembers(d, l, granted) && Exclusive(d, granted, verification)
  {
    if calls != [] {
      GrantsAreExclusive(d, calls[..|calls| - 1], verification);
      var (l, granted) := RunCalls(d, calls[..|calls| - 1], verification);
      ConsumeStep(d, l, granted, calls[|calls| - 1], verification);
    }
  }
}
