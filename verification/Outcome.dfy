/** Fixed-category outcome counts of one session (src/update/outcome.rs). */
module Outcome {
  import opened Common

  const MAX_OUTCOME_COUNT := 64
  const U32_MAX := 0xFFFF_FFFF

  datatype HookOutcome =
    | NoHookInvocation
    | BrokerAllowUnconfirmed
    | SuccessfulExchange
    | CompatibilityRejection
    | TransportFailure
    | ProtocolFailure

  datatype CommandOutcome = Succeeded | Failed | Unknown

  datatype OutcomeError = TooManyRecords | Unavailable | Malformed

  /** Names of the eleven counters, so that one law covers all of them. */
  datatype Category =
    | Entry | ValidatedRequest | Allow | NoDecision | StructuredEmission | StdoutError
    | Exchange | AllowUnconfirmed | Rejection | Transport | Protocol

  datatype Counts = Counts(
    entry: nat, validatedRequest: nat, allow: nat, noDecision: nat,
    structuredEmission: nat, stdoutError: nat, exchange: nat,
    allowUnconfirmed: nat, rejection: nat, transport: nat, protocol: nat)
  {
    function Get(c: Category): nat {
      match c
      case Entry => entry
      case ValidatedRequest => validatedRequest
      case Allow => allow
      case NoDecision => noDecision
      case StructuredEmission => structuredEmission
      case StdoutError => stdoutError
      case Exchange => exchange
      case AllowUnconfirmed => allowUnconfirmed
      case Rejection => rejection
      case Transport => transport
      case Protocol => protocol
    }

    predicate Valid() {
      && entry <= MAX_OUTCOME_COUNT && validatedRequest <= MAX_OUTCOME_COUNT
      && allow <= MAX_OUTCOME_COUNT && noDecision <= MAX_OUTCOME_COUNT
      && structuredEmission <= MAX_OUTCOME_COUNT && stdoutError <= MAX_OUTCOME_COUNT
      && exchange <= MAX_OUTCOME_COUNT && allowUnconfirmed <= MAX_OUTCOME_COUNT
      && rejection <= MAX_OUTCOME_COUNT && transport <= MAX_OUTCOME_COUNT
      && protocol <= MAX_OUTCOME_COUNT
    }

    /** `aggregate_hook_outcome`: the most conservative category seen. */
    function Aggregate(): HookOutcome {
      if protocol > 0 then ProtocolFailure
      else if transport > 0 then TransportFailure
      else if rejection > 0 then CompatibilityRejection
      else if allowUnconfirmed > 0 then BrokerAllowUnconfirmed
      else if exchange > 0 then SuccessfulExchange
      else if entry == 0 then NoHookInvocation
      else ProtocolFailure
    }
  }

  const ZERO := Counts(0, 0, 0, 0, 0, 0, 0, 0, 0, 0, 0)

  /** Two count records with the same eleven counters are the same record. */
  lemma CountsExtensional(a: Counts, b: Counts)
    requires forall c :: a.Get(c) == b.Get(c)
    ensures a == b
  {
    assert a.Get(Entry) == b.Get(Entry) && a.Get(ValidatedRequest) == b.Get(ValidatedRequest);
    assert a.Get(Allow) == b.Get(Allow) && a.Get(NoDecision) == b.Get(NoDecision);
    assert a.Get(StructuredEmission) == b.Get(StructuredEmission) && a.Get(StdoutError) == b.Get(StdoutError);
    assert a.Get(Exchange) == b.Get(Exchange) && a.Get(AllowUnconfirmed) == b.Get(AllowUnconfirmed);
    assert a.Get(Rejection) == b.Get(Rejection) && a.Get(Transport) == b.Get(Transport);
    assert a.Get(Protocol) == b.Get(Protocol);
  }

  /** `merge_command_outcomes`. */
  function Worse(left: CommandOutcome, right: CommandOutcome): CommandOutcome {
    if left == Failed || right == Failed then Failed
    else if left == Unknown || right == Unknown then Unknown
    else Succeeded
  }

  // ----- What counts as worst -------------------------------------------

  /** From the most to the least conservative outcome. */
  function Severity(h: HookOutcome): nat {
    match h
    case ProtocolFailure => 5
    case TransportFailure => 4
    case CompatibilityRejection => 3
    case BrokerAllowUnconfirmed => 2
    case SuccessfulExchange => 1
    case NoHookInvocation => 0
  }

  /** Some outcome was recorded. */
  predicate Reported(c: Counts) {
    c.protocol > 0 || c.transport > 0 || c.rejection > 0 || c.allowUnconfirmed > 0 || c.exchange > 0
  }

  /** `h` was recorded. */
  predicate Recorded(c: Counts, h: HookOutcome) {
    h != NoHookInvocation && c.Get(CategoryOf(h)) > 0
  }

  /** The most severe outcome recorded; without any, hook entries mean a protocol failure. */
  ghost predicate WorstHook(c: Counts, h: HookOutcome) {
    if Reported(c) then Recorded(c, h) && forall g :: Recorded(c, g) ==> Severity(g) <= Severity(h)
    else h == if c.entry > 0 then ProtocolFailure else NoHookInvocation
  }

  /** The aggregate is the one outcome that is worst. */
  lemma AggregateIsWorst(c: Counts, h: HookOutcome)
    ensures WorstHook(c, h) <==> h == c.Aggregate()
  {
    var a := c.Aggregate();
    assert Reported(c) ==> Recorded(c, a);
    if Reported(c) {
      forall g | Recorded(c, g) ensures Severity(g) <= Severity(a) {
        assert g in {ProtocolFailure, TransportFailure, CompatibilityRejection, BrokerAllowUnconfirmed, SuccessfulExchange};
      }
    }
  }

  function CommandRank(c: CommandOutcome): nat {
    match c case Succeeded => 0 case Unknown => 1 case Failed => 2
  }

  /** The worst of the recorded command outcomes, and Unknown when there are none. */
  ghost predicate WorstCommand(recorded: seq<CommandOutcome>, c: CommandOutcome) {
    if recorded == [] then c == Unknown
    else c in recorded && forall d :: d in recorded ==> CommandRank(d) <= CommandRank(c)
  }

  /** The order of recording does not matter, nor do repetitions. */
  lemma WorstCommandUnique(recorded: seq<CommandOutcome>, others: seq<CommandOutcome>, c: CommandOutcome, d: CommandOutcome)
    requires forall x :: x in recorded <==> x in others
    requires WorstCommand(recorded, c) && WorstCommand(others, d)
    ensures c == d
  {
    assert recorded != [] ==> recorded[0] in others;
    assert others != [] ==> others[0] in recorded;
    if recorded != [] {
      assert c in others && d in recorded;
    }
  }

  lemma WorstCommandAppend(recorded: seq<CommandOutcome>, worst: CommandOutcome, next: CommandOutcome)
    requires recorded != [] && WorstCommand(recorded, worst)
    ensures WorstCommand(recorded + [next], Worse(worst, next))
  {
    var all := recorded + [next];
    assert all[|recorded|] == next;
    assert forall d :: d in all <==> d in recorded || d == next;
  }

  datatype SessionOutcome = SessionOutcome(hook: HookOutcome, command: CommandOutcome, counts: Counts)

  /** `HookOutcomeCounts::increment`: the bump is kept even when it is refused. */
  function Increment(value: nat): (r: (nat, bool)) {
    if value == U32_MAX then (value, false) else (value + 1, value + 1 <= MAX_OUTCOME_COUNT)
  }

  class SessionOutcomeAccumulator {
    var counts: Counts
    var command: Option<CommandOutcome>
    /** Every command outcome recorded so far. */
    ghost var recorded: seq<CommandOutcome>

    ghost predicate Valid()
      reads this`command, this`recorded
    {
      && (command == None <==> recorded == [])
      && (command.Some? ==> WorstCommand(recorded, command.value))
    }

    constructor ()
      ensures Valid() && counts == ZERO && recorded == []
    {
      counts := ZERO;
      command := None;
      recorded := [];
    }

    method RecordHookOutcome(outcome: HookOutcome) returns (ok: bool)
      modifies this`counts
      ensures outcome == NoHookInvocation ==> ok && counts == old(counts)
      ensures outcome != NoHookInvocation ==> ok == Increment(old(counts).Get(CategoryOf(outcome))).1
      ensures outcome != NoHookInvocation ==> counts.Get(CategoryOf(outcome)) == Increment(old(counts).Get(CategoryOf(outcome))).0
      ensures forall c :: outcome == NoHookInvocation || c != CategoryOf(outcome) ==> counts.Get(c) == old(counts).Get(c)
    {
      ok := true;
      match outcome {
        case NoHookInvocation =>
        case BrokerAllowUnconfirmed =>
          var (n, within) := Increment(counts.allowUnconfirmed);
          counts, ok := counts.(allowUnconfirmed := n), within;
        case SuccessfulExchange =>
          var (n, within) := Increment(counts.exchange);
          counts, ok := counts.(exchange := n), within;
        case CompatibilityRejection =>
          var (n, within) := Increment(counts.rejection);
          counts, ok := counts.(rejection := n), within;
        case TransportFailure =>
          var (n, within) := Increment(counts.transport);
          counts, ok := counts.(transport := n), within;
        case ProtocolFailure =>
          var (n, within) := Increment(counts.protocol);
          counts, ok := counts.(protocol := n), within;
      }
    }

    method RecordCommandOutcome(outcome: CommandOutcome)
      requires Valid()
      modifies this`command, this`recorded
      ensures Valid() && recorded == old(recorded) + [outcome]
    {
      match command {
        case Some(previous) =>
          WorstCommandAppend(recorded, previous, outcome);
          command := Some(Worse(previous, outcome));
        case None =>
          command := Some(outcome);
      }
      recorded := recorded + [outcome];
    }

    /** The worst of everything recorded, whatever the order. */
    method Finish() returns (session: SessionOutcome)
      requires Valid()
      ensures WorstHook(counts, session.hook) && WorstCommand(recorded, session.command) && session.counts == counts
    {
      AggregateIsWorst(counts, counts.Aggregate());
      session := SessionOutcome(counts.Aggregate(), if command == None then Unknown else command.value, counts);
    }
  }

  /** The counter that a hook outcome bumps. */
  function CategoryOf(outcome: HookOutcome): Category {
    match outcome
    case NoHookInvocation => Entry
    case BrokerAllowUnconfirmed => AllowUnconfirmed
    case SuccessfulExchange => Exchange
    case CompatibilityRejection => Rejection
    case TransportFailure => Transport
    case ProtocolFailure => Protocol
  }
}
