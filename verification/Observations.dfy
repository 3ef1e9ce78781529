/** The bounded store of compatibility observations (src/update/state.rs). */
module Observations {
  import opened Common
  import opened Order
  import opened Outcome
  import opened Versions

  const MAX_OBSERVATIONS := 8

  datatype OperatingSystem = Linux | MacOs | Windows | Other

  datatype Surface = LocalCliLauncher

  /** What `same_identity` compares. */
  datatype Identity = Identity(codex: StableVersion, autoapprover: StableVersion, os: OperatingSystem, surface: Surface)

  datatype Observation = Observation(
    observedAt: nat, id: Identity, hook: HookOutcome, command: CommandOutcome, counts: Counts)
  {
    predicate Valid() {
      observedAt != 0 && counts.Valid() && hook == counts.Aggregate()
    }
  }

  function FromSession(id: Identity, session: SessionOutcome): Observation {
    Observation(0, id, session.hook, session.command, session.counts)
  }

  function OsRank(os: OperatingSystem): int {
    match os
    case Linux => 0
    case MacOs => 1
    case Windows => 2
    case Other => 3
  }

  /** `observation_order`, as the lexicographic key of an identity. */
  function Key(id: Identity): seq<int> {
    [id.codex.major, id.codex.minor, id.codex.patch,
     id.autoapprover.major, id.autoapprover.minor, id.autoapprover.patch,
     OsRank(id.os), 0]
  }

  lemma KeyInjective(a: Identity, b: Identity)
    requires Key(a) == Key(b)
    ensures a == b
  {
  }

  predicate Before(a: Identity, b: Identity) {
    Less(Key(a), Key(b))
  }

  /** Linux, macOS, Windows, others. */
  predicate SystemBefore(a: OperatingSystem, b: OperatingSystem) {
    (a.Linux? && !b.Linux?) || (a.MacOs? && (b.Windows? || b.Other?)) || (a.Windows? && b.Other?)
  }

  /** The Codex version decides first, then the autoapprover's, then the system. */
  lemma BeforeExact(a: Identity, b: Identity)
    ensures Before(a, b) <==>
      || Older(a.codex, b.codex)
      || (a.codex == b.codex
          && (Older(a.autoapprover, b.autoapprover)
              || (a.autoapprover == b.autoapprover && SystemBefore(a.os, b.os))))
  {
    var p, q := a.autoapprover.Key() + [OsRank(a.os), 0], b.autoapprover.Key() + [OsRank(b.os), 0];
    assert Key(a) == a.codex.Key() + p && Key(b) == b.codex.Key() + q;
    LessParts(a.codex.Key(), p, b.codex.Key(), q);
    LessParts(a.autoapprover.Key(), [OsRank(a.os), 0], b.autoapprover.Key(), [OsRank(b.os), 0]);
    LessTwo(OsRank(a.os), 0, OsRank(b.os), 0);
    if a.codex.Key() == b.codex.Key() { VersionKeyInjective(a.codex, b.codex); }
    if a.autoapprover.Key() == b.autoapprover.Key() { VersionKeyInjective(a.autoapprover, b.autoapprover); }
  }

  lemma BeforeTotal(a: Identity, b: Identity)
    ensures Before(a, b) || a == b || Before(b, a)
    ensures !(Before(a, b) && Before(b, a)) && !Before(a, a)
  {
    LessTotal(Key(a), Key(b));
    if Key(a) == Key(b) { KeyInjective(a, b); }
  }

  lemma BeforeTransitive(a: Identity, b: Identity, c: Identity)
    requires Before(a, b) && Before(b, c)
    ensures Before(a, c)
  {
    LessTransitive(Key(a), Key(b), Key(c));
  }

  const ENTRY_ID: Observation -> Identity := (o: Observation) => o.id
  const ENTRY_KEY: Observation -> seq<int> := (o: Observation) => Key(o.id)

  // ----- One recording, on the list of stored observations -----

  function SaturatingAdd(left: nat, right: nat): nat {
    Min(if left + right > U32_MAX then U32_MAX else left + right, MAX_OUTCOME_COUNT)
  }

  function AddCounts(a: Counts, b: Counts): Counts {
    Counts(SaturatingAdd(a.entry, b.entry), SaturatingAdd(a.validatedRequest, b.validatedRequest),
           SaturatingAdd(a.allow, b.allow), SaturatingAdd(a.noDecision, b.noDecision),
           SaturatingAdd(a.structuredEmission, b.structuredEmission), SaturatingAdd(a.stdoutError, b.stdoutError),
           SaturatingAdd(a.exchange, b.exchange), SaturatingAdd(a.allowUnconfirmed, b.allowUnconfirmed),
           SaturatingAdd(a.rejection, b.rejection), SaturatingAdd(a.transport, b.transport),
           SaturatingAdd(a.protocol, b.protocol))
  }

  /** Every counter saturates at the cap on its own. */
  lemma AddCountsAt(a: Counts, b: Counts, c: Category)
    ensures AddCounts(a, b).Get(c) == Min(64, a.Get(c) + b.Get(c))
    ensures AddCounts(a, b).Valid()
  {
  }

  /** Hook entries without any outcome. */
  predicate Unexplained(c: Counts) {
    c.entry > 0 && !Reported(c)
  }

  /** `c` has hook entries and no outcome, and `d` some outcome but no protocol failure. */
  predicate Hides(c: Counts, d: Counts) {
    Unexplained(c) && Reported(d) && d.protocol == 0
  }

  /** Merging never softens the outcome, with one exception: entries without any
      outcome, which count as a protocol failure, are hidden by a later outcome. */
  lemma MergedOutcomeIsWorst(a: Counts, b: Counts)
    ensures var merged, x, y := Severity(AddCounts(a, b).Aggregate()), Severity(a.Aggregate()), Severity(b.Aggregate());
      merged == (if x < y then y else x) <==> !Hides(a, b) && !Hides(b, a)
  {
    forall c: Category ensures AddCounts(a, b).Get(c) > 0 <==> a.Get(c) > 0 || b.Get(c) > 0 {
      AddCountsAt(a, b, c);
    }
    var m := AddCounts(a, b);
    assert m.Get(Protocol) == m.protocol && m.Get(Transport) == m.transport && m.Get(Rejection) == m.rejection;
    assert m.Get(AllowUnconfirmed) == m.allowUnconfirmed && m.Get(Exchange) == m.exchange && m.Get(Entry) == m.entry;
  }

  function Merge(existing: Observation, o: Observation, now: nat): Observation {
    var counts := AddCounts(existing.counts, o.counts);
    Observation(now, existing.id, counts.Aggregate(), Worse(existing.command, o.command), counts)
  }

  /** Index of the first entry with this identity, or the length. */
  function Find(list: seq<Observation>, id: Identity): (k: nat)
    ensures k <= |list|
    ensures k < |list| ==> list[k].id == id
    ensures forall i :: 0 <= i < k ==> list[i].id != id
  {
    if list == [] || list[0].id == id then 0 else 1 + Find(list[1..], id)
  }

  /** Index of the first least entry. */
  function LeastIndex(list: seq<Observation>): (k: nat)
    requires list != []
    ensures k < |list|
    ensures forall i :: 0 <= i < |list| ==> !Before(list[i].id, list[k].id)
    ensures forall i :: 0 <= i < k ==> Before(list[k].id, list[i].id)
  {
    if |list| == 1 then
      BeforeTotal(list[0].id, list[0].id);
      0
    else
      var k := LeastIndex(list[..|list| - 1]);
      var last := list[|list| - 1].id;
      BeforeTotal(last, list[k].id);
      BeforeTotal(last, last);
      if Before(last, list[k].id) then
        LeastSoFar(list, k);
        |list| - 1
      else k
  }

  lemma LeastSoFar(list: seq<Observation>, k: nat)
    requires |list| > 1 && k < |list| - 1
    requires forall i :: 0 <= i < |list| - 1 ==> !Before(list[i].id, list[k].id)
    requires Before(list[|list| - 1].id, list[k].id)
    ensures forall i :: 0 <= i < |list| - 1 ==>
              Before(list[|list| - 1].id, list[i].id) && !Before(list[i].id, list[|list| - 1].id)
  {
    var last := list[|list| - 1].id;
    forall i | 0 <= i < |list| - 1 ensures Before(last, list[i].id) && !Before(list[i].id, last) {
      LessMixed(Key(last), Key(list[k].id), Key(list[i].id));
      BeforeTotal(last, list[i].id);
    }
  }

  /** The stored list after recording an observation that passed validation. */
  function RecordValid(list: seq<Observation>, o: Observation, now: nat): seq<Observation> {
    var k := Find(list, o.id);
    if k < |list| then list[k := Merge(list[k], o, now)]
    else
      var stamped := o.(observedAt := now);
      if |list| >= MAX_OBSERVATIONS then
        var least := LeastIndex(list);
        if !Before(list[least].id, o.id) then list
        else Sort(ENTRY_KEY, list[..least] + list[least + 1..] + [stamped])
      else Sort(ENTRY_KEY, list + [stamped])
  }

  function Stamp(o: Observation, now: nat): Observation {
    if o.observedAt == 0 then o.(observedAt := now) else o
  }

  /** One call: the observation and the two clock readings it makes. */
  datatype Call = Call(observation: Observation, firstNow: nat, secondNow: nat)
  {
    predicate Accepted() {
      Stamp(observation, firstNow).Valid()
    }
  }

  function RecordCall(list: seq<Observation>, call: Call): seq<Observation> {
    if call.Accepted() then RecordValid(list, Stamp(call.observation, call.firstNow), call.secondNow) else list
  }

  predicate ValidList(list: seq<Observation>) {
    |list| <= MAX_OBSERVATIONS && forall i :: 0 <= i < |list| ==> list[i].Valid()
  }

  class UpdateState {
    var observations: seq<Observation>
    /** Outcome of the checks on the fields that recording never touches. */
    var headerValid: bool

    constructor ()
      ensures observations == [] && headerValid
    {
      observations := [];
      headerValid := true;
    }

    method Validate() returns (ok: bool)
      ensures ok <==> headerValid && ValidList(observations)
    {
      if !headerValid || |observations| > MAX_OBSERVATIONS {
        return false;
      }
      for i := 0 to |observations|
        invariant forall k :: 0 <= k < i ==> observations[k].Valid()
      {
        if !observations[i].Valid() {
          return false;
        }
      }
      return true;
    }

    /** The scan for the least entry. */
    method OldestIndex() returns (oldest: nat)
      requires observations != []
      ensures oldest == LeastIndex(observations)
    {
      oldest := 0;
      BeforeTotal(observations[0].id, observations[0].id);
      for i := 1 to |observations|
        invariant oldest == LeastIndex(observations[..i])
      {
        assert observations[..i + 1][..i] == observations[..i];
        if Before(observations[i].id, observations[oldest].id) {
          oldest := i;
        }
      }
      assert observations[..|observations|] == observations;
    }

    /** `record_compatibility_observation`. When the second clock reading is
        zero the entry is stored and the call still reports an error. */
    method RecordObservation(call: Call) returns (ok: bool)
      modifies this`observations
      ensures observations == RecordCall(old(observations), call)
      ensures ok <==> call.Accepted() && headerValid && ValidList(observations)
    {
      var o := Stamp(call.observation, call.firstNow);
      if !o.Valid() {
        return false;
      }
      var k := 0;
      while k < |observations| && observations[k].id != o.id
        invariant k <= |observations|
        invariant forall i :: 0 <= i < k ==> observations[i].id != o.id
      {
        k := k + 1;
      }
      if k < |observations| {
        observations := observations[k := Merge(observations[k], o, call.secondNow)];
      } else {
        o := o.(observedAt := call.secondNow);
        if |observations| >= MAX_OBSERVATIONS {
          var oldest := OldestIndex();
          if !Before(observations[oldest].id, o.id) {
            ok := Validate();
            return;
          }
          observations := observations[..oldest] + observations[oldest + 1..];
        }
        observations := observations + [o];
        observations := Sort(ENTRY_KEY, observations);
      }
      ok := Validate();
    }
  }

  // ----- Whole runs against the unbounded history -----

  /** The stored list after a sequence of calls on a fresh state. */
  function Run(calls: seq<Call>): seq<Observation> {
    if calls == [] then [] else RecordCall(Run(calls[..|calls| - 1]), calls[|calls| - 1])
  }

  /** Every observation that was accepted, in order; times are irrelevant. */
  function History(calls: seq<Call>): seq<Observation> {
    if calls == [] then []
    else
      var rest := History(calls[..|calls| - 1]);
      var last := calls[|calls| - 1];
      if last.Accepted() then rest + [last.observation.(observedAt := 0)] else rest
  }

  function Ids(list: seq<Observation>): (ids: set<Identity>)
    ensures forall i :: 0 <= i < |list| ==> list[i].id in ids
  {
    set o | o in list :: o.id
  }

  /** Sum of one counter over every accepted observation of an identity. */
  function Total(history: seq<Observation>, id: Identity, c: Category): nat {
    if history == [] then 0
    else
      var last := history[|history| - 1];
      Total(history[..|history| - 1], id, c) + if last.id == id then last.counts.Get(c) else 0
  }

  /** The worst command outcome among the observations of an identity. */
  ghost function Worst(history: seq<Observation>, id: Identity): CommandOutcome {
    if exists o :: o in history && o.id == id && o.command == Failed then Failed
    else if exists o :: o in history && o.id == id && o.command == Unknown then Unknown
    else Succeeded
  }

  /** `kept` are the eight greatest identities of `ids`, or all of them. */
  ghost predicate Greatest(kept: set<Identity>, ids: set<Identity>) {
    && kept <= ids
    && |kept| == Min(8, |ids|)
    && forall a, b :: a in ids - kept && b in kept ==> Before(a, b)
  }

  /** An entry carries exactly the saturated totals of its identity. */
  ghost predicate Faithful(e: Observation, history: seq<Observation>) {
    && (forall c :: e.counts.Get(c) == Min(64, Total(history, e.id, c)))
    && e.hook == e.counts.Aggregate()
    && e.command == Worst(history, e.id)
  }

  ghost predicate AllFaithful(list: seq<Observation>, history: seq<Observation>) {
    forall e :: e in list ==> Faithful(e, history)
  }

  ghost predicate Summarises(list: seq<Observation>, history: seq<Observation>) {
    && StrictlySorted(ENTRY_KEY, list)
    && Greatest(Ids(list), Ids(history))
    && AllFaithful(list, history)
  }

  // ----- The eight greatest identities, as sets -----

  lemma {:induction false} SubsetSize(a: set<Identity>, b: set<Identity>)
    requires a <= b
    ensures |a| <= |b|
    ensures |a| == |b| ==> a == b
  {
    assert b == a + (b - a);
    assert |b| == |a| + |b - a|;
  }

  lemma GreatestGrow(kept: set<Identity>, ids: set<Identity>, i: Identity)
    requires Greatest(kept, ids) && i !in kept && |kept| < MAX_OBSERVATIONS
    ensures i !in ids && Greatest(kept + {i}, ids + {i})
  {
    SubsetSize(kept, ids);
    assert kept == ids;
  }

  lemma GreatestRefuse(kept: set<Identity>, ids: set<Identity>, i: Identity)
    requires Greatest(kept, ids) && i !in kept && |kept| == MAX_OBSERVATIONS
    requires forall b :: b in kept ==> Before(i, b)
    ensures Greatest(kept, ids + {i})
  {
    SubsetSize(ids, ids + {i});
  }

  lemma GreatestReplace(kept: set<Identity>, ids: set<Identity>, i: Identity, m: Identity)
    requires Greatest(kept, ids) && i !in kept && |kept| == MAX_OBSERVATIONS
    requires m in kept && (forall b :: b in kept - {m} ==> Before(m, b)) && Before(m, i)
    ensures i !in ids && Greatest(kept - {m} + {i}, ids + {i})
  {
    if i in ids {
      assert i in ids - kept && Before(i, m);
      BeforeTotal(i, m);
    }
    SubsetSize(ids, ids + {i});
    var kept' := kept - {m} + {i};
    forall a, b | a in (ids + {i}) - kept' && b in kept' ensures Before(a, b) {
      if a != m {
        assert a in ids - kept;
        if b == i { BeforeTransitive(a, m, i); }
      }
    }
  }

  /** The eight greatest identities are determined. */
  lemma GreatestUnique(a: set<Identity>, b: set<Identity>, ids: set<Identity>)
    requires Greatest(a, ids) && Greatest(b, ids)
    ensures a == b
  {
    if a != b {
      var x := Escapes(a, b);
      var y := Escapes(b, a);
      assert x in ids - b && y in ids - a;
      BeforeTotal(x, y);
    }
  }

  lemma Escapes(a: set<Identity>, b: set<Identity>) returns (x: Identity)
    requires |a| == |b| && a != b
    ensures x in a && x !in b
  {
    if a <= b { SubsetSize(a, b); }
    x :| x in a && x !in b;
  }

  // ----- One step -----

  lemma SortedHasDistinctIds(list: seq<Observation>)
    requires StrictlySorted(ENTRY_KEY, list)
    ensures DistinctBy(ENTRY_ID, list) && |Ids(list)| == |list|
  {
    forall i, j | 0 <= i < j < |list| ensures list[i].id != list[j].id {
      LessTotal(ENTRY_KEY(list[i]), ENTRY_KEY(list[i]));
    }
    DistinctIdCount(list);
  }

  lemma {:induction false} DistinctIdCount(list: seq<Observation>)
    requires DistinctBy(ENTRY_ID, list)
    ensures |Ids(list)| == |list|
  {
    if list != [] {
      var front, last := list[..|list| - 1], list[|list| - 1];
      DistinctIdCount(front);
      assert list == front + [last];
      IdsAppend(front, last);
      assert last.id !in Ids(front);
    }
  }

  lemma {:induction false} TotalAbsent(history: seq<Observation>, id: Identity, c: Category)
    requires id !in Ids(history)
    ensures Total(history, id, c) == 0
  {
    if history != [] {
      var front := history[..|history| - 1];
      forall o | o in front ensures o.id in Ids(history) {
        assert o in history;
      }
      TotalAbsent(front, id, c);
    }
  }

  lemma WorstAppend(history: seq<Observation>, o: Observation, id: Identity)
    ensures Worst(history + [o], id) == if o.id == id then Worse(Worst(history, id), o.command) else Worst(history, id)
  {
  }

  /** What the history says about identities other than the new one is unchanged. */
  lemma FaithfulOther(e: Observation, history: seq<Observation>, o: Observation)
    requires Faithful(e, history) && e.id != o.id
    ensures Faithful(e, history + [o])
  {
  }

  lemma FaithfulMerge(e: Observation, history: seq<Observation>, o: Observation, now: nat)
    requires Faithful(e, history) && e.id == o.id
    ensures Faithful(Merge(e, o, now), history + [o])
  {
    assert (history + [o])[..|history|] == history;
    WorstAppend(history, o, e.id);
    forall c ensures Merge(e, o, now).counts.Get(c) == Min(MAX_OUTCOME_COUNT, Total(history + [o], e.id, c)) {
      AddCountsAt(e.counts, o.counts, c);
    }
  }

  lemma FaithfulNew(history: seq<Observation>, o: Observation, now: nat)
    requires o.id !in Ids(history) && o.counts.Valid() && o.hook == o.counts.Aggregate()
    ensures Faithful(o.(observedAt := now), history + [o])
  {
    assert (history + [o])[..|history|] == history;
    WorstAppend(history, o, o.id);
    assert forall x :: x in history ==> x.id in Ids(history);
    forall c ensures o.counts.Get(c) == Min(MAX_OUTCOME_COUNT, Total(history + [o], o.id, c)) {
      TotalAbsent(history, o.id, c);
    }
  }

  lemma IdsAppend(history: seq<Observation>, o: Observation)
    ensures Ids(history + [o]) == Ids(history) + {o.id}
  {
  }

  /** Inserting a fresh entry into a strictly sorted list. */
  lemma SortFresh(list: seq<Observation>, o: Observation)
    requires DistinctBy(ENTRY_ID, list) && o.id !in Ids(list)
    ensures StrictlySorted(ENTRY_KEY, Sort(ENTRY_KEY, list + [o]))
    ensures Ids(Sort(ENTRY_KEY, list + [o])) == Ids(list) + {o.id}
  {
    var next := list + [o];
    assert DistinctBy(ENTRY_ID, next);
    KeysDistinct(next);
    SortStrict(ENTRY_KEY, next);
    IdsAppend(list, o);
    assert forall x :: x in Sort(ENTRY_KEY, next) <==> x in next;
  }

  lemma KeysDistinct(list: seq<Observation>)
    requires DistinctBy(ENTRY_ID, list)
    ensures DistinctBy(ENTRY_KEY, list)
  {
  }

  /** Removing one position of a list with distinct identities. */
  lemma RemoveAt(list: seq<Observation>, k: nat)
    requires DistinctBy(ENTRY_ID, list) && k < |list|
    ensures DistinctBy(ENTRY_ID, list[..k] + list[k + 1..])
    ensures Ids(list[..k] + list[k + 1..]) == Ids(list) - {list[k].id}
  {
  }

  lemma SameIdsSameOrder(a: seq<Observation>, b: seq<Observation>)
    requires |a| == |b| && forall i :: 0 <= i < |a| ==> a[i].id == b[i].id
    requires StrictlySorted(ENTRY_KEY, a)
    ensures StrictlySorted(ENTRY_KEY, b)
  {
  }

  /** Replacing the entry of the observed identity. */
  lemma StepUpdate(list: seq<Observation>, history: seq<Observation>, o: Observation, k: nat, merged: Observation)
    requires Summarises(list, history) && k < |list| && list[k].id == o.id == merged.id
    requires Faithful(merged, history + [o])
    ensures Summarises(list[k := merged], history + [o])
  {
    var next := list[k := merged];
    SortedHasDistinctIds(list);
    SameIdsSameOrder(list, next);
    SameIds(list, next);
    IdsAppend(history, o);
    assert Ids(history + [o]) == Ids(history);
    forall e | e in next ensures Faithful(e, history + [o]) {
      if e != merged {
        var i :| 0 <= i < |next| && next[i] == e;
        assert list[i] in list;
        FaithfulOther(e, history, o);
      }
    }
  }

  lemma StepMerge(list: seq<Observation>, history: seq<Observation>, o: Observation, now: nat)
    requires Summarises(list, history) && Find(list, o.id) < |list|
    ensures Summarises(RecordValid(list, o, now), history + [o])
  {
    var k := Find(list, o.id);
    FaithfulMerge(list[k], history, o, now);
    StepUpdate(list, history, o, k, Merge(list[k], o, now));
  }

  lemma SameIds(a: seq<Observation>, b: seq<Observation>)
    requires |a| == |b| && forall i :: 0 <= i < |a| ==> a[i].id == b[i].id
    ensures Ids(a) == Ids(b)
  {
  }

  /** Entries that stay, and the first entry of an identity, are faithful. */
  lemma FaithfulAdd(rest: seq<Observation>, history: seq<Observation>, o: Observation, now: nat)
    requires o.id !in Ids(rest) && o.id !in Ids(history) && AllFaithful(rest, history)
    requires o.counts.Valid() && o.hook == o.counts.Aggregate()
    ensures AllFaithful(rest + [o.(observedAt := now)], history + [o])
  {
    FaithfulNew(history, o, now);
    forall e | e in rest ensures Faithful(e, history + [o]) {
      assert e.id in Ids(rest);
      FaithfulOther(e, history, o);
    }
  }

  /** Adding the first entry of an identity beside the entries that stay. */
  lemma StepAdd(rest: seq<Observation>, history: seq<Observation>, o: Observation, now: nat)
    requires DistinctBy(ENTRY_ID, rest) && o.id !in Ids(rest) && o.id !in Ids(history)
    requires Greatest(Ids(rest) + {o.id}, Ids(history) + {o.id})
    requires AllFaithful(rest, history)
    requires o.counts.Valid() && o.hook == o.counts.Aggregate()
    ensures Summarises(Sort(ENTRY_KEY, rest + [o.(observedAt := now)]), history + [o])
  {
    SortFresh(rest, o.(observedAt := now));
    IdsAppend(history, o);
    FaithfulAdd(rest, history, o, now);
  }

  lemma StepInsert(list: seq<Observation>, history: seq<Observation>, o: Observation, now: nat)
    requires Summarises(list, history) && Find(list, o.id) == |list| < MAX_OBSERVATIONS
    requires o.counts.Valid() && o.hook == o.counts.Aggregate()
    ensures Summarises(RecordValid(list, o, now), history + [o])
  {
    SortedHasDistinctIds(list);
    assert o.id !in Ids(list);
    GreatestGrow(Ids(list), Ids(history), o.id);
    StepAdd(list, history, o, now);
  }

  lemma StepRefuse(list: seq<Observation>, history: seq<Observation>, o: Observation)
    requires Summarises(list, history) && Find(list, o.id) == |list| >= MAX_OBSERVATIONS
    requires !Before(list[LeastIndex(list)].id, o.id)
    ensures Summarises(list, history + [o])
  {
    SortedHasDistinctIds(list);
    assert o.id !in Ids(list);
    IdsAppend(history, o);
    var m := list[LeastIndex(list)].id;
    forall b | b in Ids(list) ensures Before(o.id, b) {
      BeforeTotal(m, o.id);
      LessMixed(Key(o.id), Key(m), Key(b));
    }
    GreatestRefuse(Ids(list), Ids(history), o.id);
    forall e | e in list ensures Faithful(e, history + [o]) {
      FaithfulOther(e, history, o);
    }
  }

  lemma LeastIsLeast(list: seq<Observation>)
    requires list != []
    ensures forall b :: b in Ids(list) - {list[LeastIndex(list)].id} ==> Before(list[LeastIndex(list)].id, b)
  {
    var m := list[LeastIndex(list)].id;
    forall b | b in Ids(list) - {m} ensures Before(m, b) {
      BeforeTotal(m, b);
    }
  }

  /** The identities that remain after an eviction, with the new one, are the greatest. */
  lemma GreatestAfterEviction(list: seq<Observation>, ids: set<Identity>, o: Observation, k: nat)
    requires DistinctBy(ENTRY_ID, list) && |list| == |Ids(list)| >= MAX_OBSERVATIONS && Greatest(Ids(list), ids) && o.id !in Ids(list)
    requires k == LeastIndex(list) && Before(list[k].id, o.id)
    ensures o.id !in ids
    ensures Greatest(Ids(list) - {list[k].id} + {o.id}, ids + {o.id})
  {
    LeastIsLeast(list);
    GreatestReplace(Ids(list), ids, o.id, list[k].id);
  }

  lemma FaithfulRest(list: seq<Observation>, history: seq<Observation>, k: nat)
    requires AllFaithful(list, history) && k < |list|
    ensures AllFaithful(list[..k] + list[k + 1..], history)
  {
  }

  lemma EvictionIds(list: seq<Observation>, ids: set<Identity>, o: Observation, k: nat, rest: seq<Observation>)
    requires StrictlySorted(ENTRY_KEY, list) && Greatest(Ids(list), ids) && o.id !in Ids(list) && |list| >= MAX_OBSERVATIONS
    requires k == LeastIndex(list) && Before(list[k].id, o.id) && rest == list[..k] + list[k + 1..]
    ensures DistinctBy(ENTRY_ID, rest) && o.id !in Ids(rest) && o.id !in ids
    ensures Greatest(Ids(rest) + {o.id}, ids + {o.id})
  {
    SortedHasDistinctIds(list);
    GreatestAfterEviction(list, ids, o, k);
    RemoveAt(list, k);
  }

  /** The entries that remain are ready for the new one. */
  lemma EvictionLeaves(list: seq<Observation>, history: seq<Observation>, o: Observation, k: nat, rest: seq<Observation>)
    requires Summarises(list, history) && Find(list, o.id) == |list| >= MAX_OBSERVATIONS
    requires k == LeastIndex(list) && Before(list[k].id, o.id) && rest == list[..k] + list[k + 1..]
    ensures DistinctBy(ENTRY_ID, rest) && o.id !in Ids(rest) && o.id !in Ids(history)
    ensures Greatest(Ids(rest) + {o.id}, Ids(history) + {o.id})
    ensures AllFaithful(rest, history)
  {
    assert o.id !in Ids(list);
    EvictionIds(list, Ids(history), o, k, rest);
    FaithfulRest(list, history, k);
  }

  lemma StepReplace(list: seq<Observation>, history: seq<Observation>, o: Observation, now: nat, k: nat)
    requires Summarises(list, history) && Find(list, o.id) == |list| >= MAX_OBSERVATIONS
    requires o.counts.Valid() && o.hook == o.counts.Aggregate()
    requires k == LeastIndex(list) && Before(list[k].id, o.id)
    ensures Summarises(Sort(ENTRY_KEY, list[..k] + list[k + 1..] + [o.(observedAt := now)]), history + [o])
  {
    var rest := list[..k] + list[k + 1..];
    EvictionLeaves(list, history, o, k, rest);
    StepAdd(rest, history, o, now);
  }

  /** Recording one accepted observation extends the summarised history by it. */
  lemma StepValid(list: seq<Observation>, history: seq<Observation>, o: Observation, now: nat)
    requires Summarises(list, history) && o.counts.Valid() && o.hook == o.counts.Aggregate()
    ensures Summarises(RecordValid(list, o, now), history + [o])
  {
    if Find(list, o.id) < |list| {
      StepMerge(list, history, o, now);
    } else if |list| < MAX_OBSERVATIONS {
      StepInsert(list, history, o, now);
    } else {
      var k := LeastIndex(list);
      if Before(list[k].id, o.id) {
        StepReplace(list, history, o, now, k);
      } else {
        StepRefuse(list, history, o);
      }
    }
  }

  // ----- The main results -----

  /** After any sequence of calls on a fresh state the stored list is strictly
      sorted, holds exactly the eight greatest identities ever accepted, and
      every entry carries the saturated totals and the worst command outcome
      of its identity. */
  lemma {:induction false} RunSummarisesHistory(calls: seq<Call>)
    ensures Summarises(Run(calls), History(calls))
  {
    if calls == [] {
      assert Ids([]) == {};
    } else {
      var front, last := calls[..|calls| - 1], calls[|calls| - 1];
      RunSummarisesHistory(front);
      if last.Accepted() {
        var o := last.observation.(observedAt := 0);
        StampIrrelevant(Run(front), last);
        StepValid(Run(front), History(front), o, last.secondNow);
      }
    }
  }

  /** The first clock reading only decides acceptance. */
  lemma StampIrrelevant(list: seq<Observation>, call: Call)
    requires call.Accepted()
    ensures RecordCall(list, call) == RecordValid(list, call.observation.(observedAt := 0), call.secondNow)
  {
  }

  /** Recording stamps the entry of the observed identity with the clock and
      leaves every other stored entry as it was. */
  lemma RecordTimes(list: seq<Observation>, o: Observation, now: nat)
    requires DistinctBy(ENTRY_ID, list)
    ensures forall e :: e in RecordValid(list, o, now) ==> if e.id == o.id then e.observedAt == now else e in list
  {
    var k := Find(list, o.id);
    if k < |list| {
      forall i | 0 <= i < |list| && i != k ensures list[i].id != o.id {
        assert ENTRY_ID(list[i]) != ENTRY_ID(list[k]);
      }
    }
  }

  /** Over every run: an accepted call stamps the entry of its identity with its
      second clock reading, and every other stored entry was stored before as it is. */
  lemma CallTimes(calls: seq<Call>, call: Call)
    ensures !call.Accepted() ==> Run(calls + [call]) == Run(calls)
    ensures call.Accepted() ==>
      forall e :: e in Run(calls + [call]) ==>
        if e.id == call.observation.id then e.observedAt == call.secondNow else e in Run(calls)
  {
    assert (calls + [call])[..|calls|] == calls;
    RunSummarisesHistory(calls);
    SortedHasDistinctIds(Run(calls));
    if call.Accepted() {
      RecordTimes(Run(calls), Stamp(call.observation, call.firstNow), call.secondNow);
    }
  }

  /** The second clock reading of the last accepted call for an identity. */
  function LastReading(calls: seq<Call>, id: Identity): nat {
    if calls == [] then 0
    else
      var last := calls[|calls| - 1];
      if last.Accepted() && last.observation.id == id then last.secondNow else LastReading(calls[..|calls| - 1], id)
  }

  /** A stored time is that of the last accepted call for its identity. */
  lemma {:induction false} StoredTimes(calls: seq<Call>, e: Observation)
    requires e in Run(calls)
    ensures e.observedAt == LastReading(calls, e.id)
  {
    var front, last := calls[..|calls| - 1], calls[|calls| - 1];
    assert calls == front + [last];
    CallTimes(front, last);
    if !last.Accepted() || last.observation.id != e.id {
      StoredTimes(front, e);
    }
  }

  /** A call is accepted exactly when no counter is above 64, the hook outcome is
      the worst of its counts, and one of its first two times is not zero. */
  lemma AcceptedExactly(call: Call)
    ensures call.Accepted() <==>
      && (forall c: Category :: call.observation.counts.Get(c) <= 64)
      && WorstHook(call.observation.counts, call.observation.hook)
      && (call.observation.observedAt != 0 || call.firstNow != 0)
  {
    var counts := call.observation.counts;
    AggregateIsWorst(counts, call.observation.hook);
    if forall c: Category :: counts.Get(c) <= 64 {
      CountsValid(counts);
    }
  }

  lemma CountsValid(counts: Counts)
    requires forall c: Category :: counts.Get(c) <= MAX_OUTCOME_COUNT
    ensures counts.Valid()
  {
    assert counts.Get(Entry) <= 64 && counts.Get(ValidatedRequest) <= 64 && counts.Get(Allow) <= 64;
    assert counts.Get(NoDecision) <= 64 && counts.Get(StructuredEmission) <= 64 && counts.Get(StdoutError) <= 64;
    assert counts.Get(Exchange) <= 64 && counts.Get(AllowUnconfirmed) <= 64 && counts.Get(Rejection) <= 64;
    assert counts.Get(Transport) <= 64 && counts.Get(Protocol) <= 64;
  }

  /** With a running clock every accepted observation is reported as stored. */
  lemma {:induction false} RunValid(calls: seq<Call>)
    requires forall i :: 0 <= i < |calls| ==> calls[i].secondNow != 0
    ensures ValidList(Run(calls))
  {
    if calls != [] {
      RunValid(calls[..|calls| - 1]);
      RecordKeepsValid(Run(calls[..|calls| - 1]), calls[|calls| - 1]);
    }
  }

  lemma RecordKeepsValid(list: seq<Observation>, call: Call)
    requires ValidList(list) && call.secondNow != 0
    ensures ValidList(RecordCall(list, call))
  {
    if call.Accepted() {
      var o := Stamp(call.observation, call.firstNow);
      var k := Find(list, o.id);
      if k < |list| {
        AddCountsAt(list[k].counts, o.counts, Entry);
      } else {
        forall e | e in RecordCall(list, call) ensures e.Valid() {
        }
      }
    }
  }

  /** An identity that was evicted or refused never comes back. */
  lemma EvictedNeverReturns(calls: seq<Call>, later: seq<Call>, id: Identity)
    requires id in Ids(History(calls)) && id !in Ids(Run(calls))
    ensures id !in Ids(Run(calls + later))
  {
    RunSummarisesHistory(calls);
    RunSummarisesHistory(calls + later);
    HistoryGrows(calls, later);
    var kept, kept' := Ids(Run(calls)), Ids(Run(calls + later));
    SubsetSize(kept, Ids(History(calls)));
    SubsetSize(Ids(History(calls)), Ids(History(calls + later)));
    if id in kept' {
      var b := Escapes(kept, kept');
      assert Before(id, b) && Before(b, id);
      BeforeTotal(id, b);
    }
  }

  lemma {:induction false} HistoryGrows(calls: seq<Call>, later: seq<Call>)
    ensures Ids(History(calls)) <= Ids(History(calls + later))
  {
    if later == [] {
      assert calls + later == calls;
    } else {
      var front := later[..|later| - 1];
      HistoryGrows(calls, front);
      assert (calls + later)[..|calls + later| - 1] == calls + front;
      var last := (calls + later)[|calls + later| - 1];
      IdsAppend(History(calls + front), last.observation.(observedAt := 0));
    }
  }

  // ----- Arrival order does not matter -----

  lemma {:induction false} TotalWithout(history: seq<Observation>, k: nat, id: Identity, c: Category)
    requires k < |history|
    ensures Total(history, id, c) == Total(history[..k] + history[k + 1..], id, c)
                                     + if history[k].id == id then history[k].counts.Get(c) else 0
  {
    var last := |history| - 1;
    var front, rest := history[..last], history[..k] + history[k + 1..];
    if k < last {
      TotalWithout(front, k, id, c);
      assert rest[..|rest| - 1] == front[..k] + front[k + 1..];
      assert rest[|rest| - 1] == history[last];
    } else {
      assert rest == front;
    }
  }

  lemma {:induction false} TotalPermuted(a: seq<Observation>, b: seq<Observation>, id: Identity, c: Category)
    requires multiset(a) == multiset(b)
    ensures Total(a, id, c) == Total(b, id, c)
  {
    if a == [] {
      assert |b| == |multiset(b)| == 0;
    } else {
      var k := PickPermuted(a, b);
      TotalPermuted(a[..|a| - 1], b[..k] + b[k + 1..], id, c);
      TotalWithout(b, k, id, c);
    }
  }

  /** Two entries that differ at most in their time stamp. */
  predicate SameEntry(a: Observation, b: Observation) {
    a.(observedAt := 0) == b.(observedAt := 0)
  }

  lemma FaithfulUnique(a: Observation, b: Observation, h: seq<Observation>, g: seq<Observation>)
    requires Faithful(a, h) && Faithful(b, g) && a.id == b.id && multiset(h) == multiset(g)
    ensures SameEntry(a, b)
  {
    forall c ensures a.counts.Get(c) == b.counts.Get(c) {
      TotalPermuted(h, g, a.id, c);
    }
    CountsExtensional(a.counts, b.counts);
    assert forall o :: o in h <==> o in multiset(h);
    assert forall o :: o in g <==> o in multiset(g);
  }

  const ID_KEY: Identity -> seq<int> := (id: Identity) => Key(id)

  function IdList(list: seq<Observation>): (ids: seq<Identity>)
    ensures |ids| == |list| && forall i :: 0 <= i < |list| ==> ids[i] == list[i].id
  {
    seq(|list|, i requires 0 <= i < |list| => list[i].id)
  }

  lemma IdListSorted(list: seq<Observation>)
    requires StrictlySorted(ENTRY_KEY, list)
    ensures StrictlySorted(ID_KEY, IdList(list))
    ensures forall id :: id in IdList(list) <==> id in Ids(list)
  {
  }

  /** Runs whose accepted observations are the same up to order store the same
      entries in the same places, time stamps apart. */
  lemma RunOrderIrrelevant(calls: seq<Call>, others: seq<Call>)
    requires multiset(History(calls)) == multiset(History(others))
    ensures |Run(calls)| == |Run(others)|
    ensures forall i :: 0 <= i < |Run(calls)| ==> SameEntry(Run(calls)[i], Run(others)[i])
  {
    RunSummarisesHistory(calls);
    RunSummarisesHistory(others);
    PermutedIds(History(calls), History(others));
    SameIdentities(Run(calls), Run(others), History(calls), History(others));
    forall i | 0 <= i < |Run(calls)| ensures SameEntry(Run(calls)[i], Run(others)[i]) {
      FaithfulUnique(Run(calls)[i], Run(others)[i], History(calls), History(others));
    }
  }

  lemma PermutedIds(h: seq<Observation>, g: seq<Observation>)
    requires multiset(h) == multiset(g)
    ensures Ids(h) == Ids(g)
  {
    assert forall o :: o in h <==> o in multiset(h);
    assert forall o :: o in g <==> o in multiset(g);
  }

  /** Lists that summarise the same identities hold the same ones, place by place. */
  lemma SameIdentities(a: seq<Observation>, b: seq<Observation>, h: seq<Observation>, g: seq<Observation>)
    requires Summarises(a, h) && Summarises(b, g) && Ids(h) == Ids(g)
    ensures |a| == |b| && forall i :: 0 <= i < |a| ==> a[i].id == b[i].id
  {
    GreatestUnique(Ids(a), Ids(b), Ids(h));
    IdListSorted(a);
    IdListSorted(b);
    StrictlySortedUnique(ID_KEY, IdList(a), IdList(b));
    forall i | 0 <= i < |a| ensures a[i].id == b[i].id {
      assert a[i].id == IdList(a)[i] == IdList(b)[i] == b[i].id;
    }
  }

  // ----- The outcome of an entry against its history -----

  lemma {:induction false} TotalPositive(history: seq<Observation>, id: Identity, c: Category)
    ensures Total(history, id, c) > 0 <==> exists o :: o in history && o.id == id && o.counts.Get(c) > 0
  {
    if history != [] {
      var front, last := history[..|history| - 1], history[|history| - 1];
      TotalPositive(front, id, c);
      assert history == front + [last];
      assert forall o :: o in history <==> o in front || o == last;
    }
  }

  /** The worst hook outcome recorded for an identity. */
  ghost predicate WorstRecorded(history: seq<Observation>, id: Identity, h: HookOutcome) {
    && (exists o :: o in history && o.id == id && o.hook == h)
    && forall o :: o in history && o.id == id ==> Severity(o.hook) <= Severity(h)
  }

  /** Hook entries without any outcome, beside outcomes none of which is a protocol failure. */
  ghost predicate HiddenIn(history: seq<Observation>, id: Identity) {
    && (exists o :: o in history && o.id == id && Unexplained(o.counts))
    && (exists o :: o in history && o.id == id && Reported(o.counts))
    && forall o :: o in history && o.id == id ==> o.counts.protocol == 0
  }

  lemma {:induction false} HistoryAggregates(calls: seq<Call>)
    ensures Aggregated(History(calls))
  {
    if calls != [] {
      HistoryAggregates(calls[..|calls| - 1]);
    }
  }

  /** A category counts in the entry exactly when some observation counted it. */
  lemma StoredCategory(e: Observation, history: seq<Observation>, c: Category)
    requires Faithful(e, history)
    ensures e.counts.Get(c) > 0 <==> exists o :: o in history && o.id == e.id && o.counts.Get(c) > 0
  {
    TotalPositive(history, e.id, c);
  }

  /** A recorded outcome of the entry was recorded by some observation, and back. */
  lemma StoredRecorded(e: Observation, history: seq<Observation>, h: HookOutcome)
    requires Faithful(e, history)
    ensures Recorded(e.counts, h) <==> exists o :: o in history && o.id == e.id && Recorded(o.counts, h)
  {
    StoredCategory(e, history, CategoryOf(h));
    if Recorded(e.counts, h) {
      var o :| o in history && o.id == e.id && o.counts.Get(CategoryOf(h)) > 0;
      assert Recorded(o.counts, h);
    }
  }

  lemma ReportedMeans(c: Counts)
    ensures Reported(c) <==> exists h :: Recorded(c, h)
    ensures Recorded(c, ProtocolFailure) <==> c.protocol > 0
  {
    if Reported(c) {
      AggregateIsWorst(c, c.Aggregate());
      assert Recorded(c, c.Aggregate());
    }
  }

  ghost predicate Aggregated(history: seq<Observation>) {
    forall o :: o in history ==> o.hook == o.counts.Aggregate()
  }

  /** An entry with a recorded outcome: nothing recorded beats it, unless an
      observation has entries without outcome and no protocol failure covers them. */
  lemma ReportedAgainstHistory(e: Observation, history: seq<Observation>)
    requires Faithful(e, history) && Aggregated(history) && Reported(e.counts)
    ensures exists o :: o in history && o.id == e.id && Reported(o.counts) && o.hook == e.hook
    ensures forall o :: o in history && o.id == e.id && Reported(o.counts) ==> Severity(o.hook) <= Severity(e.hook)
  {
    AggregateIsWorst(e.counts, e.hook);
    StoredRecorded(e, history, e.hook);
    var w :| w in history && w.id == e.id && Recorded(w.counts, e.hook);
    forall o | o in history && o.id == e.id && Reported(o.counts) ensures Severity(o.hook) <= Severity(e.hook) {
      AggregateIsWorst(o.counts, o.hook);
      StoredRecorded(e, history, o.hook);
    }
    ReportedMeans(w.counts);
    AggregateIsWorst(w.counts, w.hook);
    assert Severity(w.hook) == Severity(e.hook);
  }

  lemma ProtocolAgainstHistory(e: Observation, history: seq<Observation>)
    requires Faithful(e, history) && Reported(e.counts)
    ensures e.hook == ProtocolFailure <==> exists o :: o in history && o.id == e.id && o.counts.protocol > 0
  {
    StoredCategory(e, history, Protocol);
    assert e.counts.Get(Protocol) == e.counts.protocol;
    forall o: Observation ensures o.counts.Get(Protocol) == o.counts.protocol {}
  }

  /** No outcome at all: entries alone decide. */
  lemma UnreportedAgainstHistory(e: Observation, history: seq<Observation>)
    requires Faithful(e, history) && !Reported(e.counts)
    ensures forall o :: o in history && o.id == e.id ==> !Reported(o.counts)
    ensures e.counts.entry > 0 <==> exists o :: o in history && o.id == e.id && o.counts.entry > 0
  {
    forall o | o in history && o.id == e.id ensures !Reported(o.counts) {
      if Reported(o.counts) {
        ReportedMeans(o.counts);
        var h :| Recorded(o.counts, h);
        StoredRecorded(e, history, h);
        ReportedMeans(e.counts);
      }
    }
    StoredCategory(e, history, Entry);
    forall o: Observation ensures o.counts.Get(Entry) == o.counts.entry {}
  }

  lemma WorstAgainstHistory(e: Observation, history: seq<Observation>)
    requires Faithful(e, history) && Aggregated(history) && e.id in Ids(history)
    ensures WorstRecorded(history, e.id, e.hook) <==> !HiddenIn(history, e.id)
  {
    if Reported(e.counts) {
      ReportedAgainstHistory(e, history);
      ProtocolAgainstHistory(e, history);
    } else {
      UnreportedAgainstHistory(e, history);
      var o :| o in history && o.id == e.id;
      assert o.hook == if o.counts.entry > 0 then ProtocolFailure else NoHookInvocation;
    }
  }

  /** Over every run, a stored hook outcome is the worst ever recorded for its
      identity, exactly unless entries without any outcome are hidden. */
  lemma StoredHookIsWorst(calls: seq<Call>, e: Observation)
    requires e in Run(calls)
    ensures WorstRecorded(History(calls), e.id, e.hook) <==> !HiddenIn(History(calls), e.id)
  {
    RunSummarisesHistory(calls);
    HistoryAggregates(calls);
    assert e.id in Ids(Run(calls));
    WorstAgainstHistory(e, History(calls));
  }

  lemma RunOfOne(call: Call)
    requires call.Accepted()
    ensures Run([call]) == [call.observation.(observedAt := call.secondNow)]
    ensures History([call]) == [call.observation.(observedAt := 0)]
  {
    var o := call.observation.(observedAt := call.secondNow);
    assert [call][..0] == [] && [o][..0] == [] && [] + [o] == [o];
    assert Sort(ENTRY_KEY, [o]) == [o];
  }

  lemma RunOfTwo(one: Call, two: Call)
    requires one.Accepted() && two.Accepted() && one.observation.id == two.observation.id
    ensures |Run([one, two])| == 1
    ensures var e := Run([one, two])[0];
      && e.id == one.observation.id
      && e.counts == AddCounts(one.observation.counts, two.observation.counts) && e.hook == e.counts.Aggregate()
    ensures History([one, two]) == [one.observation.(observedAt := 0), two.observation.(observedAt := 0)]
  {
    RunOfOne(one);
    assert [one, two][..1] == [one];
  }

  /** A session with one hook entry and no outcome, and one with an exchange and no entry. */
  function EntryOnly(id: Identity, now: nat): Call {
    Call(Observation(now, id, ProtocolFailure, Unknown, ZERO.(entry := 1)), now, now)
  }

  function ExchangeOnly(id: Identity, now: nat): Call {
    Call(Observation(now, id, SuccessfulExchange, Unknown, ZERO.(exchange := 1)), now, now)
  }

  /** Two accepted calls that leave a successful exchange over a protocol failure. */
  lemma MergeMayHideFailure(id: Identity, now: nat)
    requires now > 0
    ensures var one, two := EntryOnly(id, now), ExchangeOnly(id, now);
      && one.Accepted() && two.Accepted() && Hides(one.observation.counts, two.observation.counts)
      && HiddenIn(History([one, two]), id)
      && |Run([one, two])| == 1 && Run([one, two])[0].id == id && Run([one, two])[0].hook == SuccessfulExchange
  {
    var one, two := EntryOnly(id, now), ExchangeOnly(id, now);
    RunOfTwo(one, two);
    var a, b := one.observation.(observedAt := 0), two.observation.(observedAt := 0);
    assert a in History([one, two]) && b in History([one, two]);
    assert Unexplained(a.counts) && Reported(b.counts);
  }
}
