/** The lock, load, write-temporary, rename transaction of `StateStore` and
    `CheckCoordinator` (src/update/state.rs), as a transition system over any
    number of cooperating processes that may crash between any two steps. */
module StateStore {
  import opened Common

  /** The value being stored: its default, its validation, and one update,
      which may be refused. */
  datatype Machine<!C, !V> = Machine(initial: V, valid: V -> bool, record: (V, C) -> Option<V>)

  /** Entries of the state directory. Temporary names start with a dot, so they
      are neither the state name nor the lock name; they may be reused. */
  datatype Name = StateName | TempName(n: nat)

  /** A file holds a whole serialised state, or something that does not parse. */
  datatype Content<V> = Torn | Whole(value: V)

  datatype Phase<V> =
    | Opened                        // lock file open, lock not held
    | Locked                        // flock granted
    | Leased                        // lock entry verified
    | Loaded(value: V)
    | Recorded(value: V)            // recorded in memory, entry verified again
    | Created(value: V, temp: nat)  // temporary file exists, not complete
    | Written(value: V, temp: nat)  // complete and synced
    | Checked(value: V, temp: nat)  // lock entry verified just before commit
    | Renamed(temp: nat)
    | Cleaning(temp: nat)           // failed inside the save; unlink comes next
    | Failing                       // failed; the lease is dropped next
    | Done(ok: bool)
    | Crashed
  {
    /** The phases in which a process owns the lock. */
    predicate Holding() {
      !Opened? && !Done? && !Crashed?
    }

    predicate Ended() {
      Done? || Crashed?
    }

    predicate PastRename() {
      Renamed? || Cleaning? || Failing? || Ended()
    }
  }

  datatype Process<C, V> = Process(call: C, inode: nat, phase: Phase<V>)

  datatype Commit<C> = Commit(who: nat, call: C)

  datatype Store<C, V> = Store(
    files: map<Name, Content<V>>,
    lockEntry: Option<nat>,        // inode behind the lock name
    nextInode: nat,
    holder: map<nat, nat>,         // which process holds the lock of an inode
    processes: map<nat, Process<C, V>>,
    commits: seq<Commit<C>>)       // renames so far, in order

  function Initial<C, V>(): Store<C, V> {
    Store(map[], None, 0, map[], map[], [])
  }

  datatype Action<C> =
    | Open(call: C)
    | TryLock
    | VerifyLease
    | Load
    | RecordInMemory
    | Create(temp: nat)
    | Write
    | Recheck
    | Rename
    | SyncDirectory
    | Fail              // an I/O error, a timeout or a refused check
    | FailCreate(temp: nat)  // the temporary file cannot be created; its name is unlinked next
    | Unlink
    | Release
    | Crash

  predicate Enabled<C, V>(m: Machine<C, V>, s: Store<C, V>, p: nat, a: Action<C>) {
    if a.Open? then p !in s.processes
    else p in s.processes && !s.processes[p].phase.Ended() && Possible(m, s, s.processes[p], a)
  }

  /** What the step asks of the process that takes it and of the directory. */
  predicate Possible<C, V>(m: Machine<C, V>, s: Store<C, V>, q: Process<C, V>, a: Action<C>) {
    match a
    case Open(_) => false
    case TryLock => q.phase.Opened? && q.inode !in s.holder
    case VerifyLease => q.phase.Locked? && s.lockEntry == Some(q.inode)
    case Load => q.phase.Leased? && (StateName in s.files ==> s.files[StateName].Whole? && m.valid(s.files[StateName].value))
    case RecordInMemory => q.phase.Loaded? && s.lockEntry == Some(q.inode) && m.record(q.phase.value, q.call).Some?
    case Create(temp) => q.phase.Recorded? && TempName(temp) !in s.files
    case Write => q.phase.Created?
    case Recheck => q.phase.Written? && s.lockEntry == Some(q.inode)
    case Rename => q.phase.Checked? && TempName(q.phase.temp) in s.files
    case SyncDirectory => q.phase.Renamed?
    case Fail => !q.phase.Cleaning? && !q.phase.Failing?
    case FailCreate(_) => q.phase.Recorded?
    case Unlink => q.phase.Cleaning?
    case Release => q.phase.Failing?
    case Crash => true
  }

  function NextPhase<C, V>(m: Machine<C, V>, s: Store<C, V>, q: Process<C, V>, a: Action<C>): Phase<V>
    requires Possible(m, s, q, a)
  {
    match a
    case TryLock => Locked
    case VerifyLease => Leased
    case Load => Loaded(if StateName in s.files then s.files[StateName].value else m.initial)
    case RecordInMemory => Recorded(m.record(q.phase.value, q.call).value)
    case Create(temp) => Created(q.phase.value, temp)
    case Write => Written(q.phase.value, q.phase.temp)
    case Recheck => Checked(q.phase.value, q.phase.temp)
    case Rename => Renamed(q.phase.temp)
    case SyncDirectory => Done(true)
    case Fail =>
      if q.phase.Opened? then Done(false)
      else if q.phase.Created? || q.phase.Written? || q.phase.Checked? || q.phase.Renamed? then Cleaning(q.phase.temp)
      else Failing
    case FailCreate(temp) => Cleaning(temp)
    case Unlink => Failing
    case Release => Done(false)
    case Crash => Crashed
  }

  function NextFiles<C, V>(m: Machine<C, V>, s: Store<C, V>, q: Process<C, V>, a: Action<C>): map<Name, Content<V>>
    requires Possible(m, s, q, a)
  {
    match a
    case Create(temp) => s.files[TempName(temp) := Torn]
    case Write => s.files[TempName(q.phase.temp) := Whole(q.phase.value)]
    case Rename => s.files[StateName := s.files[TempName(q.phase.temp)]] - {TempName(q.phase.temp)}
    case Unlink => s.files - {TempName(q.phase.temp)}
    case _ => s.files
  }

  /** The lock is taken by `TryLock` and given up when the lease is dropped or the process dies. */
  function NextHolder<C, V>(s: Store<C, V>, p: nat, q: Process<C, V>, next: Phase<V>): map<nat, nat> {
    if next.Locked? then s.holder[q.inode := p]
    else if next.Ended() && q.phase.Holding() then s.holder - {q.inode}
    else s.holder
  }

  function Apply<C, V>(m: Machine<C, V>, s: Store<C, V>, p: nat, a: Action<C>): Store<C, V>
    requires Enabled(m, s, p, a)
  {
    if a.Open? then
      // The lock file is created when its name is free.
      var inode := if s.lockEntry.Some? then s.lockEntry.value else s.nextInode;
      s.(lockEntry := Some(inode), nextInode := if s.lockEntry.Some? then s.nextInode else s.nextInode + 1,
         processes := s.processes[p := Process(a.call, inode, Opened)])
    else
      var q := s.processes[p];
      var next := NextPhase(m, s, q, a);
      s.(files := NextFiles(m, s, q, a),
         holder := NextHolder(s, p, q, next),
         processes := s.processes[p := q.(phase := next)],
         commits := if a.Rename? then s.commits + [Commit(p, q.call)] else s.commits)
  }

  // ----- Runs -----

  datatype Event<C> = Event(process: nat, action: Action<C>)

  /** The store after a schedule, when every step of it is possible. */
  function After<C, V>(m: Machine<C, V>, schedule: seq<Event<C>>): Option<Store<C, V>> {
    if schedule == [] then Some(Initial())
    else
      var e := schedule[|schedule| - 1];
      match After(m, schedule[..|schedule| - 1])
      case None => None
      case Some(s) => if Enabled(m, s, e.process, e.action) then Some(Apply(m, s, e.process, e.action)) else None
  }

  /** The committed recordings, taken one after another. */
  function Value<C, V>(m: Machine<C, V>, commits: seq<Commit<C>>): Option<V> {
    if commits == [] then Some(m.initial)
    else
      match Value(m, commits[..|commits| - 1])
      case None => None
      case Some(v) => m.record(v, commits[|commits| - 1].call)
  }

  /** A machine whose updates only produce values that pass validation. */
  ghost predicate Sound<C(!new), V(!new)>(m: Machine<C, V>) {
    m.valid(m.initial) && forall v, c :: m.record(v, c).Some? ==> m.valid(m.record(v, c).value)
  }

  // ----- The invariant -----

  /** One inode behind the lock name; its holder is exactly the process inside. */
  ghost predicate LockInv<C, V>(s: Store<C, V>) {
    && (forall p :: p in s.processes ==> s.lockEntry == Some(s.processes[p].inode))
    && (forall p :: p in s.processes && s.processes[p].phase.Holding() ==>
          s.processes[p].inode in s.holder && s.holder[s.processes[p].inode] == p)
    && (forall i :: i in s.holder ==> HolderInside(s, i))
  }

  ghost predicate HolderInside<C, V>(s: Store<C, V>, i: nat)
    requires i in s.holder
  {
    s.holder[i] in s.processes && s.processes[s.holder[i]].inode == i && s.processes[s.holder[i]].phase.Holding()
  }

  /** The state name holds the serial result of all commits. */
  ghost predicate FileInv<C, V>(m: Machine<C, V>, s: Store<C, V>) {
    && Value(m, s.commits).Some?
    && m.valid(Value(m, s.commits).value)
    && (StateName in s.files <==> s.commits != [])
    && (StateName in s.files ==> s.files[StateName] == Whole(Value(m, s.commits).value))
  }

  /** What a process inside the lock knows about the files. */
  ghost predicate ProcessInv<C, V>(m: Machine<C, V>, s: Store<C, V>, q: Process<C, V>) {
    match q.phase
    case Loaded(v) => Value(m, s.commits) == Some(v)
    case Recorded(v) => Prepared(m, s, q.call, v)
    case Created(v, temp) => Prepared(m, s, q.call, v)
    case Written(v, temp) => Prepared(m, s, q.call, v) && Complete(s, temp, v)
    case Checked(v, temp) => Prepared(m, s, q.call, v) && Complete(s, temp, v)
    case _ => true
  }

  ghost predicate Prepared<C, V>(m: Machine<C, V>, s: Store<C, V>, call: C, v: V) {
    Value(m, s.commits).Some? && m.record(Value(m, s.commits).value, call) == Some(v)
  }

  ghost predicate Complete<C, V>(s: Store<C, V>, temp: nat, v: V) {
    TempName(temp) in s.files && s.files[TempName(temp)] == Whole(v)
  }

  ghost predicate CommittedBy<C>(commits: seq<Commit<C>>, p: nat) {
    exists i :: 0 <= i < |commits| && commits[i].who == p
  }

  /** A commit belongs to a process past its rename, and carries its call. */
  ghost predicate OwnCommit<C, V>(s: Store<C, V>, c: Commit<C>) {
    c.who in s.processes && c.call == s.processes[c.who].call && s.processes[c.who].phase.PastRename()
  }

  ghost predicate CommitInv<C, V>(s: Store<C, V>) {
    && (forall i, j :: 0 <= i < j < |s.commits| ==> s.commits[i].who != s.commits[j].who)
    && (forall i :: 0 <= i < |s.commits| ==> OwnCommit(s, s.commits[i]))
    && (forall p :: p in s.processes && MustHaveCommitted(s.processes[p].phase) ==> CommittedBy(s.commits, p))
  }

  predicate MustHaveCommitted<V>(phase: Phase<V>) {
    phase.Renamed? || (phase.Done? && phase.ok)
  }

  ghost predicate Inv<C, V>(m: Machine<C, V>, s: Store<C, V>) {
    && LockInv(s) && FileInv(m, s) && CommitInv(s)
    && forall p :: p in s.processes ==> ProcessInv(m, s, s.processes[p])
  }

  lemma LockStep<C, V>(m: Machine<C, V>, s: Store<C, V>, p: nat, a: Action<C>)
    requires LockInv(s) && Enabled(m, s, p, a)
    ensures LockInv(Apply(m, s, p, a))
  {
    var t := Apply(m, s, p, a);
    forall i | i in t.holder ensures HolderInside(t, i) {
      if i in s.holder { assert HolderInside(s, i); }
    }
  }

  lemma CommitStays<C, V>(m: Machine<C, V>, s: Store<C, V>, p: nat, a: Action<C>, c: Commit<C>)
    requires OwnCommit(s, c) && Enabled(m, s, p, a)
    ensures OwnCommit(Apply(m, s, p, a), c)
  {
  }

  lemma CommitStep<C, V>(m: Machine<C, V>, s: Store<C, V>, p: nat, a: Action<C>)
    requires CommitInv(s) && Enabled(m, s, p, a)
    ensures CommitInv(Apply(m, s, p, a))
  {
    var t := Apply(m, s, p, a);
    forall i | 0 <= i < |t.commits| ensures OwnCommit(t, t.commits[i]) {
      if i < |s.commits| { CommitStays(m, s, p, a, s.commits[i]); }
    }
    if a.Rename? {
      assert t.commits[|s.commits|].who == p;
    }
    forall q | CommittedBy(s.commits, q) ensures CommittedBy(t.commits, q) {
      var i :| 0 <= i < |s.commits| && s.commits[i].who == q;
      assert t.commits[i].who == q;
    }
  }

  lemma ValueAppend<C, V>(m: Machine<C, V>, commits: seq<Commit<C>>, c: Commit<C>)
    ensures Value(m, commits + [c]) ==
            match Value(m, commits) case None => None case Some(v) => m.record(v, c.call)
  {
  }

  /** Only a rename touches the state name. */
  lemma StateNameKept<C, V>(m: Machine<C, V>, s: Store<C, V>, p: nat, a: Action<C>)
    requires Enabled(m, s, p, a) && !a.Rename?
    ensures var t := Apply(m, s, p, a);
            && t.commits == s.commits && (StateName in t.files <==> StateName in s.files)
            && (StateName in s.files ==> t.files[StateName] == s.files[StateName])
  {
  }

  lemma RenameStep<C(!new), V(!new)>(m: Machine<C, V>, s: Store<C, V>, p: nat)
    requires Sound(m) && FileInv(m, s) && Enabled(m, s, p, Rename) && ProcessInv(m, s, s.processes[p])
    ensures FileInv(m, Apply(m, s, p, Rename))
  {
    var t, q := Apply(m, s, p, Rename), s.processes[p];
    assert Prepared(m, s, q.call, q.phase.value) && Complete(s, q.phase.temp, q.phase.value);
    assert t.commits == s.commits + [Commit(p, q.call)];
    assert t.files[StateName] == Whole(q.phase.value);
    ValueAppend(m, s.commits, Commit(p, q.call));
  }

  lemma FileStep<C(!new), V(!new)>(m: Machine<C, V>, s: Store<C, V>, p: nat, a: Action<C>)
    requires Sound(m) && FileInv(m, s) && Enabled(m, s, p, a)
    requires p in s.processes ==> ProcessInv(m, s, s.processes[p])
    ensures FileInv(m, Apply(m, s, p, a))
  {
    if a.Rename? {
      RenameStep(m, s, p);
    } else {
      StateNameKept(m, s, p, a);
    }
  }

  /** The process that moves. */
  lemma OwnStep<C, V>(m: Machine<C, V>, s: Store<C, V>, p: nat, a: Action<C>)
    requires FileInv(m, s) && Enabled(m, s, p, a)
    requires p in s.processes ==> ProcessInv(m, s, s.processes[p])
    ensures ProcessInv(m, Apply(m, s, p, a), Apply(m, s, p, a).processes[p])
  {
  }

  /** A process that does not move is not disturbed: only the holder of the lock
      touches files or commits. */
  lemma OtherStep<C, V>(m: Machine<C, V>, s: Store<C, V>, p: nat, a: Action<C>, q: nat)
    requires LockInv(s) && Enabled(m, s, p, a) && q in s.processes && q != p
    requires ProcessInv(m, s, s.processes[q])
    ensures ProcessInv(m, Apply(m, s, p, a), s.processes[q])
  {
  }

  lemma InvStep<C(!new), V(!new)>(m: Machine<C, V>, s: Store<C, V>, p: nat, a: Action<C>)
    requires Sound(m) && Inv(m, s) && Enabled(m, s, p, a)
    ensures Inv(m, Apply(m, s, p, a))
  {
    var t := Apply(m, s, p, a);
    LockStep(m, s, p, a);
    CommitStep(m, s, p, a);
    FileStep(m, s, p, a);
    OwnStep(m, s, p, a);
    forall q | q in t.processes ensures ProcessInv(m, t, t.processes[q]) {
      if q != p { OtherStep(m, s, p, a, q); }
    }
  }

  /** The invariant holds after every schedule. */
  lemma {:induction false} InvAlways<C(!new), V(!new)>(m: Machine<C, V>, schedule: seq<Event<C>>)
    requires Sound(m) && After(m, schedule).Some?
    ensures Inv(m, After(m, schedule).value)
  {
    if schedule != [] {
      var front, e := schedule[..|schedule| - 1], schedule[|schedule| - 1];
      InvAlways(m, front);
      InvStep(m, After(m, front).value, e.process, e.action);
    }
  }

  // ----- The main results -----

  /** Whatever the interleaving and the crashes, the state name either does not
      exist yet or holds one complete valid state: the serial result of the commits. */
  lemma StateNameAlwaysWhole<C(!new), V(!new)>(m: Machine<C, V>, schedule: seq<Event<C>>)
    requires Sound(m) && After(m, schedule).Some?
    ensures var s := After(m, schedule).value;
            && Value(m, s.commits).Some? && m.valid(Value(m, s.commits).value)
            && (StateName in s.files <==> s.commits != [])
            && (StateName in s.files ==> s.files[StateName] == Whole(Value(m, s.commits).value))
  {
    InvAlways(m, schedule);
  }

  /** On every schedule at most one process is inside the lock. */
  lemma MutualExclusion<C(!new), V(!new)>(m: Machine<C, V>, schedule: seq<Event<C>>, p: nat, q: nat)
    requires Sound(m) && After(m, schedule).Some?
    ensures var s := After(m, schedule).value;
            p in s.processes && q in s.processes && s.processes[p].phase.Holding() && s.processes[q].phase.Holding() ==> p == q
  {
    InvAlways(m, schedule);
  }

  /** Each commit is one update applied to the value committed just before it. */
  lemma CommitsAreSerial<C(!new), V(!new)>(m: Machine<C, V>, schedule: seq<Event<C>>, n: nat)
    requires Sound(m) && After(m, schedule).Some?
    requires n < |After(m, schedule).value.commits|
    ensures var commits := After(m, schedule).value.commits;
            && Value(m, commits[..n]).Some? && Value(m, commits[..n + 1]).Some?
            && m.record(Value(m, commits[..n]).value, commits[n].call) == Value(m, commits[..n + 1])
  {
    InvAlways(m, schedule);
    var commits := After(m, schedule).value.commits;
    PrefixHasValue(m, commits, n + 1);
    assert commits[..n + 1][..n] == commits[..n];
  }

  lemma {:induction false} PrefixHasValue<C, V>(m: Machine<C, V>, commits: seq<Commit<C>>, n: nat)
    requires Value(m, commits).Some? && n <= |commits|
    ensures Value(m, commits[..n]).Some?
    decreases |commits|
  {
    if n < |commits| {
      PrefixHasValue(m, commits[..|commits| - 1], n);
      assert commits[..|commits| - 1][..n] == commits[..n];
    } else {
      assert commits[..n] == commits;
    }
  }

  /** A later schedule only adds commits behind the ones already made. */
  lemma {:induction false} CommitsOnlyGrow<C, V>(m: Machine<C, V>, schedule: seq<Event<C>>, later: seq<Event<C>>)
    requires After(m, schedule + later).Some?
    ensures After(m, schedule).Some?
    ensures After(m, schedule).value.commits <= After(m, schedule + later).value.commits
  {
    if later == [] {
      assert schedule + later == schedule;
    } else {
      assert (schedule + later)[..|schedule + later| - 1] == schedule + later[..|later| - 1];
      CommitsOnlyGrow(m, schedule, later[..|later| - 1]);
    }
  }

  /** No update is lost: once a process has reported success, its update occurs
      exactly once in the serial history, now and after any later schedule. */
  lemma NoUpdateLost<C(!new), V(!new)>(m: Machine<C, V>, schedule: seq<Event<C>>, later: seq<Event<C>>, p: nat)
    returns (i: nat)
    requires Sound(m) && After(m, schedule).Some? && After(m, schedule + later).Some?
    requires p in After(m, schedule).value.processes && After(m, schedule).value.processes[p].phase == Done(true)
    ensures var commits := After(m, schedule + later).value.commits;
            && i < |commits| && commits[i] == Commit(p, After(m, schedule).value.processes[p].call)
            && forall j :: 0 <= j < |commits| && commits[j].who == p ==> j == i
  {
    InvAlways(m, schedule);
    InvAlways(m, schedule + later);
    CommitsOnlyGrow(m, schedule, later);
    var s, t := After(m, schedule).value, After(m, schedule + later).value;
    i :| 0 <= i < |s.commits| && s.commits[i].who == p;
    assert OwnCommit(s, s.commits[i]);
    assert t.commits[i] == s.commits[i];
  }

  /** The process failed when only the directory sync was left. */
  ghost predicate FailedAfterRename<C, V>(m: Machine<C, V>, schedule: seq<Event<C>>, p: nat) {
    schedule != [] &&
    var front, e := schedule[..|schedule| - 1], schedule[|schedule| - 1];
    FailedAfterRename(m, front, p) || (e.process == p && e.action.Fail? && AtRenamed(After(m, front), p))
  }

  predicate AtRenamed<C, V>(s: Option<Store<C, V>>, p: nat) {
    s.Some? && p in s.value.processes && s.value.processes[p].phase.Renamed?
  }

  predicate FailedPhase<V>(phase: Phase<V>) {
    phase.Cleaning? || phase.Failing? || phase == Done(false)
  }

  lemma {:induction false} FailureHistory<C(!new), V(!new)>(m: Machine<C, V>, schedule: seq<Event<C>>, p: nat)
    requires Sound(m) && After(m, schedule).Some?
    ensures var s := After(m, schedule).value;
            && (FailedAfterRename(m, schedule, p) ==>
                  p in s.processes && (FailedPhase(s.processes[p].phase) || s.processes[p].phase.Crashed?))
            && (p in s.processes && FailedPhase(s.processes[p].phase) ==>
                  (CommittedBy(s.commits, p) <==> FailedAfterRename(m, schedule, p)))
  {
    if schedule != [] {
      var front, e := schedule[..|schedule| - 1], schedule[|schedule| - 1];
      FailureHistory(m, front, p);
      InvAlways(m, front);
      FailureStep(m, After(m, front).value, e.process, e.action, p);
    }
  }

  /** How one step changes whether `p` has committed, and its phase. */
  lemma FailureStep<C, V>(m: Machine<C, V>, s: Store<C, V>, q: nat, a: Action<C>, p: nat)
    requires CommitInv(s) && Enabled(m, s, q, a)
    ensures var t := Apply(m, s, q, a);
            && (p != q ==> (p in t.processes <==> p in s.processes) && (p in s.processes ==> t.processes[p] == s.processes[p]))
            && (CommittedBy(t.commits, p) <==> CommittedBy(s.commits, p) || (p == q && a.Rename?))
            && (p == q && (a.Fail? || a.FailCreate?) ==> (CommittedBy(s.commits, p) <==> s.processes[p].phase.Renamed?))
            && (p == q && p in s.processes && FailedPhase(t.processes[p].phase) && !a.Fail? && !a.FailCreate? ==>
                  FailedPhase(s.processes[p].phase))
  {
    var t := Apply(m, s, q, a);
    if CommittedBy(s.commits, p) {
      var i :| 0 <= i < |s.commits| && s.commits[i].who == p;
      assert t.commits[i].who == p && OwnCommit(s, s.commits[i]);
    }
    if a.Rename? {
      assert t.commits[|s.commits|].who == q;
    }
  }

  /** A reported error means that the update was not committed, except when the
      failure was that of the final directory sync: then it stands. */
  lemma ErrorMeansNotCommitted<C(!new), V(!new)>(m: Machine<C, V>, schedule: seq<Event<C>>, p: nat)
    requires Sound(m) && After(m, schedule).Some?
    requires p in After(m, schedule).value.processes && After(m, schedule).value.processes[p].phase == Done(false)
    ensures CommittedBy(After(m, schedule).value.commits, p) <==> FailedAfterRename(m, schedule, p)
  {
    FailureHistory(m, schedule, p);
  }

  /** A crash never blocks the others: with nobody inside, every waiting process can lock. */
  lemma LockFreeWhenNobodyInside<C(!new), V(!new)>(m: Machine<C, V>, schedule: seq<Event<C>>, p: nat)
    requires Sound(m) && After(m, schedule).Some?
    requires var s := After(m, schedule).value;
             && p in s.processes && s.processes[p].phase.Opened?
             && forall q :: q in s.processes ==> !s.processes[q].phase.Holding()
    ensures Enabled(m, After(m, schedule).value, p, TryLock)
  {
    InvAlways(m, schedule);
    var s := After(m, schedule).value;
    var i := s.processes[p].inode;
    assert i in s.holder ==> HolderInside(s, i);
  }

  /** The exception is real: from every run, each process that has renamed may
      still fail its directory sync and report an error for a standing commit. */
  lemma CommitMayStillReportError<C(!new), V(!new)>(m: Machine<C, V>, schedule: seq<Event<C>>, p: nat)
    returns (tail: seq<Event<C>>)
    requires Sound(m) && After(m, schedule).Some? && AtRenamed(After(m, schedule), p)
    ensures After(m, schedule + tail).Some?
    ensures var t := After(m, schedule + tail).value;
            && p in t.processes && t.processes[p].phase == Done(false) && CommittedBy(t.commits, p)
            && t.commits == After(m, schedule).value.commits
  {
    InvAlways(m, schedule);
    tail := [Event(p, Fail), Event(p, Unlink), Event(p, Release)];
    Extend(m, schedule, p, Fail);
    Extend(m, schedule + [Event(p, Fail)], p, Unlink);
    Extend(m, schedule + [Event(p, Fail)] + [Event(p, Unlink)], p, Release);
    assert schedule + [Event(p, Fail)] + [Event(p, Unlink)] + [Event(p, Release)] == schedule + tail;
  }

  /** Every process was opened with the call it carries. */
  lemma {:induction false} CallsAreOpened<C(!new), V(!new)>(m: Machine<C, V>, schedule: seq<Event<C>>, p: nat) returns (i: nat)
    requires After(m, schedule).Some? && p in After(m, schedule).value.processes
    ensures i < |schedule| && schedule[i] == Event(p, Open(After(m, schedule).value.processes[p].call))
  {
    var front, e := schedule[..|schedule| - 1], schedule[|schedule| - 1];
    var s := After(m, front).value;
    if e.process == p && e.action.Open? {
      i := |schedule| - 1;
    } else {
      i := CallsAreOpened(m, front, p);
    }
  }

  // ----- An update can always still succeed -----

  /** How far a process has come that will succeed. */
  function Progress<V>(phase: Phase<V>): int {
    match phase
    case Opened => 0
    case Locked => 1
    case Leased => 2
    case Loaded(_) => 3
    case Recorded(_) => 4
    case Created(_, _) => 5
    case Written(_, _) => 6
    case Checked(_, _) => 7
    case Renamed(_) => 8
    case Done(ok) => if ok then 9 else -1
    case _ => -1
  }

  /** After `t` process `p` is `k` steps into its update; `base` are the commits before it. */
  ghost predicate Underway<C, V>(m: Machine<C, V>, t: seq<Event<C>>, p: nat, c: C, base: seq<Commit<C>>, k: nat) {
    After(m, t).Some? &&
    var s := After(m, t).value;
    && p in s.processes && s.processes[p].call == c && Progress(s.processes[p].phase) == k
    && s.commits == (if k >= 8 then base + [Commit(p, c)] else base)
    && (k == 0 ==> s.processes[p].inode !in s.holder)
  }

  lemma {:induction false} Unused(files: set<Name>) returns (n: nat)
    ensures forall k: nat :: k >= n ==> TempName(k) !in files
  {
    if files == {} {
      n := 0;
    } else {
      var x :| x in files;
      var k := Unused(files - {x});
      n := if x.TempName? && x.n >= k then x.n + 1 else k;
    }
  }

  /** The step that takes a process on. */
  function NextAction<C, V>(phase: Phase<V>, temp: nat): Action<C> {
    match phase
    case Opened => TryLock
    case Locked => VerifyLease
    case Leased => Load
    case Loaded(_) => RecordInMemory
    case Recorded(_) => Create(temp)
    case Created(_, _) => Write
    case Written(_, _) => Recheck
    case Checked(_, _) => Rename
    case _ => SyncDirectory
  }

  lemma NextIsPossible<C(!new), V(!new)>(m: Machine<C, V>, s: Store<C, V>, p: nat, temp: nat)
    requires Inv(m, s) && p in s.processes && 0 <= Progress(s.processes[p].phase) < 9
    requires s.processes[p].phase.Opened? ==> s.processes[p].inode !in s.holder
    requires m.record(Value(m, s.commits).value, s.processes[p].call).Some? && TempName(temp) !in s.files
    ensures Enabled(m, s, p, NextAction(s.processes[p].phase, temp))
  {
    assert ProcessInv(m, s, s.processes[p]);
  }

  lemma NextAdvances<C(!new), V(!new)>(m: Machine<C, V>, s: Store<C, V>, p: nat, temp: nat)
    requires p in s.processes && 0 <= Progress(s.processes[p].phase) < 9
    requires Enabled(m, s, p, NextAction(s.processes[p].phase, temp))
    ensures var q, t := s.processes[p], Apply(m, s, p, NextAction(s.processes[p].phase, temp));
      && p in t.processes && t.processes[p].call == q.call
      && Progress(t.processes[p].phase) == Progress(q.phase) + 1
      && t.commits == (if q.phase.Checked? then s.commits + [Commit(p, q.call)] else s.commits)
  {
  }

  lemma Advance<C(!new), V(!new)>(m: Machine<C, V>, t: seq<Event<C>>, p: nat, c: C, base: seq<Commit<C>>, k: nat)
    returns (e: Event<C>)
    requires Sound(m) && Underway(m, t, p, c, base, k) && k < 9
    requires k < 8 ==> Value(m, base).Some? && m.record(Value(m, base).value, c).Some?
    ensures Underway(m, t + [e], p, c, base, k + 1)
  {
    InvAlways(m, t);
    var s := After(m, t).value;
    if k == 8 {
      e := Event(p, SyncDirectory);
      Extend(m, t, p, SyncDirectory);
    } else {
      var temp := Unused(s.files.Keys);
      var a := NextAction(s.processes[p].phase, temp);
      NextIsPossible(m, s, p, temp);
      NextAdvances(m, s, p, temp);
      e := Event(p, a);
      Extend(m, t, p, a);
    }
  }

  lemma {:induction false} RunTo<C(!new), V(!new)>(m: Machine<C, V>, t: seq<Event<C>>, p: nat, c: C, base: seq<Commit<C>>,
                                                   k: nat, goal: nat) returns (tail: seq<Event<C>>)
    requires Sound(m) && Underway(m, t, p, c, base, k) && k <= goal <= 9
    requires k < 8 ==> Value(m, base).Some? && m.record(Value(m, base).value, c).Some?
    ensures Underway(m, t + tail, p, c, base, goal)
    decreases goal - k
  {
    tail := [];
    if k == goal {
      assert t + tail == t;
    } else {
      var e := Advance(m, t, p, c, base, k);
      var rest := RunTo(m, t + [e], p, c, base, k + 1, goal);
      tail := [e] + rest;
      assert t + tail == t + [e] + rest;
    }
  }

  ghost predicate NobodyInside<C, V>(s: Store<C, V>) {
    forall q :: q in s.processes ==> !s.processes[q].phase.Holding()
  }

  lemma OpenFresh<C(!new), V(!new)>(m: Machine<C, V>, t: seq<Event<C>>, p: nat, c: C)
    requires Sound(m) && After(m, t).Some? && p !in After(m, t).value.processes && NobodyInside(After(m, t).value)
    ensures Underway(m, t + [Event(p, Open(c))], p, c, After(m, t).value.commits, 0)
  {
    Extend(m, t, p, Open(c));
    var s, u := After(m, t).value, After(m, t + [Event(p, Open(c))]).value;
    assert NobodyInside(u);
    assert u.processes[p].phase.Opened?;
    LockFreeWhenNobodyInside(m, t + [Event(p, Open(c))], p);
  }

  /** The process ends in this phase, with these commits in the store. */
  ghost predicate EndsIn<C, V>(m: Machine<C, V>, t: seq<Event<C>>, p: nat, phase: Phase<V>, commits: seq<Commit<C>>) {
    After(m, t).Some? &&
    var s := After(m, t).value;
    p in s.processes && s.processes[p].phase == phase && s.commits == commits
  }

  /** Nobody is inside, `p` is new, and the current value admits `c`. */
  ghost predicate Ready<C, V>(m: Machine<C, V>, s: Store<C, V>, p: nat, c: C) {
    p !in s.processes && NobodyInside(s) && Value(m, s.commits).Some? && m.record(Value(m, s.commits).value, c).Some?
  }

  lemma RunFromReady<C(!new), V(!new)>(m: Machine<C, V>, schedule: seq<Event<C>>, p: nat, c: C, goal: nat)
    returns (tail: seq<Event<C>>)
    requires Sound(m) && After(m, schedule).Some? && Ready(m, After(m, schedule).value, p, c) && goal <= 9
    ensures Underway(m, schedule + tail, p, c, After(m, schedule).value.commits, goal)
  {
    var open := Event(p, Open(c));
    OpenFresh(m, schedule, p, c);
    var rest := RunTo(m, schedule + [open], p, c, After(m, schedule).value.commits, 0, goal);
    tail := [open] + rest;
    assert schedule + tail == schedule + [open] + rest;
  }

  /** From every reachable store with nobody inside the lock, every new process
      can still record every update that the current value admits: it ends with
      success, and its update is the one new commit. */
  lemma UpdateCanSucceed<C(!new), V(!new)>(m: Machine<C, V>, schedule: seq<Event<C>>, p: nat, c: C)
    returns (tail: seq<Event<C>>)
    requires Sound(m) && After(m, schedule).Some? && Ready(m, After(m, schedule).value, p, c)
    ensures EndsIn(m, schedule + tail, p, Done(true), After(m, schedule).value.commits + [Commit(p, c)])
  {
    tail := RunFromReady(m, schedule, p, c, 9);
  }

  lemma SyncFails<C(!new), V(!new)>(m: Machine<C, V>, t: seq<Event<C>>, p: nat, c: C, base: seq<Commit<C>>)
    returns (tail: seq<Event<C>>)
    requires Sound(m) && Underway(m, t, p, c, base, 8)
    ensures EndsIn(m, t + tail, p, Done(false), base + [Commit(p, c)])
  {
    tail := CommitMayStillReportError(m, t, p);
  }

  /** From every such store, the same update can also be committed while its
      process reports an error. */
  lemma CommittedYetReported<C(!new), V(!new)>(m: Machine<C, V>, schedule: seq<Event<C>>, p: nat, c: C)
    returns (tail: seq<Event<C>>)
    requires Sound(m) && After(m, schedule).Some? && Ready(m, After(m, schedule).value, p, c)
    ensures EndsIn(m, schedule + tail, p, Done(false), After(m, schedule).value.commits + [Commit(p, c)])
  {
    var front := RunFromReady(m, schedule, p, c, 8);
    var rest := SyncFails(m, schedule + front, p, c, After(m, schedule).value.commits);
    tail := front + rest;
    assert schedule + tail == schedule + front + rest;
  }

  /** The steps by which a process inside the lock gives up. */
  function GiveUp<V>(phase: Phase<V>): int {
    if phase.Failing? then 1 else if phase.Cleaning? then 2 else if phase.Holding() then 3 else 0
  }

  /** Only `p` may be inside, with `k` steps to go, and nothing new is committed. */
  ghost predicate Leaving<C, V>(m: Machine<C, V>, t: seq<Event<C>>, p: nat, before: Store<C, V>, k: nat) {
    After(m, t).Some? &&
    var s := After(m, t).value;
    && p in s.processes && GiveUp(s.processes[p].phase) <= k
    && s.commits == before.commits && s.processes.Keys == before.processes.Keys
    && forall q :: q in s.processes && q != p ==> !s.processes[q].phase.Holding()
  }

  lemma LeaveStep<C(!new), V(!new)>(m: Machine<C, V>, t: seq<Event<C>>, p: nat, before: Store<C, V>, k: nat)
    returns (tail: seq<Event<C>>)
    requires Leaving(m, t, p, before, k) && k > 0
    ensures Leaving(m, t + tail, p, before, k - 1)
  {
    var phase := After(m, t).value.processes[p].phase;
    if GiveUp(phase) < k {
      tail := [];
      assert t + tail == t;
    } else {
      var a := if phase.Failing? then Release else if phase.Cleaning? then Unlink else Fail;
      tail := [Event(p, a)];
      Extend(m, t, p, a);
    }
  }

  lemma {:induction false} LeaveAll<C(!new), V(!new)>(m: Machine<C, V>, t: seq<Event<C>>, p: nat, before: Store<C, V>, k: nat)
    returns (tail: seq<Event<C>>)
    requires Leaving(m, t, p, before, k)
    ensures Leaving(m, t + tail, p, before, 0)
    decreases k
  {
    tail := [];
    if k == 0 {
      assert t + tail == t;
    } else {
      var one := LeaveStep(m, t, p, before, k);
      var rest := LeaveAll(m, t + one, p, before, k - 1);
      tail := one + rest;
      assert t + tail == t + one + rest;
    }
  }

  /** Whoever is inside can give up and leave everything committed as it is. */
  lemma HolderCanLeave<C(!new), V(!new)>(m: Machine<C, V>, schedule: seq<Event<C>>) returns (tail: seq<Event<C>>)
    requires Sound(m) && After(m, schedule).Some?
    ensures After(m, schedule + tail).Some?
    ensures var s, t := After(m, schedule).value, After(m, schedule + tail).value;
            NobodyInside(t) && t.commits == s.commits && t.processes.Keys == s.processes.Keys
  {
    var s := After(m, schedule).value;
    if p :| p in s.processes && s.processes[p].phase.Holding() {
      forall q | q in s.processes && q != p ensures !s.processes[q].phase.Holding() {
        MutualExclusion(m, schedule, p, q);
      }
      tail := LeaveAll(m, schedule, p, s, 3);
    } else {
      tail := [];
      assert schedule + tail == schedule;
    }
  }

  /** From every reachable store whatever, whoever is inside and whatever has
      crashed: an admitted update can still be recorded with success. */
  lemma NeverStuck<C(!new), V(!new)>(m: Machine<C, V>, schedule: seq<Event<C>>, p: nat, c: C) returns (tail: seq<Event<C>>)
    requires Sound(m) && After(m, schedule).Some? && p !in After(m, schedule).value.processes
    requires var v := Value(m, After(m, schedule).value.commits); v.Some? && m.record(v.value, c).Some?
    ensures EndsIn(m, schedule + tail, p, Done(true), After(m, schedule).value.commits + [Commit(p, c)])
  {
    var front := HolderCanLeave(m, schedule);
    var rest := UpdateCanSucceed(m, schedule + front, p, c);
    tail := front + rest;
    assert schedule + tail == schedule + front + rest;
  }

  /** A process may crash between any two steps. That changes no file and no
      commit, and if it was inside the lock then nobody is any more. */
  lemma CrashIsHarmless<C(!new), V(!new)>(m: Machine<C, V>, schedule: seq<Event<C>>, p: nat)
    requires Sound(m) && After(m, schedule).Some?
    requires var s := After(m, schedule).value; p in s.processes && !s.processes[p].phase.Ended()
    ensures After(m, schedule + [Event(p, Crash)]).Some?
    ensures var s, t := After(m, schedule).value, After(m, schedule + [Event(p, Crash)]).value;
            && t.files == s.files && t.commits == s.commits && t.processes[p].phase.Crashed?
            && (s.processes[p].phase.Holding() ==> NobodyInside(t))
  {
    Extend(m, schedule, p, Crash);
    var s := After(m, schedule).value;
    if s.processes[p].phase.Holding() {
      forall q | q in s.processes && q != p ensures !s.processes[q].phase.Holding() {
        MutualExclusion(m, schedule, p, q);
      }
    }
  }

  // ----- Temporary files -----

  /** The process may have a temporary file of this name. */
  predicate MayOwn<V>(phase: Phase<V>, n: nat) {
    (phase.Created? || phase.Written? || phase.Checked? || phase.Cleaning?) && phase.temp == n
  }

  ghost predicate Owned<C, V>(s: Store<C, V>, n: nat) {
    exists p :: p in s.processes && MayOwn(s.processes[p].phase, n)
  }

  lemma OwnedStep<C, V>(m: Machine<C, V>, s: Store<C, V>, p: nat, a: Action<C>, n: nat)
    requires Enabled(m, s, p, a) && !a.Crash?
    requires TempName(n) in s.files ==> Owned(s, n)
    ensures TempName(n) in Apply(m, s, p, a).files ==> Owned(Apply(m, s, p, a), n)
  {
    var t := Apply(m, s, p, a);
    if TempName(n) in t.files {
      if TempName(n) in s.files {
        var q :| q in s.processes && MayOwn(s.processes[q].phase, n);
        assert q in t.processes && MayOwn(t.processes[q].phase, n);
      } else {
        assert p in t.processes && MayOwn(t.processes[p].phase, n);
      }
    }
  }

  /** Only a crash leaves a temporary file behind: without one, each belongs to
      a process that is still at work on it. */
  lemma {:induction false} NoLitter<C(!new), V(!new)>(m: Machine<C, V>, schedule: seq<Event<C>>, n: nat)
    requires After(m, schedule).Some?
    requires forall i :: 0 <= i < |schedule| ==> !schedule[i].action.Crash?
    ensures TempName(n) in After(m, schedule).value.files ==> Owned(After(m, schedule).value, n)
  {
    if schedule != [] {
      var front, e := schedule[..|schedule| - 1], schedule[|schedule| - 1];
      NoLitter(m, front, n);
      OwnedStep(m, After(m, front).value, e.process, e.action, n);
    }
  }

  /** When the temporary file cannot be created, whatever has its name is removed
      before the process reports the error. */
  lemma FailedCreationCleans<C(!new), V(!new)>(m: Machine<C, V>, schedule: seq<Event<C>>, p: nat, temp: nat)
    requires After(m, schedule + [Event(p, FailCreate(temp))]).Some?
    ensures var t := schedule + [Event(p, FailCreate(temp)), Event(p, Unlink)];
            After(m, t).Some? && TempName(temp) !in After(m, t).value.files
  {
    var one := schedule + [Event(p, FailCreate(temp))];
    assert one[..|one| - 1] == schedule;
    Extend(m, one, p, Unlink);
    assert one + [Event(p, Unlink)] == schedule + [Event(p, FailCreate(temp)), Event(p, Unlink)];
  }

  lemma Extend<C, V>(m: Machine<C, V>, t: seq<Event<C>>, p: nat, a: Action<C>)
    requires After(m, t).Some? && Enabled(m, After(m, t).value, p, a)
    ensures After(m, t + [Event(p, a)]) == Some(Apply(m, After(m, t).value, p, a))
  {
  }
}
