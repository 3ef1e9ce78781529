// The walk from a peer process up its parents (src/process/linux.rs), which
// decides whether the peer belongs to the Codex process being guarded.
module Ancestry {
  import opened Common

  const MAX_ANCESTRY_DEPTH: nat := 32

  datatype Identity = Identity(pid: nat, startTime: nat, effectiveUid: nat)

  datatype Record = Record(identity: Identity, parentPid: nat)

  /** A process that is gone or unreadable, or whose files do not parse. */
  datatype ReadError = Missing | Garbled

  datatype Error = Unavailable | Malformed | DepthExceeded | Loop | NotDescendant | Changed

  function AsError(e: ReadError): Error {
    match e case Missing => Unavailable case Garbled => Malformed
  }

  /** What reading each process returns. */
  type Table = nat -> Result<Record, ReadError>

  // ----- Following parents ----------------------------------------------

  /** The record of `pid`, when it can be read and is about `pid`. */
  function Look(table: Table, pid: nat): (r: Option<Record>)
    ensures r.Some? ==> pid != 0 && table(pid) == Ok(r.value) && r.value.identity.pid == pid
  {
    if pid == 0 then None
    else match table(pid)
      case Err(_) => None
      case Ok(record) => if record.identity.pid == pid then Some(record) else None
  }

  /** The record `n` parents above the peer, with no limit on `n`. */
  function Ancestor(table: Table, peer: nat, n: nat): Option<Record> {
    if n == 0 then Look(table, peer)
    else match Ancestor(table, peer, n - 1)
      case None => None
      case Some(child) => Look(table, child.parentPid)
  }

  /** The pid to read after `n` records. */
  function PidAfter(table: Table, peer: nat, n: nat): nat
    requires n > 0 ==> Ancestor(table, peer, n - 1).Some?
  {
    if n == 0 then peer else Ancestor(table, peer, n - 1).value.parentPid
  }

  ghost predicate IsAncestor(table: Table, peer: nat, n: nat, pid: nat) {
    Ancestor(table, peer, n).Some? && Ancestor(table, peer, n).value.identity.pid == pid
  }

  /** The expected process is at most 31 parents above the peer. */
  ghost predicate Descends(table: Table, peer: nat, expected: Identity) {
    exists n: nat :: n < 32 && Meets(table, peer, n, expected)
  }

  ghost predicate Meets(table: Table, peer: nat, n: nat, expected: Identity) {
    Ancestor(table, peer, n).Some? && Ancestor(table, peer, n).value.identity == expected
  }

  // ----- How a walk ends ------------------------------------------------

  /** The first `k` ancestors exist, are different processes and are not `pid`. */
  ghost predicate Walked(table: Table, peer: nat, pid: nat, k: nat) {
    && (forall i: nat :: i < k ==> Ancestor(table, peer, i).Some? && !IsAncestor(table, peer, i, pid))
    && (forall i: nat, j: nat :: i < j < k ==>
          !IsAncestor(table, peer, i, Ancestor(table, peer, j).value.identity.pid))
  }

  ghost predicate Seen(table: Table, peer: nat, k: nat, pid: nat) {
    exists i: nat :: i < k && IsAncestor(table, peer, i, pid)
  }

  /** The walk ends with `r` after `k` records that decided nothing. */
  ghost predicate EndsAt(table: Table, peer: nat, pid: nat, k: nat, r: Result<seq<Record>, Error>) {
    && k <= MAX_ANCESTRY_DEPTH
    && Walked(table, peer, pid, k)
    && var next := PidAfter(table, peer, k);
      if next == 0 then r == Err(NotDescendant)
      else if k == MAX_ANCESTRY_DEPTH then r == Err(DepthExceeded)
      else if Seen(table, peer, k, next) then r == Err(Loop)
      else match table(next)
        case Err(Missing) => r == Err(Unavailable)
        case Err(Garbled) => r == Err(Malformed)
        case Ok(record) =>
          if record.identity.pid != next then r == Err(Malformed)
          else
            && next == pid && r.Ok?
            && |r.value| == k + 1
            && forall i: nat :: i <= k ==> Ancestor(table, peer, i) == Some(r.value[i])
  }

  lemma WalkEndsOnce(table: Table, peer: nat, pid: nat, k: nat, m: nat,
                     r: Result<seq<Record>, Error>, s: Result<seq<Record>, Error>)
    requires EndsAt(table, peer, pid, k, r) && EndsAt(table, peer, pid, m, s)
    ensures k == m && r == s
  {
    if k < m {
      StopsHere(table, peer, pid, k, r, m);
    } else if m < k {
      StopsHere(table, peer, pid, m, s, k);
    } else if r.Ok? && s.Ok? {
      forall i | 0 <= i <= k ensures r.value[i] == s.value[i] {
        assert Ancestor(table, peer, i) == Some(r.value[i]);
        assert Ancestor(table, peer, i) == Some(s.value[i]);
      }
      assert r.value == s.value;
    }
  }

  /** Where a walk ends, no longer one goes on. */
  lemma StopsHere(table: Table, peer: nat, pid: nat, k: nat, r: Result<seq<Record>, Error>, m: nat)
    requires EndsAt(table, peer, pid, k, r) && k < MAX_ANCESTRY_DEPTH
    requires k < m
    ensures !Walked(table, peer, pid, m)
  {
    var next := PidAfter(table, peer, k);
    assert Ancestor(table, peer, k) == Look(table, next);
    assert Walked(table, peer, pid, m) ==> Ancestor(table, peer, k).Some?;
  }

  /** `records` are the first ancestors of the peer. */
  ghost predicate Recorded(table: Table, peer: nat, records: seq<Record>) {
    forall i: nat :: i < |records| ==> Ancestor(table, peer, i) == Some(records[i])
  }

  predicate Holds(records: seq<Record>, pid: nat) {
    exists i :: 0 <= i < |records| && records[i].identity.pid == pid
  }

  lemma SeenInRecords(table: Table, peer: nat, records: seq<Record>, pid: nat)
    requires Recorded(table, peer, records)
    ensures Seen(table, peer, |records|, pid) <==> Holds(records, pid)
  {
    if Holds(records, pid) {
      var i: nat :| i < |records| && records[i].identity.pid == pid;
      assert Ancestor(table, peer, i) == Some(records[i]);
      assert IsAncestor(table, peer, i, pid);
    }
    if Seen(table, peer, |records|, pid) {
      var i: nat :| i < |records| && IsAncestor(table, peer, i, pid);
      assert Ancestor(table, peer, i) == Some(records[i]);
    }
  }

  lemma WalkOn(table: Table, peer: nat, pid: nat, k: nat)
    requires Walked(table, peer, pid, k)
    requires Ancestor(table, peer, k).Some? && !IsAncestor(table, peer, k, pid)
    requires !Seen(table, peer, k, Ancestor(table, peer, k).value.identity.pid)
    ensures Walked(table, peer, pid, k + 1)
  {
  }

  method CollectAncestry(table: Table, peer: nat, expectedPid: nat)
    returns (r: Result<seq<Record>, Error>)
    ensures exists k: nat :: EndsAt(table, peer, expectedPid, k, r)
  {
    var records: seq<Record> := [];
    var current := peer;
    ghost var k: nat := 0;
    while |records| < MAX_ANCESTRY_DEPTH
      invariant k == |records| <= MAX_ANCESTRY_DEPTH
      invariant Recorded(table, peer, records)
      invariant Walked(table, peer, expectedPid, k)
      invariant current == PidAfter(table, peer, k)
      invariant k > 0 ==> current != 0
    {
      SeenInRecords(table, peer, records, current);
      if current == 0 || Holds(records, current) {
        r := Err(if current == 0 then NotDescendant else Loop);
        assert EndsAt(table, peer, expectedPid, k, r);
        return;
      }
      assert Ancestor(table, peer, k) == Look(table, current);
      var read := table(current);
      if read.Err? {
        r := Err(AsError(read.error));
        assert EndsAt(table, peer, expectedPid, k, r);
        return;
      }
      var record := read.value;
      if record.identity.pid != current {
        r := Err(Malformed);
        assert EndsAt(table, peer, expectedPid, k, r);
        return;
      }
      records := records + [record];
      if record.identity.pid == expectedPid {
        r := Ok(records);
        assert EndsAt(table, peer, expectedPid, k, r);
        return;
      }
      WalkOn(table, peer, expectedPid, k);
      k := k + 1;
      if record.parentPid == 0 {
        r := Err(NotDescendant);
        assert EndsAt(table, peer, expectedPid, k, r);
        return;
      }
      current := record.parentPid;
    }
    r := Err(DepthExceeded);
    assert EndsAt(table, peer, expectedPid, k, r);
  }

  // ----- What the outcomes mean -----------------------------------------

  /** A walk that comes back to a process it has seen goes round for ever. */
  lemma {:induction false} LoopRepeats(table: Table, peer: nat, pid: nat, k: nat, n: nat) returns (i: nat)
    requires Walked(table, peer, pid, k)
    requires Seen(table, peer, k, PidAfter(table, peer, k))
    ensures i < k && Ancestor(table, peer, n) == Ancestor(table, peer, i)
  {
    if n < k {
      i := n;
    } else {
      var next := PidAfter(table, peer, k);
      var j: nat :| j < k && IsAncestor(table, peer, j, next);
      assert Ancestor(table, peer, j) == Look(table, PidAfter(table, peer, j));
      assert k > 0;
      var h := LoopRepeats(table, peer, pid, k, n - 1);
      assert Ancestor(table, peer, h).Some?;
      i := if h + 1 < k then h + 1 else j;
    }
  }

  /** Loop is reported only when no walk of any length reaches the expected pid. */
  lemma LoopNeverReaches(table: Table, peer: nat, pid: nat, k: nat)
    requires EndsAt(table, peer, pid, k, Err(Loop))
    ensures forall n: nat :: Ancestor(table, peer, n).Some? && !IsAncestor(table, peer, n, pid)
  {
    forall n: nat
      ensures Ancestor(table, peer, n).Some? && !IsAncestor(table, peer, n, pid)
    {
      var i := LoopRepeats(table, peer, pid, k, n);
      assert Ancestor(table, peer, i).Some? && !IsAncestor(table, peer, i, pid);
    }
  }

  lemma {:induction false} GapStays(table: Table, peer: nat, k: nat, n: nat)
    requires k <= n && Ancestor(table, peer, k).None?
    ensures Ancestor(table, peer, n).None?
  {
    if k < n {
      GapStays(table, peer, k, n - 1);
    }
  }

  /** The record found is the expected process, or no walk within the limit finds it. */
  lemma EndDecides(table: Table, peer: nat, expected: Identity, k: nat, r: Result<seq<Record>, Error>)
    requires EndsAt(table, peer, expected.pid, k, r)
    ensures (r.Ok? && exists i :: 0 <= i < |r.value| && r.value[i].identity == expected)
        <==> Descends(table, peer, expected)
  {
    if r.Ok? && exists i :: 0 <= i < |r.value| && r.value[i].identity == expected {
      var i: nat :| i < |r.value| && r.value[i].identity == expected;
      assert Ancestor(table, peer, i) == Some(r.value[i]);
      assert Meets(table, peer, i, expected);
    }
    if Descends(table, peer, expected) {
      var n: nat :| n < MAX_ANCESTRY_DEPTH && Meets(table, peer, n, expected);
      assert IsAncestor(table, peer, n, expected.pid);
      assert k <= n;
      assert Ancestor(table, peer, k) == Look(table, PidAfter(table, peer, k));
      if r == Err(Loop) {
        LoopNeverReaches(table, peer, expected.pid, k);
        assert false;
      }
      if Ancestor(table, peer, k).None? {
        GapStays(table, peer, k, n);
        assert false;
      }
      SamePid(table, peer, k, n);
    }
  }

  /** Two ancestors with one pid are one record. */
  lemma SamePid(table: Table, peer: nat, k: nat, n: nat)
    requires Ancestor(table, peer, k).Some? && Ancestor(table, peer, n).Some?
    requires Ancestor(table, peer, k).value.identity.pid == Ancestor(table, peer, n).value.identity.pid
    ensures Ancestor(table, peer, k) == Ancestor(table, peer, n)
  {
  }

  /** What one walk alone decides. */
  predicate Decides(walk: Result<seq<Record>, Error>, expected: Identity, r: Result<(), Error>) {
    match walk
    case Err(e) => r == Err(e)
    case Ok(records) =>
      if exists i :: 0 <= i < |records| && records[i].identity == expected then r.Ok? else r == Err(NotDescendant)
  }

  /** The walk ends with these records, one of them of the expected process. */
  ghost predicate Finds(table: Table, peer: nat, expected: Identity, k: nat, records: seq<Record>) {
    EndsAt(table, peer, expected.pid, k, Ok(records))
    && exists i :: 0 <= i < |records| && records[i].identity == expected
  }

  /** The second walk reads the processes again; `first` and `second` are what
      the two walks see. */
  method ValidateAncestry(first: Table, second: Table, peer: nat, expected: Identity)
    returns (r: Result<(), Error>)
    ensures r.Ok? ==> Descends(first, peer, expected) && Descends(second, peer, expected)
    ensures r.Ok? <==>
      exists k: nat, records :: Finds(first, peer, expected, k, records) && Finds(second, peer, expected, k, records)
    ensures (forall pid: nat :: first(pid) == second(pid)) ==>
      && (r.Ok? <==> Descends(first, peer, expected)) && r != Err(Changed)
      && exists k: nat, walk :: EndsAt(first, peer, expected.pid, k, walk) && Decides(walk, expected, r)
    ensures r == Err(Loop) ==>
      || (forall n: nat :: !IsAncestor(first, peer, n, expected.pid))
      || (forall n: nat :: !IsAncestor(second, peer, n, expected.pid))
  {
    var one := CollectAncestry(first, peer, expected.pid);
    ghost var k: nat :| EndsAt(first, peer, expected.pid, k, one);
    EndDecides(first, peer, expected, k, one);
    if one == Err(Loop) { LoopNeverReaches(first, peer, expected.pid, k); }
    forall n: nat, records | Finds(first, peer, expected, n, records) ensures one == Ok(records) {
      WalkEndsOnce(first, peer, expected.pid, k, n, one, Ok(records));
    }
    if one.Err? { return Err(one.error); }
    var two := CollectAncestry(second, peer, expected.pid);
    ghost var m: nat :| EndsAt(second, peer, expected.pid, m, two);
    EndDecides(second, peer, expected, m, two);
    if two == Err(Loop) { LoopNeverReaches(second, peer, expected.pid, m); }
    forall n: nat, records | Finds(second, peer, expected, n, records) ensures two == Ok(records) {
      WalkEndsOnce(second, peer, expected.pid, m, n, two, Ok(records));
    }
    if forall pid: nat :: first(pid) == second(pid) {
      SameEnd(second, first, peer, expected.pid, m, two);
      WalkEndsOnce(first, peer, expected.pid, k, m, one, two);
    }
    if two.Err? { return Err(two.error); }
    if one.value != two.value { return Err(Changed); }
    if exists i :: 0 <= i < |one.value| && one.value[i].identity == expected {
      assert k == |one.value| - 1 == m;
      assert Finds(first, peer, expected, k, one.value) && Finds(second, peer, expected, k, one.value);
      return Ok(());
    }
    return Err(NotDescendant);
  }

  lemma {:induction false} SameAncestor(one: Table, other: Table, peer: nat, n: nat)
    requires forall pid: nat :: one(pid) == other(pid)
    ensures Ancestor(one, peer, n) == Ancestor(other, peer, n)
  {
    if n > 0 {
      SameAncestor(one, other, peer, n - 1);
    }
  }

  lemma SameEnd(one: Table, other: Table, peer: nat, pid: nat, k: nat, r: Result<seq<Record>, Error>)
    requires forall pid: nat :: one(pid) == other(pid)
    requires EndsAt(one, peer, pid, k, r)
    ensures EndsAt(other, peer, pid, k, r)
  {
    forall n: nat ensures Ancestor(one, peer, n) == Ancestor(other, peer, n) {
      SameAncestor(one, other, peer, n);
    }
    forall n: nat, p: nat ensures IsAncestor(one, peer, n, p) == IsAncestor(other, peer, n, p) {}
    assert forall p: nat :: Seen(one, peer, k, p) == Seen(other, peer, k, p);
  }
}
