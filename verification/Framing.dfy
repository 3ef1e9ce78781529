// Length-prefixed frames over a stream whose system calls may move part of the
// data, be interrupted, time out or fail (src/broker/linux.rs). A schedule lists
// the outcomes that calls have before the deadline, whether or not all of them
// are made; it runs out when the deadline passes.
module Framing {
  import opened Common

  datatype Call = Moved(count: nat) | Interrupted | WouldBlock | Broken

  datatype Error =
    | UnexpectedEof | WriteZero | TimedOut | InterruptedCall | BlockedCall | Fault
    | InvalidLength | TrailingData

  /** The bytes the peer sends before closing, those sent to it, and the
      outcomes of the calls still to come. */
  datatype Wire = Wire(input: seq<Byte>, output: seq<Byte>, calls: seq<Call>)

  /** How much one successful read returns: at least a byte, at most what is there. */
  function Chunk(count: nat, want: nat, available: nat): (k: nat)
    requires 0 < want && 0 < available
    ensures 0 < k <= want && k <= available
  {
    if count == 0 then 1 else Min(count, Min(want, available))
  }

  // ----- What each operation does to the wire ---------------------------

  function Next(w: Wire): Wire
    requires w.calls != []
  {
    w.(calls := w.calls[1..])
  }

  function ReadExact(w: Wire, want: nat): (Result<seq<Byte>, Error>, Wire)
    decreases |w.calls|
  {
    if w.calls == [] then (Err(TimedOut), w)
    else if want == 0 then (Ok([]), w)
    else match w.calls[0]
      case Moved(count) =>
        if w.input == [] then (Err(UnexpectedEof), Next(w))
        else
          var k := Chunk(count, want, |w.input|);
          var (r, after) := ReadExact(Next(w).(input := w.input[k..]), want - k);
          (match r case Ok(more) => Ok(w.input[..k] + more) case Err(e) => Err(e), after)
      case Interrupted => ReadExact(Next(w), want)
      case WouldBlock => (Err(TimedOut), Next(w))
      case Broken => (Err(Fault), Next(w))
  }

  function ReadFrame(w: Wire, maximum: nat): (Result<seq<Byte>, Error>, Wire) {
    var (header, w1) := ReadExact(w, 4);
    match header
    case Err(e) => (Err(e), w1)
    case Ok(bytes) =>
      if |bytes| != 4 || Length(bytes) == 0 || Length(bytes) > maximum then (Err(InvalidLength), w1)
      else ReadExact(w1, Length(bytes))
  }

  function NoTrailing(w: Wire): (Result<(), Error>, Wire) {
    if w.calls == [] then (Err(TimedOut), w)
    else match w.calls[0]
      case Moved(_) =>
        if w.input == [] then (Ok(()), Next(w))
        else (Err(TrailingData), Next(w).(input := w.input[1..]))
      case Interrupted => (Err(InterruptedCall), Next(w))
      case WouldBlock => (Err(BlockedCall), Next(w))
      case Broken => (Err(Fault), Next(w))
  }

  /** What one connection handler accepts: a frame and then the end of the stream. */
  function Receive(w: Wire, maximum: nat): (Result<seq<Byte>, Error>, Wire) {
    var (frame, w1) := ReadFrame(w, maximum);
    match frame
    case Err(e) => (Err(e), w1)
    case Ok(_) =>
      var (end, w2) := NoTrailing(w1);
      (match end case Ok(_) => frame case Err(e) => Err(e), w2)
  }

  function WriteAll(w: Wire, bytes: seq<Byte>): (Result<(), Error>, Wire)
    decreases |w.calls|
  {
    if bytes == [] then (Ok(()), w)
    else if w.calls == [] then (Err(TimedOut), w)
    else match w.calls[0]
      case Moved(count) =>
        if count == 0 then (Err(WriteZero), Next(w))
        else
          var k := Min(count, |bytes|);
          WriteAll(Next(w).(output := w.output + bytes[..k]), bytes[k..])
      case Interrupted => WriteAll(Next(w), bytes)
      case WouldBlock => (Err(TimedOut), Next(w))
      case Broken => (Err(Fault), Next(w))
  }

  function WriteFrame(w: Wire, payload: seq<Byte>, maximum: nat): (Result<(), Error>, Wire) {
    if !Sendable(payload, maximum) then (Err(InvalidLength), w)
    else
      var (sent, w1) := WriteAll(w, Header(|payload|));
      if sent.Err? then (sent, w1) else WriteAll(w1, payload)
  }

  // ----- The frame format -----------------------------------------------

  predicate Sendable(payload: seq<Byte>, maximum: nat) {
    payload != [] && |payload| <= maximum && |payload| < 0x1_0000_0000
  }

  /** `u32::to_be_bytes`. */
  function Header(n: nat): (bytes: seq<Byte>)
    requires n < 0x1_0000_0000
    ensures |bytes| == 4
  {
    [n / 0x100_0000, n / 0x1_0000 % 0x100, n / 0x100 % 0x100, n % 0x100]
  }

  /** `u32::from_be_bytes`. */
  function Length(bytes: seq<Byte>): (n: nat)
    requires |bytes| == 4
    ensures n < 0x1_0000_0000
  {
    bytes[0] as int * 0x100_0000 + bytes[1] as int * 0x1_0000 + bytes[2] as int * 0x100 + bytes[3] as int
  }

  lemma LengthOfHeader(n: nat)
    requires n < 0x1_0000_0000
    ensures Length(Header(n)) == n
  {
    var a, b := n / 0x100, n / 0x1_0000;
    assert b == a / 0x100;
    assert n / 0x100_0000 == b / 0x100;
  }

  lemma HeaderOfLength(bytes: seq<Byte>)
    requires |bytes| == 4
    ensures Header(Length(bytes)) == bytes
  {
    var n := Length(bytes);
    var b := bytes[0] as int * 0x100 + bytes[1] as int;
    var a := b * 0x100 + bytes[2] as int;
    assert n == a * 0x100 + bytes[3] as int;
    assert n / 0x100 == a && n % 0x100 == bytes[3];
    assert a / 0x100 == b && a % 0x100 == bytes[2];
    assert n / 0x1_0000 == b;
    assert n / 0x100_0000 == b / 0x100 == bytes[0];
  }

  function Encode(payload: seq<Byte>): seq<Byte>
    requires |payload| < 0x1_0000_0000
  {
    Header(|payload|) + payload
  }

  /** What a whole stream of bytes is worth, however it arrives. */
  function Judge(input: seq<Byte>, maximum: nat): Result<seq<Byte>, Error> {
    if |input| < 4 then Err(UnexpectedEof)
    else
      var n := Length(input[..4]);
      if n == 0 || n > maximum then Err(InvalidLength)
      else if |input| < 4 + n then Err(UnexpectedEof)
      else if |input| > 4 + n then Err(TrailingData)
      else Ok(input[4..])
  }

  /** Exactly one stream stands for each payload, and no other is accepted. */
  lemma JudgeExact(input: seq<Byte>, maximum: nat, payload: seq<Byte>)
    ensures Judge(input, maximum) == Ok(payload)
        <==> Sendable(payload, maximum) && input == Encode(payload)
  {
    if Sendable(payload, maximum) && input == Encode(payload) {
      LengthOfHeader(|payload|);
      assert input[..4] == Header(|payload|);
      assert input[4..] == payload;
    }
    if Judge(input, maximum) == Ok(payload) {
      HeaderOfLength(input[..4]);
      assert input == input[..4] + input[4..];
    }
  }

  lemma NoFrameBeginsAnother(p: seq<Byte>, q: seq<Byte>, k: nat)
    requires |p| < 0x1_0000_0000 && |q| < 0x1_0000_0000
    requires k <= |Encode(q)| && Encode(p) == Encode(q)[..k]
    ensures p == q && k == |Encode(q)|
  {
    LengthOfHeader(|p|);
    LengthOfHeader(|q|);
    assert Encode(p)[..4] == Header(|p|);
    assert Encode(q)[..k][..4] == Header(|q|);
    assert Encode(p)[4..] == p && Encode(q)[4..] == q;
  }

  // ----- Reading --------------------------------------------------------

  /** A read that succeeds returns the next bytes, in order, and takes no more. */
  lemma {:induction false} ReadExactTakes(w: Wire, want: nat)
    ensures var (r, after) := ReadExact(w, want);
      (r.Ok? ==>
         && want <= |w.input|
         && r.value == w.input[..want]
         && after.input == w.input[want..]
         && after.calls != [])
    decreases |w.calls|
  {
    if w.calls != [] && want > 0 {
      match w.calls[0]
      case Moved(count) =>
        if w.input != [] {
          var k := Chunk(count, want, |w.input|);
          var rest := w.input[k..];
          ReadExactTakes(Next(w).(input := rest), want - k);
          if ReadExact(w, want).0.Ok? {
            assert w.input[..k] + rest[..want - k] == w.input[..want];
            assert rest[want - k..] == w.input[want..];
          }
        }
      case Interrupted => ReadExactTakes(Next(w), want);
      case WouldBlock =>
      case Broken =>
    }
  }

  /** Whatever the schedule, only the one right stream is ever accepted: zero or
      oversized lengths, truncation and extra bytes never get through. */
  lemma AcceptedIsJudged(w: Wire, maximum: nat)
    ensures Receive(w, maximum).0.Ok? ==> Receive(w, maximum).0 == Judge(w.input, maximum)
  {
    var (header, w1) := ReadExact(w, 4);
    ReadExactTakes(w, 4);
    if header.Ok? && 0 < Length(header.value) <= maximum {
      var n := Length(header.value);
      ReadExactTakes(w1, n);
      var (body, w2) := ReadExact(w1, n);
      if body.Ok? && NoTrailing(w2).0.Ok? {
        assert w2.input == [];
        assert |w1.input| == n;
        assert w1.input[..n] == w1.input;
      }
    }
  }

  /** The ways in which a read of `want` bytes can end; without a fault and with
      time enough, only what the stream holds decides. */
  lemma {:induction false} ReadExactOutcome(w: Wire, want: nat)
    ensures var (r, after) := ReadExact(w, want);
      && (forall c :: c in after.calls ==> c in w.calls)
      && match r
         case Ok(_) => true
         case Err(e) =>
           || (e == UnexpectedEof && |w.input| < want)
           || (e == TimedOut && (after.calls == [] || WouldBlock in w.calls))
           || (e == Fault && Broken in w.calls)
    decreases |w.calls|
  {
    if w.calls != [] && want > 0 {
      assert w.calls[0] in w.calls;
      assert forall c :: c in w.calls[1..] ==> c in w.calls;
      match w.calls[0]
      case Moved(count) =>
        if w.input != [] {
          var k := Chunk(count, want, |w.input|);
          ReadExactOutcome(Next(w).(input := w.input[k..]), want - k);
        }
      case Interrupted => ReadExactOutcome(Next(w), want);
      case WouldBlock =>
      case Broken =>
    }
  }

  /** What the receiver makes of a stream that is worth `expected`: that value,
      unless a fault, the deadline, or the call that looks for trailing data,
      which is not repeated, comes in between. */
  ghost predicate ReceivedAs(w: Wire, maximum: nat, expected: Result<seq<Byte>, Error>) {
    var (frame, rest) := ReadFrame(w, maximum);
    var (r, after) := Receive(w, maximum);
    && (r == Err(InterruptedCall) <==> frame.Ok? && rest.calls != [] && rest.calls[0] == Interrupted)
    && (r == Err(BlockedCall) <==> frame.Ok? && rest.calls != [] && rest.calls[0] == WouldBlock)
    && (r == Err(Fault) ==> Broken in w.calls)
    && (r == Err(TimedOut) ==> after.calls == [] || WouldBlock in w.calls)
    && (r == expected || r in [Err(InterruptedCall), Err(BlockedCall), Err(Fault), Err(TimedOut)])
  }

  /** On every schedule the receiver judges the stream alone, however it was cut up. */
  lemma ReceiveJudges(w: Wire, maximum: nat)
    ensures ReceivedAs(w, maximum, Judge(w.input, maximum))
  {
    ReadExactOutcome(w, 4);
    ReadExactTakes(w, 4);
    var (header, w1) := ReadExact(w, 4);
    if header.Ok? && 0 < Length(header.value) <= maximum {
      var n := Length(header.value);
      ReadExactOutcome(w1, n);
      ReadExactTakes(w1, n);
      var (body, w2) := ReadExact(w1, n);
      if body.Ok? {
        assert w2.calls[0] in w2.calls;
        assert |w2.input| == |w.input| - 4 - n;
        assert w2.input == [] ==> w1.input[..n] == w1.input;
      }
    }
  }

  /** Nothing but partial moves and interruptions. */
  ghost predicate Quiet(calls: seq<Call>) {
    WouldBlock !in calls && Broken !in calls
  }

  /** On a schedule of any length without faults: the deadline passed, or the
      last read was interrupted, or the stream alone decides. */
  lemma QuietReceive(w: Wire, maximum: nat)
    requires Quiet(w.calls)
    ensures var (frame, rest) := ReadFrame(w, maximum);
      var (r, after) := Receive(w, maximum);
      if r == Err(TimedOut) then after.calls == []
      else r == if frame.Ok? && rest.calls[0] == Interrupted then Err(InterruptedCall) else Judge(w.input, maximum)
  {
    ReceiveJudges(w, maximum);
    ReadFrameSuffix(w, maximum);
  }

  /** A complete frame leaves some time, and only calls of the schedule. */
  lemma ReadFrameSuffix(w: Wire, maximum: nat)
    ensures var (frame, rest) := ReadFrame(w, maximum);
      (frame.Ok? ==> rest.calls != [] && rest.calls[0] in w.calls)
  {
    ReadExactOutcome(w, 4);
    ReadExactTakes(w, 4);
    var (header, w1) := ReadExact(w, 4);
    if header.Ok? {
      ReadExactOutcome(w1, Length(header.value));
      ReadExactTakes(w1, Length(header.value));
      assert ReadExact(w1, Length(header.value)).0.Ok? ==>
          ReadExact(w1, Length(header.value)).1.calls[0] in ReadExact(w1, Length(header.value)).1.calls;
    }
  }

  lemma {:induction false} ReadExactMoreTime(w: Wire, want: nat, more: seq<Call>)
    requires ReadExact(w, want).0 != Err(TimedOut)
    ensures var (r, after) := ReadExact(w, want);
      ReadExact(w.(calls := w.calls + more), want) == (r, after.(calls := after.calls + more))
    decreases |w.calls|
  {
    assert (w.calls + more)[1..] == w.calls[1..] + more;
    if want > 0 {
      match w.calls[0]
      case Moved(count) =>
        if w.input != [] {
          var k := Chunk(count, want, |w.input|);
          ReadExactMoreTime(Next(w).(input := w.input[k..]), want - k, more);
        }
      case Interrupted => ReadExactMoreTime(Next(w), want, more);
      case Broken =>
    }
  }

  /** A later deadline changes no outcome but a timeout. */
  lemma MoreTimeSame(w: Wire, maximum: nat, more: seq<Call>)
    requires Receive(w, maximum).0 != Err(TimedOut)
    ensures Receive(w.(calls := w.calls + more), maximum).0 == Receive(w, maximum).0
  {
    ReadExactMoreTime(w, 4, more);
    ReadExactTakes(w, 4);
    var (header, w1) := ReadExact(w, 4);
    if header.Ok? && 0 < Length(header.value) <= maximum {
      ReadExactMoreTime(w1, Length(header.value), more);
    }
  }

  /** The number of calls that move data. */
  function Moves(calls: seq<Call>): (n: nat)
    ensures n <= |calls|
  {
    if calls == [] then 0 else (if calls[0].Moved? then 1 else 0) + Moves(calls[1..])
  }

  /** A quiet schedule with time for more than `n` reads. */
  ghost predicate Fair(calls: seq<Call>, n: nat) {
    Quiet(calls) && n < Moves(calls)
  }

  /** Time for more reads than there are bytes is always enough. */
  lemma {:induction false} FairReadExact(w: Wire, want: nat)
    requires Fair(w.calls, |w.input|)
    ensures var (r, after) := ReadExact(w, want);
      r != Err(TimedOut) && (r.Ok? ==> Fair(after.calls, |after.input|))
    decreases |w.calls|
  {
    if want > 0 {
      assert w.calls[0] in w.calls;
      match w.calls[0]
      case Moved(count) =>
        if w.input != [] {
          var k := Chunk(count, want, |w.input|);
          FairReadExact(Next(w).(input := w.input[k..]), want - k);
        }
      case Interrupted => FairReadExact(Next(w), want);
    }
  }

  /** With time enough there is no timeout, so only an interruption of the last
      read comes between the stream and its worth. */
  lemma FairReceive(w: Wire, maximum: nat)
    requires Fair(w.calls, |w.input|)
    ensures var (frame, rest) := ReadFrame(w, maximum);
      Receive(w, maximum).0 ==
        if frame.Ok? && rest.calls != [] && rest.calls[0] == Interrupted then Err(InterruptedCall)
        else Judge(w.input, maximum)
  {
    FairReadExact(w, 4);
    ReadExactTakes(w, 4);
    var (header, w1) := ReadExact(w, 4);
    if header.Ok? && 0 < Length(header.value) <= maximum {
      FairReadExact(w1, Length(header.value));
    }
    QuietReceive(w, maximum);
    ReadFrameSuffix(w, maximum);
  }

  /** A run in three reads: the header, the body, the end. */
  lemma ThreeReadsSuffice(payload: seq<Byte>, maximum: nat)
    requires Sendable(payload, maximum)
    ensures Receive(Wire(Encode(payload), [], [Moved(4), Moved(|payload|), Moved(1)]), maximum).0 == Ok(payload)
  {
    var calls := [Moved(4), Moved(|payload|), Moved(1)];
    var w := Wire(Encode(payload), [], calls);
    LengthOfHeader(|payload|);
    assert w.input[..4] == Header(|payload|) && w.input[4..] == payload;
    var w1 := Wire(payload, [], calls[1..]);
    assert ReadExact(w1, 0) == (Ok([]), w1);
    assert Next(w).(input := w.input[4..]) == w1 && Header(|payload|) + [] == Header(|payload|);
    assert ReadExact(w, 4) == (Ok(Header(|payload|)), w1);
    var w2 := Wire([], [], calls[2..]);
    assert calls[1..][1..] == calls[2..] == [Moved(1)] && payload[|payload|..] == [];
    assert ReadExact(w2, 0) == (Ok([]), w2);
    assert payload[..|payload|] + [] == payload;
    assert ReadExact(w1, |payload|) == (Ok(payload), w2);
  }

  // ----- Writing --------------------------------------------------------

  /** A write sends a prefix; it succeeds exactly when the prefix is everything. */
  lemma {:induction false} WriteAllSendsPrefix(w: Wire, bytes: seq<Byte>) returns (k: nat)
    ensures k <= |bytes|
    ensures WriteAll(w, bytes).1.output == w.output + bytes[..k]
    ensures WriteAll(w, bytes).0.Ok? <==> k == |bytes|
    decreases |w.calls|
  {
    k := 0;
    if bytes != [] && w.calls != [] {
      match w.calls[0]
      case Moved(count) =>
        if count != 0 {
          var n := Min(count, |bytes|);
          var more := WriteAllSendsPrefix(Next(w).(output := w.output + bytes[..n]), bytes[n..]);
          k := n + more;
          assert bytes[..n] + bytes[n..][..more] == bytes[..k];
          assert w.output + bytes[..n] + bytes[n..][..more] == w.output + (bytes[..n] + bytes[n..][..more]);
        }
      case Interrupted => k := WriteAllSendsPrefix(Next(w), bytes);
      case WouldBlock =>
      case Broken =>
    }
  }

  lemma WriteFrameSendsPrefix(w: Wire, payload: seq<Byte>, maximum: nat) returns (k: nat)
    requires Sendable(payload, maximum)
    ensures k <= 4 + |payload|
    ensures WriteFrame(w, payload, maximum).1.output == w.output + Encode(payload)[..k]
    ensures WriteFrame(w, payload, maximum).0.Ok? <==> k == 4 + |payload|
  {
    var h := WriteAllSendsPrefix(w, Header(|payload|));
    k := h;
    if h == 4 {
      var w1 := WriteAll(w, Header(|payload|)).1;
      var b := WriteAllSendsPrefix(w1, payload);
      k := 4 + b;
      assert w.output + Header(|payload|)[..4] + payload[..b] == w.output + Encode(payload)[..k];
    } else {
      assert Encode(payload)[..h] == Header(|payload|)[..h];
    }
  }

  /** A write is complete, or the deadline or a fault cut it short. */
  ghost predicate WrittenOr(calls: seq<Call>, r: Result<(), Error>, after: Wire) {
    match r
    case Ok(_) => true
    case Err(e) =>
      || (e == TimedOut && (after.calls == [] || WouldBlock in calls))
      || (e == Fault && Broken in calls)
      || (e == WriteZero && Moved(0) in calls)
  }

  lemma {:induction false} WriteAllOutcome(w: Wire, bytes: seq<Byte>)
    ensures var (r, after) := WriteAll(w, bytes);
      WrittenOr(w.calls, r, after) && forall c :: c in after.calls ==> c in w.calls
    decreases |w.calls|
  {
    if bytes != [] && w.calls != [] {
      assert w.calls[0] in w.calls;
      assert forall c :: c in w.calls[1..] ==> c in w.calls;
      match w.calls[0]
      case Moved(count) =>
        if count != 0 {
          var n := Min(count, |bytes|);
          WriteAllOutcome(Next(w).(output := w.output + bytes[..n]), bytes[n..]);
        }
      case Interrupted => WriteAllOutcome(Next(w), bytes);
      case WouldBlock =>
      case Broken =>
    }
  }

  lemma WriteFrameOutcome(w: Wire, payload: seq<Byte>, maximum: nat)
    ensures var (r, after) := WriteFrame(w, payload, maximum);
      if Sendable(payload, maximum) then WrittenOr(w.calls, r, after) else r == Err(InvalidLength) && after == w
  {
    if Sendable(payload, maximum) {
      WriteAllOutcome(w, Header(|payload|));
      WriteAllOutcome(WriteAll(w, Header(|payload|)).1, payload);
    }
  }

  /** Writes that move something, and interruptions. */
  ghost predicate Steady(calls: seq<Call>) {
    Quiet(calls) && Moved(0) !in calls
  }

  /** A steady schedule with time for `n` bytes. */
  ghost predicate FairWrites(calls: seq<Call>, n: nat) {
    Steady(calls) && n <= Moves(calls)
  }

  lemma {:induction false} FairWriteAll(w: Wire, bytes: seq<Byte>, spare: nat)
    requires FairWrites(w.calls, |bytes| + spare)
    ensures WriteAll(w, bytes).0.Ok?
    ensures FairWrites(WriteAll(w, bytes).1.calls, spare)
    decreases |w.calls|
  {
    if bytes != [] {
      assert w.calls[0] in w.calls;
      match w.calls[0]
      case Moved(count) =>
        var n := Min(count, |bytes|);
        FairWriteAll(Next(w).(output := w.output + bytes[..n]), bytes[n..], spare);
      case Interrupted =>
        FairWriteAll(Next(w), bytes, spare);
    }
  }

  // ----- Both ends ------------------------------------------------------

  /** On every pair of schedules: a frame that was written whole is received as
      its payload, and only a fault or the deadline prevents either. */
  lemma RoundTrip(sender: Wire, payload: seq<Byte>, maximum: nat, calls: seq<Call>)
    requires sender.output == [] && Sendable(payload, maximum)
    ensures var (sent, out) := WriteFrame(sender, payload, maximum);
      && WrittenOr(sender.calls, sent, out)
      && (sent.Ok? ==> ReceivedAs(Wire(out.output, [], calls), maximum, Ok(payload)))
  {
    WriteFrameOutcome(sender, payload, maximum);
    var k := WriteFrameSendsPrefix(sender, payload, maximum);
    var (sent, out) := WriteFrame(sender, payload, maximum);
    if sent.Ok? {
      assert [] + Encode(payload)[..k] == Encode(payload);
      JudgeExact(out.output, maximum, payload);
      ReceiveJudges(Wire(out.output, [], calls), maximum);
    }
  }

  /** Without faults only the deadline stops a write, and only the deadline or
      an interruption of the last read stops the payload. */
  lemma QuietRoundTrip(sender: Wire, payload: seq<Byte>, maximum: nat, calls: seq<Call>)
    requires sender.output == [] && Sendable(payload, maximum)
    requires Steady(sender.calls) && Quiet(calls)
    ensures var (sent, out) := WriteFrame(sender, payload, maximum);
      && (sent.Ok? || (sent == Err(TimedOut) && out.calls == []))
      && (sent.Ok? ==>
            var receiver := Wire(out.output, [], calls);
            var (frame, rest) := ReadFrame(receiver, maximum);
            var (r, after) := Receive(receiver, maximum);
            if r == Err(TimedOut) then after.calls == []
            else r == if frame.Ok? && rest.calls[0] == Interrupted then Err(InterruptedCall) else Ok(payload))
  {
    RoundTrip(sender, payload, maximum, calls);
    var (sent, out) := WriteFrame(sender, payload, maximum);
    if sent.Ok? {
      ReadFrameSuffix(Wire(out.output, [], calls), maximum);
    }
  }

  /** With time enough on both sides the frame always arrives. */
  lemma FairRoundTrip(sender: Wire, payload: seq<Byte>, maximum: nat, calls: seq<Call>)
    requires sender.output == [] && Sendable(payload, maximum)
    requires FairWrites(sender.calls, 4 + |payload|)
    requires Fair(calls, 4 + |payload|)
    ensures WriteFrame(sender, payload, maximum).0.Ok?
    ensures var receiver := Wire(WriteFrame(sender, payload, maximum).1.output, [], calls);
      var (frame, rest) := ReadFrame(receiver, maximum);
      && frame == Ok(payload)
      && rest.input == []
      && rest.calls != []
      && (Receive(receiver, maximum).0 == Ok(payload) <==> rest.calls[0] != Interrupted)
  {
    FairWriteAll(sender, Header(|payload|), |payload|);
    FairWriteAll(WriteAll(sender, Header(|payload|)).1, payload, 0);
    var k := WriteFrameSendsPrefix(sender, payload, maximum);
    assert [] + Encode(payload)[..k] == Encode(payload);
    JudgeExact(Encode(payload), maximum, payload);
    var receiver := Wire(Encode(payload), [], calls);
    FairReceive(receiver, maximum);
    WholeFrame(receiver, payload, maximum);
  }

  /** With time enough a stream that is one frame is read to its end. */
  lemma WholeFrame(w: Wire, payload: seq<Byte>, maximum: nat)
    requires Sendable(payload, maximum) && w.input == Encode(payload) && Fair(w.calls, |w.input|)
    ensures var (frame, rest) := ReadFrame(w, maximum);
      frame == Ok(payload) && rest.input == [] && rest.calls != []
  {
    LengthOfHeader(|payload|);
    assert w.input[..4] == Header(|payload|) && w.input[4..] == payload;
    FairReadExact(w, 4);
    ReadExactOutcome(w, 4);
    ReadExactTakes(w, 4);
    var w1 := ReadExact(w, 4).1;
    assert payload[..|payload|] == payload && payload[|payload|..] == [];
    FairReadExact(w1, |payload|);
    ReadExactOutcome(w1, |payload|);
    ReadExactTakes(w1, |payload|);
  }

  /** Whatever goes wrong on either side, a receiver that accepts has the
      sender's whole payload, and the sender saw its write succeed. */
  lemma NothingButThePayload(sender: Wire, payload: seq<Byte>, maximum: nat, calls: seq<Call>, limit: nat)
    requires sender.output == [] && Sendable(payload, maximum)
    ensures var (sent, after) := WriteFrame(sender, payload, maximum);
      var got := Receive(Wire(after.output, [], calls), limit).0;
      (got.Ok? ==> got.value == payload && sent.Ok?)
  {
    var k := WriteFrameSendsPrefix(sender, payload, maximum);
    var input := WriteFrame(sender, payload, maximum).1.output;
    assert input == Encode(payload)[..k];
    var receiver := Wire(input, [], calls);
    AcceptedIsJudged(receiver, limit);
    var got := Receive(receiver, limit).0;
    if got.Ok? {
      var p := got.value;
      JudgeExact(input, limit, p);
      NoFrameBeginsAnother(p, payload, k);
    }
  }

  /** A complete request lost to one interrupted call, although every earlier
      read retries after an interruption. */
  lemma InterruptedLastReadRefuses()
    ensures var w := Wire([0, 0, 0, 1, 7], [], [Interrupted, Moved(4), Moved(1), Interrupted, Moved(1)]);
      && Judge(w.input, 16) == Ok([7])
      && Receive(w, 16).0 == Err(InterruptedCall)
  {
  }

  // ----- The methods ----------------------------------------------------

  /** After `got`, reading `left` more bytes from `now` completes the read from `start`. */
  ghost predicate Continues(start: Wire, want: nat, got: seq<Byte>, now: Wire, left: nat) {
    var (whole, last) := ReadExact(start, want);
    var (rest, after) := ReadExact(now, left);
    && last == after
    && match rest case Ok(more) => whole == Ok(got + more) case Err(_) => whole == rest
  }

  lemma ContinuesFromStart(start: Wire, want: nat)
    ensures Continues(start, want, [], start, want)
  {
    var whole := ReadExact(start, want).0;
    if whole.Ok? {
      assert [] + whole.value == whole.value;
    }
  }

  lemma ContinuesMoved(start: Wire, want: nat, got: seq<Byte>, now: Wire, left: nat)
    requires Continues(start, want, got, now, left)
    requires left > 0 && now.calls != [] && now.calls[0].Moved? && now.input != []
    ensures var k := Chunk(now.calls[0].count, left, |now.input|);
      Continues(start, want, got + now.input[..k], Next(now).(input := now.input[k..]), left - k)
  {
    var k := Chunk(now.calls[0].count, left, |now.input|);
    var rest := ReadExact(Next(now).(input := now.input[k..]), left - k).0;
    if rest.Ok? {
      assert got + (now.input[..k] + rest.value) == got + now.input[..k] + rest.value;
    }
  }

  class Stream {
    var input: seq<Byte>
    var output: seq<Byte>
    var calls: seq<Call>

    function State(): Wire
      reads this
    {
      Wire(input, output, calls)
    }

    /** One `read` into `buffer[from..]`; fills `count` bytes, none at the end
        of the stream. */
    method Read(buffer: array<Byte>, from: nat) returns (r: Result<nat, Error>)
      requires from < buffer.Length
      requires calls != []
      modifies this, buffer
      ensures output == old(output) && calls == old(calls[1..])
      ensures match old(calls[0])
        case Moved(count) =>
          var k := if old(input) == [] then 0 else Chunk(count, buffer.Length - from, |old(input)|);
          && r == Ok(k)
          && input == old(input)[k..]
          && buffer[..] == old(buffer[..from]) + old(input)[..k] + old(buffer[..])[from + k..]
        case Interrupted => r == Err(InterruptedCall) && input == old(input) && buffer[..] == old(buffer[..])
        case WouldBlock => r == Err(BlockedCall) && input == old(input) && buffer[..] == old(buffer[..])
        case Broken => r == Err(Fault) && input == old(input) && buffer[..] == old(buffer[..])
    {
      var call := calls[0];
      calls := calls[1..];
      match call
      case Moved(count) =>
        if input == [] {
          r := Ok(0);
        } else {
          var k := Chunk(count, buffer.Length - from, |input|);
          forall i | 0 <= i < k { buffer[from + i] := input[i]; }
          input := input[k..];
          r := Ok(k);
        }
      case Interrupted => r := Err(InterruptedCall);
      case WouldBlock => r := Err(BlockedCall);
      case Broken => r := Err(Fault);
    }

    method ReadExactUntil(buffer: array<Byte>) returns (r: Result<(), Error>)
      modifies this, buffer
      ensures var (result, after) := ReadExact(old(State()), buffer.Length);
        && State() == after
        && (result.Ok? ==> r == Ok(()) && buffer[..] == result.value)
        && (result.Err? ==> r == Err(result.error))
    {
      var filled := 0;
      ContinuesFromStart(State(), buffer.Length);
      assert buffer[..filled] == [];
      while filled < buffer.Length
        invariant 0 <= filled <= buffer.Length
        invariant output == old(output)
        invariant Continues(old(State()), buffer.Length, buffer[..filled], State(), buffer.Length - filled)
        decreases |calls|
      {
        if calls == [] { return Err(TimedOut); }
        ghost var now, done := State(), buffer[..filled];
        var got := Read(buffer, filled);
        match got
        case Ok(length) =>
          if length == 0 { return Err(UnexpectedEof); }
          ContinuesMoved(old(State()), buffer.Length, done, now, buffer.Length - filled);
          assert buffer[..filled + length] == done + now.input[..length];
          filled := filled + length;
        case Err(error) =>
          if error == BlockedCall { return Err(TimedOut); }
          if error != InterruptedCall { return Err(error); }
      }
      if calls == [] { return Err(TimedOut); }
      assert buffer[..filled] == buffer[..];
      return Ok(());
    }

    method ReadFrameUntil(maximum: nat) returns (r: Result<seq<Byte>, Error>)
      modifies this
      ensures (r, State()) == ReadFrame(old(State()), maximum)
    {
      ghost var w := State();
      var header := new Byte[4];
      var got := ReadExactUntil(header);
      assert State() == ReadExact(w, 4).1;
      if got.Err? { return Err(got.error); }
      ReadExactTakes(w, 4);
      assert ReadExact(w, 4).0 == Ok(header[..]);
      var length := Length(header[..]);
      if length == 0 || length > maximum { return Err(InvalidLength); }
      ghost var w1 := State();
      var bytes := new Byte[length];
      got := ReadExactUntil(bytes);
      assert State() == ReadExact(w1, length).1;
      if got.Err? { return Err(got.error); }
      return Ok(bytes[..]);
    }

    method EnsureNoTrailingData() returns (r: Result<(), Error>)
      modifies this
      ensures (r, State()) == NoTrailing(old(State()))
    {
      if calls == [] { return Err(TimedOut); }
      var byte := new Byte[1];
      var got := Read(byte, 0);
      match got
      case Ok(length) => r := if length == 0 then Ok(()) else Err(TrailingData);
      case Err(error) => r := Err(error);
    }

    method WriteAllUntil(bytes: seq<Byte>) returns (r: Result<(), Error>)
      modifies this
      ensures (r, State()) == WriteAll(old(State()), bytes)
    {
      var left := bytes;
      while left != []
        invariant WriteAll(State(), left) == WriteAll(old(State()), bytes)
        decreases |calls|
      {
        if calls == [] { return Err(TimedOut); }
        var call := calls[0];
        calls := calls[1..];
        match call
        case Moved(count) =>
          if count == 0 { return Err(WriteZero); }
          var length := Min(count, |left|);
          output := output + left[..length];
          left := left[length..];
        case Interrupted =>
        case WouldBlock => return Err(TimedOut);
        case Broken => return Err(Fault);
      }
      return Ok(());
    }

    method WriteFrameUntil(payload: seq<Byte>, maximum: nat) returns (r: Result<(), Error>)
      modifies this
      ensures (r, State()) == WriteFrame(old(State()), payload, maximum)
    {
      if payload == [] || |payload| > maximum { return Err(InvalidLength); }
      if |payload| >= 0x1_0000_0000 { return Err(InvalidLength); }
      r := WriteAllUntil(Header(|payload|));
      if r.Ok? {
        r := WriteAllUntil(payload);
      }
    }

    /** The reading half of `handle_connection`. */
    method ReceiveRequest(maximum: nat) returns (r: Result<seq<Byte>, Error>)
      modifies this
      ensures (r, State()) == Receive(old(State()), maximum)
    {
      r := ReadFrameUntil(maximum);
      if r.Ok? {
        var end := EnsureNoTrailingData();
        if end.Err? { r := Err(end.error); }
      }
    }
  }
}
