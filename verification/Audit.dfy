/** The audit lines the broker writes (src/audit.rs) and the reader that later
    reconstructs the session from the file (src/update/outcome.rs). */
module Audit {
  import opened Common
  import opened Outcome

  const MAX_AUDIT_BYTES := 65536
  const PERMISSION_REQUEST := "PermissionRequest"

  predicate IsHash(s: string) {
    |s| == 16 && forall i :: 0 <= i < |s| ==> '0' <= s[i] <= '9' || 'a' <= s[i] <= 'f'
  }

  /** Sixteen lower-case hexadecimal digits: `short_hash` and `json_hash`. */
  type Hash = s: string | IsHash(s) witness "0000000000000000"

  /** What one append records. */
  datatype Record =
    | Connection
    | Invoked(event: Option<string>, tool: Hash)
    | Request(event: Option<string>, tool: Hash, input: Option<Hash>)
    | Allowed(tool: Hash, input: Option<Hash>)
    | Emitted(tool: Hash, input: Option<Hash>)

  datatype Kind = KConnection | KInvoked | KRequest | KAllowed | KEmitted | KOther

  function KindOf(r: Record): Kind {
    match r
    case Connection => KConnection
    case Invoked(_, _) => KInvoked
    case Request(_, _, _) => KRequest
    case Allowed(_, _) => KAllowed
    case Emitted(_, _) => KEmitted
  }

  function EventLabel(event: Option<string>): string {
    match event
    case Some(name) => if name == PERMISSION_REQUEST then PERMISSION_REQUEST else "other"
    case None => "unknown"
  }

  function InputHash(input: Option<Hash>): string {
    match input
    case Some(h) => h
    case None => "none"
  }

  const CONNECTION := "broker connection"
  const INVOKED := "invoked event="
  const REQUEST := "request event="
  const REQUEST_EXPECTED := "request event=PermissionRequest "
  const ALLOWED := "allowed one PermissionRequest tool_hash="
  const EMITTED := "emitted one PermissionRequest tool_hash="
  const TOOL := " tool_hash="
  const INPUT := " input_hash="

  /** The text of one record, without its newline. */
  function Line(r: Record): string {
    match r
    case Connection => CONNECTION
    case Invoked(event, tool) => INVOKED + EventLabel(event) + TOOL + tool
    case Request(event, tool, input) => REQUEST + EventLabel(event) + TOOL + tool + INPUT + InputHash(input)
    case Allowed(tool, input) => ALLOWED + tool + INPUT + InputHash(input)
    case Emitted(tool, input) => EMITTED + tool + INPUT + InputHash(input)
  }

  /** The reader's cascade of tests on one line. */
  function Cascade(line: string, connection: string, invoked: string, tool: string,
                   request: string, allowed: string, emitted: string): Kind {
    if line == connection then KConnection
    else if invoked <= line && Contains(line, tool) then KInvoked
    else if request <= line then KRequest
    else if allowed <= line then KAllowed
    else if emitted <= line then KEmitted
    else KOther
  }

  function Classify(line: string): Kind {
    Cascade(line, CONNECTION, INVOKED, TOOL, REQUEST_EXPECTED, ALLOWED, EMITTED)
  }

  /** A file after some lines were appended to it, each with its newline. */
  function Joined(lines: seq<string>): string {
    if lines == [] then "" else Joined(lines[..|lines| - 1]) + lines[|lines| - 1] + "\n"
  }

  function LinesOf(log: seq<Record>): (lines: seq<string>)
    ensures |lines| == |log|
    ensures forall i :: 0 <= i < |log| ==> lines[i] == Line(log[i])
  {
    seq(|log|, i requires 0 <= i < |log| => Line(log[i]))
  }

  /** The file holding a log. */
  function Text(log: seq<Record>): string {
    Joined(LinesOf(log))
  }

  /** One append adds the record's line and a newline at the end of the file. */
  lemma TextAppend(log: seq<Record>, r: Record)
    ensures Text(log + [r]) == Text(log) + Line(r) + "\n"
  {
    var lines := LinesOf(log + [r]);
    assert lines[..|lines| - 1] == LinesOf(log);
  }

  /** `str::find` of a newline; the length when there is none. */
  function NewlineAt(s: string): (i: nat)
    ensures i <= |s|
    ensures i < |s| ==> s[i] == '\n'
    ensures forall k :: 0 <= k < i ==> s[k] != '\n'
  {
    if s == "" || s[0] == '\n' then 0 else 1 + NewlineAt(s[1..])
  }

  /** A carriage return directly before the newline is dropped. */
  function Chomp(s: string): string {
    if s != "" && s[|s| - 1] == '\r' then s[..|s| - 1] else s
  }

  /** `str::lines`. */
  function Lines(s: string): seq<string> {
    if s == "" then []
    else
      var i := NewlineAt(s);
      if i == |s| then [s] else [Chomp(s[..i])] + Lines(s[i + 1..])
  }

  /** Occurrences of a kind of record. */
  function Count(log: seq<Record>, kind: Kind): (n: nat)
    ensures n <= |log|
  {
    if log == [] then 0
    else Count(log[..|log| - 1], kind) + if KindOf(log[|log| - 1]) == kind then 1 else 0
  }

  // ----- Writer and reader agree on every line -----

  /** Requests are only logged for the permission event. */
  predicate Readable(r: Record) {
    r.Request? ==> r.event == Some(PERMISSION_REQUEST)
  }

  /** The first letter decides between the reader's prefixes. */
  lemma CascadeByHead(line: string, c: string, i: string, t: string, r: string, a: string, e: string)
    requires line != "" && c != "" && i != "" && r != "" && a != "" && e != ""
    requires c[0] == 'b' && i[0] == 'i' && r[0] == 'r' && a[0] == 'a' && e[0] == 'e'
    ensures line[0] == 'i' ==> Cascade(line, c, i, t, r, a, e) == if i <= line && Contains(line, t) then KInvoked else KOther
    ensures line[0] == 'r' ==> Cascade(line, c, i, t, r, a, e) == if r <= line then KRequest else KOther
    ensures line[0] == 'a' ==> Cascade(line, c, i, t, r, a, e) == if a <= line then KAllowed else KOther
    ensures line[0] == 'e' ==> Cascade(line, c, i, t, r, a, e) == if e <= line then KEmitted else KOther
  {
  }

  lemma ClassifyByHead(line: string)
    requires line != ""
    ensures line[0] == 'i' ==> Classify(line) == if INVOKED <= line && Contains(line, TOOL) then KInvoked else KOther
    ensures line[0] == 'r' ==> Classify(line) == if REQUEST_EXPECTED <= line then KRequest else KOther
    ensures line[0] == 'a' ==> Classify(line) == if ALLOWED <= line then KAllowed else KOther
    ensures line[0] == 'e' ==> Classify(line) == if EMITTED <= line then KEmitted else KOther
  {
    CascadeByHead(line, CONNECTION, INVOKED, TOOL, REQUEST_EXPECTED, ALLOWED, EMITTED);
  }

  /** What the reader makes of any line at all. */
  lemma ClassifyExactly(line: string)
    ensures Classify(line) == KConnection <==> line == "broker connection"
    ensures Classify(line) == KInvoked <==> "invoked event=" <= line && Contains(line, " tool_hash=")
    ensures Classify(line) == KRequest <==> "request event=PermissionRequest " <= line
    ensures Classify(line) == KAllowed <==> "allowed one PermissionRequest tool_hash=" <= line
    ensures Classify(line) == KEmitted <==> "emitted one PermissionRequest tool_hash=" <= line
  {
    CascadeExactly(line, "broker connection", "invoked event=", " tool_hash=", "request event=PermissionRequest ",
                   "allowed one PermissionRequest tool_hash=", "emitted one PermissionRequest tool_hash=");
  }

  lemma CascadeExactly(line: string, c: string, i: string, t: string, r: string, a: string, e: string)
    requires c != "" && i != "" && r != "" && a != "" && e != ""
    requires c[0] == 'b' && i[0] == 'i' && r[0] == 'r' && a[0] == 'a' && e[0] == 'e'
    ensures Cascade(line, c, i, t, r, a, e) == KConnection <==> line == c
    ensures Cascade(line, c, i, t, r, a, e) == KInvoked <==> i <= line && Contains(line, t)
    ensures Cascade(line, c, i, t, r, a, e) == KRequest <==> r <= line
    ensures Cascade(line, c, i, t, r, a, e) == KAllowed <==> a <= line
    ensures Cascade(line, c, i, t, r, a, e) == KEmitted <==> e <= line
  {
  }

  lemma ClassifyRequest(event: Option<string>, tail: string)
    ensures var line := REQUEST + EventLabel(event) + TOOL + tail;
            REQUEST_EXPECTED <= line <==> event == Some(PERMISSION_REQUEST)
  {
    ExpectedHead();
    LabelApart(event);
    LabelDecides(REQUEST, EventLabel(event), PERMISSION_REQUEST, TOOL, tail);
  }

  lemma ExpectedHead()
    ensures REQUEST + PERMISSION_REQUEST + " " == REQUEST_EXPECTED
  {
  }

  lemma LabelApart(event: Option<string>)
    ensures EventLabel(event) == PERMISSION_REQUEST <==> event == Some(PERMISSION_REQUEST)
    ensures EventLabel(event) != "" && (EventLabel(event) == PERMISSION_REQUEST || EventLabel(event)[0] != PERMISSION_REQUEST[0])
  {
  }

  /** A label that differs from another at its first letter is told apart there. */
  lemma LabelDecides(prefix: string, shown: string, expected: string, space: string, tail: string)
    requires shown != "" && expected != "" && (shown == expected || shown[0] != expected[0])
    requires space != "" && space[0] == ' '
    ensures prefix + expected + " " <= prefix + shown + space + tail <==> shown == expected
  {
    var line, head := prefix + shown + space + tail, prefix + expected + " ";
    if shown == expected {
      assert space == " " + space[1..];
      assert line == head + (space[1..] + tail);
    } else {
      assert line[|prefix|] == shown[0] && head[|prefix|] == expected[0];
    }
  }

  lemma ClassifyInvokedLine(event: Option<string>, tool: string)
    ensures Classify(INVOKED + EventLabel(event) + TOOL + tool) == KInvoked
  {
    var line := INVOKED + EventLabel(event) + TOOL + tool;
    ContainsAt(INVOKED + EventLabel(event), TOOL, tool);
    assert line == INVOKED + (EventLabel(event) + TOOL + tool);
    ClassifyByHead(line);
  }

  lemma ClassifyRequestLine(event: Option<string>, tail: string)
    ensures Classify(REQUEST + EventLabel(event) + TOOL + tail)
            == if event == Some(PERMISSION_REQUEST) then KRequest else KOther
  {
    ClassifyRequest(event, tail);
    ClassifyByHead(REQUEST + EventLabel(event) + TOOL + tail);
  }

  lemma ClassifyAllowedLine(tail: string)
    ensures Classify(ALLOWED + tail) == KAllowed
  {
    ClassifyByHead(ALLOWED + tail);
  }

  lemma ClassifyEmittedLine(tail: string)
    ensures Classify(EMITTED + tail) == KEmitted
  {
    ClassifyByHead(EMITTED + tail);
  }

  lemma Regroup(a: string, b: string, c: string, d: string)
    ensures a + b + c + d == a + (b + c + d)
  {
  }

  /** The reader recognises exactly the kind of record that the writer meant,
      and calls a request line for any other event malformed. */
  lemma ClassifyLine(r: Record)
    ensures Classify(Line(r)) == if Readable(r) then KindOf(r) else KOther
  {
    match r
    case Connection =>
    case Invoked(event, tool) =>
      ClassifyInvokedLine(event, tool);
    case Request(event, tool, input) =>
      ClassifyRequestLine(event, tool + INPUT + InputHash(input));
      Regroup(REQUEST + EventLabel(event) + TOOL, tool, INPUT, InputHash(input));
    case Allowed(tool, input) =>
      ClassifyAllowedLine(tool + INPUT + InputHash(input));
      Regroup(ALLOWED, tool, INPUT, InputHash(input));
    case Emitted(tool, input) =>
      ClassifyEmittedLine(tool + INPUT + InputHash(input));
      Regroup(EMITTED, tool, INPUT, InputHash(input));
  }

  // ----- What a line tells -----

  function ToolOf(r: Record): Option<Hash> {
    match r
    case Connection => None
    case Invoked(_, tool) => Some(tool)
    case Request(_, tool, _) => Some(tool)
    case Allowed(tool, _) => Some(tool)
    case Emitted(tool, _) => Some(tool)
  }

  function InputOf(r: Record): Option<Hash> {
    match r
    case Connection => None
    case Invoked(_, _) => None
    case Request(_, _, input) => input
    case Allowed(_, input) => input
    case Emitted(_, input) => input
  }

  lemma DropHead(head: string, s: string, t: string)
    requires head + s == head + t
    ensures s == t
  {
    assert (head + s)[|head|..] == s && (head + t)[|head|..] == t;
  }

  lemma HashesTell(tool: Hash, input: Option<Hash>, tool': Hash, input': Option<Hash>, middle: string)
    requires tool + middle + InputHash(input) == tool' + middle + InputHash(input')
    ensures tool == tool' && input == input'
  {
    var s, t := tool + middle + InputHash(input), tool' + middle + InputHash(input');
    assert tool == s[..16] && tool' == t[..16];
    assert s == (tool + middle) + InputHash(input) && t == (tool + middle) + InputHash(input');
    DropHead(tool + middle, InputHash(input), InputHash(input'));
  }

  lemma LabelsTell(head: string, event: Option<string>, event': Option<string>, rest: string, rest': string)
    requires head + EventLabel(event) + rest == head + EventLabel(event') + rest'
    ensures EventLabel(event) == EventLabel(event') && rest == rest'
  {
    var a, b := EventLabel(event), EventLabel(event');
    assert (head + a + rest)[|head|] == a[0] && (head + b + rest')[|head|] == b[0];
    assert a[0] == b[0] ==> a == b;
    DropHead(head + a, rest, rest');
  }

  lemma TailTells(head: string, tool: Hash, input: Option<Hash>, tool': Hash, input': Option<Hash>, middle: string)
    requires head + tool + middle + InputHash(input) == head + tool' + middle + InputHash(input')
    ensures tool == tool' && input == input'
  {
    Regroup(head, tool, middle, InputHash(input));
    Regroup(head, tool', middle, InputHash(input'));
    DropHead(head, tool + middle + InputHash(input), tool' + middle + InputHash(input'));
    HashesTell(tool, input, tool', input', middle);
  }

  lemma InvokedTells(head: string, space: string, event: Option<string>, event': Option<string>, rest: string, rest': string)
    requires head + EventLabel(event) + space + rest == head + EventLabel(event') + space + rest'
    ensures EventLabel(event) == EventLabel(event') && rest == rest'
  {
    assert head + EventLabel(event) + space + rest == head + EventLabel(event) + (space + rest);
    assert head + EventLabel(event') + space + rest' == head + EventLabel(event') + (space + rest');
    LabelsTell(head, event, event', space + rest, space + rest');
    DropHead(space, rest, rest');
  }

  lemma RequestTells(head: string, space: string, event: Option<string>, event': Option<string>,
                     tool: Hash, input: Option<Hash>, tool': Hash, input': Option<Hash>, middle: string)
    requires head + EventLabel(event) + space + tool + middle + InputHash(input)
          == head + EventLabel(event') + space + tool' + middle + InputHash(input')
    ensures EventLabel(event) == EventLabel(event') && tool == tool' && input == input'
  {
    Regroup(head + EventLabel(event) + space, tool, middle, InputHash(input));
    Regroup(head + EventLabel(event') + space, tool', middle, InputHash(input'));
    InvokedTells(head, space, event, event', tool + middle + InputHash(input), tool' + middle + InputHash(input'));
    HashesTell(tool, input, tool', input', middle);
  }

  lemma LabelsApart(event: Option<string>, event': Option<string>)
    requires EventLabel(event) == EventLabel(event')
    ensures event == Some(PERMISSION_REQUEST) <==> event' == Some(PERMISSION_REQUEST)
  {
    LabelApart(event);
    LabelApart(event');
  }

  lemma FirstLetter(r: Record)
    ensures Line(r) != ""
    ensures Line(r)[0] == match r
      case Connection => 'b' case Invoked(_, _) => 'i' case Request(_, _, _) => 'r' case Allowed(_, _) => 'a' case Emitted(_, _) => 'e'
  {
  }

  /** Nothing that matters is lost in writing: from its line a record's kind, event
      class and hashes can be told. */
  lemma LineTells(r: Record, s: Record)
    requires Line(r) == Line(s)
    ensures KindOf(r) == KindOf(s) && ToolOf(r) == ToolOf(s) && InputOf(r) == InputOf(s)
    ensures Readable(r) <==> Readable(s)
  {
    FirstLetter(r);
    FirstLetter(s);
    match r
    case Connection =>
    case Invoked(event, tool) => InvokedTells(INVOKED, TOOL, event, s.event, tool, s.tool);
    case Request(event, tool, input) =>
      RequestTells(REQUEST, TOOL, event, s.event, tool, input, s.tool, s.input, INPUT);
      LabelsApart(event, s.event);
    case Allowed(tool, input) => TailTells(ALLOWED, tool, input, s.tool, s.input, INPUT);
    case Emitted(tool, input) => TailTells(EMITTED, tool, input, s.tool, s.input, INPUT);
  }

  predicate Plain(s: string) {
    forall i :: 0 <= i < |s| ==> s[i] as int < 0x80 && s[i] != '\n' && s[i] != '\r'
  }

  lemma PlainJoin(a: string, b: string)
    requires Plain(a) && Plain(b)
    ensures Plain(a + b)
  {
  }

  lemma EventLabelPlain(event: Option<string>)
    ensures Plain(EventLabel(event)) && |EventLabel(event)| <= 17
  {
  }

  lemma AllowedPlain()
    ensures Plain(ALLOWED) && |ALLOWED| == 40
  {
  }

  lemma EmittedPlain()
    ensures Plain(EMITTED) && |EMITTED| == 40
  {
  }

  lemma ShortLiteralsPlain()
    ensures Plain(TOOL) && |TOOL| == 11 && Plain(INPUT) && |INPUT| == 12
    ensures Plain(INVOKED) && |INVOKED| == 14 && Plain(REQUEST) && |REQUEST| == 14
  {
  }

  lemma HashesPlain(tail: string, tool: Hash, input: Option<Hash>)
    requires Plain(tail)
    ensures Plain(tail + tool) && Plain(tail + tool + INPUT + InputHash(input)) && |InputHash(input)| <= 16
  {
  }

  lemma LabelledPlain(prefix: string, event: Option<string>)
    requires Plain(prefix)
    ensures Plain(prefix + EventLabel(event) + TOOL)
  {
    ShortLiteralsPlain();
    EventLabelPlain(event);
    PlainJoin(prefix, EventLabel(event));
    PlainJoin(prefix + EventLabel(event), TOOL);
  }

  lemma LinePlain(r: Record)
    ensures Plain(Line(r)) && Line(r) != "" && |Line(r)| < 100
  {
    ShortLiteralsPlain();
    match r
    case Connection =>
    case Invoked(event, tool) =>
      EventLabelPlain(event);
      LabelledPlain(INVOKED, event);
      HashesPlain(INVOKED + EventLabel(event) + TOOL, tool, None);
    case Request(event, tool, input) =>
      EventLabelPlain(event);
      LabelledPlain(REQUEST, event);
      HashesPlain(REQUEST + EventLabel(event) + TOOL, tool, input);
    case Allowed(tool, input) =>
      AllowedPlain();
      HashesPlain(ALLOWED, tool, input);
    case Emitted(tool, input) =>
      EmittedPlain();
      HashesPlain(EMITTED, tool, input);
  }

  lemma NewlineAtIs(s: string, i: nat)
    requires i < |s| && s[i] == '\n' && forall k :: 0 <= k < i ==> s[k] != '\n'
    ensures NewlineAt(s) == i
  {
  }

  lemma LinesStep(s: string, i: nat, rest: string)
    requires i < |s| && NewlineAt(s) == i && rest == s[i + 1..]
    ensures Lines(s) == [Chomp(s[..i])] + Lines(rest)
  {
  }

  /** The two ends of a line that the reader takes off. */
  predicate IsEnd(end: string) {
    end == "\n" || end == "\r\n"
  }

  lemma LinesOne(line: string, end: string)
    requires Plain(line) && IsEnd(end)
    ensures Lines(line + end) == [line]
  {
    var t := line + end;
    NewlineAtIs(t, |t| - 1);
    assert t[|t| - 1 + 1..] == "";
    if end == "\n" {
      assert t[..|t| - 1] == line && Chomp(line) == line;
    } else {
      assert t[..|t| - 1] == line + "\r";
    }
    LinesStep(t, |t| - 1, "");
  }

  /** A newline inside `s` still ends the first line when more text follows. */
  lemma LinesStepLonger(s: string, i: nat, more: string)
    requires i < |s| && NewlineAt(s) == i
    ensures Lines(s + more) == [Chomp(s[..i])] + Lines(s[i + 1..] + more)
  {
    var t := s + more;
    NewlineAtIs(t, i);
    assert t[i + 1..] == s[i + 1..] + more;
    assert t[..i] == s[..i];
    LinesStep(t, i, s[i + 1..] + more);
  }

  predicate Terminated(s: string) {
    s == "" || s[|s| - 1] == '\n'
  }

  /** Appending one ended plain line appends one line. */
  lemma {:induction false} LinesAppend(s: string, line: string, end: string)
    requires Terminated(s) && Plain(line) && IsEnd(end)
    ensures Lines(s + (line + end)) == Lines(s) + [line]
    decreases |s|
  {
    if s == "" {
      assert s + (line + end) == line + end;
      LinesOne(line, end);
    } else {
      var i := NewlineAt(s);
      assert s[|s| - 1] == '\n';
      LinesStep(s, i, s[i + 1..]);
      LinesStepLonger(s, i, line + end);
      LinesAppend(s[i + 1..], line, end);
    }
  }

  lemma JoinedStep(text: string, lines: seq<string>, line: string, end: string)
    requires Terminated(text) && Lines(text) == lines && Plain(line) && IsEnd(end)
    ensures Lines(text + line + end) == lines + [line]
    ensures text + line + end != "" && Terminated(text + line + end)
  {
    assert text + line + end == text + (line + end);
    LinesAppend(text, line, end);
  }

  /** Splitting the file into lines gives back the lines that were appended. */
  lemma {:induction false} LinesOfJoined(lines: seq<string>)
    requires forall i :: 0 <= i < |lines| ==> Plain(lines[i])
    ensures Lines(Joined(lines)) == lines && Terminated(Joined(lines))
    ensures lines != [] ==> Joined(lines) != ""
  {
    if lines != [] {
      var front, last := lines[..|lines| - 1], lines[|lines| - 1];
      LinesOfJoined(front);
      JoinedStep(Joined(front), front, last, "\n");
      assert lines == front + [last];
    }
  }

  /** Lines with any ends. */
  function JoinedWith(lines: seq<string>, ends: seq<string>): string
    requires |lines| == |ends|
  {
    if lines == [] then ""
    else JoinedWith(lines[..|lines| - 1], ends[..|ends| - 1]) + lines[|lines| - 1] + ends[|ends| - 1]
  }

  /** The reader does not care which end a line has. */
  lemma {:induction false} LineEndsIrrelevant(lines: seq<string>, ends: seq<string>)
    requires |lines| == |ends| && forall i :: 0 <= i < |lines| ==> Plain(lines[i]) && IsEnd(ends[i])
    ensures Lines(JoinedWith(lines, ends)) == lines && Terminated(JoinedWith(lines, ends))
  {
    if lines != [] {
      var front, last := lines[..|lines| - 1], lines[|lines| - 1];
      LineEndsIrrelevant(front, ends[..|ends| - 1]);
      JoinedStep(JoinedWith(front, ends[..|ends| - 1]), front, last, ends[|ends| - 1]);
      assert lines == front + [last];
    }
  }

  lemma {:induction false} JoinedSize(lines: seq<string>)
    requires forall i :: 0 <= i < |lines| ==> Plain(lines[i]) && |lines[i]| < 100
    ensures Ascii(Joined(lines)) && |Joined(lines)| <= 100 * |lines|
  {
    if lines != [] {
      JoinedSize(lines[..|lines| - 1]);
    }
  }

  lemma LogLinesPlain(log: seq<Record>)
    ensures forall i :: 0 <= i < |log| ==> Plain(LinesOf(log)[i]) && |LinesOf(log)[i]| < 100
  {
    forall i | 0 <= i < |log| ensures Plain(LinesOf(log)[i]) && |LinesOf(log)[i]| < 100 {
      LinePlain(log[i]);
    }
  }

  // ----- The reader -----

  /** Attempts and counters after some lines. */
  datatype Tally = Tally(attempts: nat, counts: Counts)

  function Bump(value: nat, rebuilt: Tally): Result<Tally, OutcomeError> {
    if Increment(value).1 then Ok(rebuilt) else Err(TooManyRecords)
  }

  function ReadKind(t: Tally, kind: Kind): Result<Tally, OutcomeError> {
    match kind
    case KConnection => Bump(t.attempts, t.(attempts := t.attempts + 1))
    case KInvoked => Bump(t.counts.entry, t.(counts := t.counts.(entry := t.counts.entry + 1)))
    case KRequest =>
      Bump(t.counts.validatedRequest, t.(counts := t.counts.(validatedRequest := t.counts.validatedRequest + 1)))
    case KAllowed => Bump(t.counts.allow, t.(counts := t.counts.(allow := t.counts.allow + 1)))
    case KEmitted =>
      Bump(t.counts.allowUnconfirmed, t.(counts := t.counts.(allowUnconfirmed := t.counts.allowUnconfirmed + 1)))
    case KOther => Err(Malformed)
  }

  /** One pass over the kinds of the lines, up to the first fault. */
  function ReadKinds(kinds: seq<Kind>): Result<Tally, OutcomeError> {
    if kinds == [] then Ok(Tally(0, ZERO))
    else
      match ReadKinds(kinds[..|kinds| - 1])
      case Err(e) => Err(e)
      case Ok(t) => ReadKind(t, kinds[|kinds| - 1])
  }

  function Kinds(lines: seq<string>): (kinds: seq<Kind>)
    ensures |kinds| == |lines|
    ensures forall i :: 0 <= i < |lines| ==> kinds[i] == Classify(lines[i])
  {
    seq(|lines|, i requires 0 <= i < |lines| => Classify(lines[i]))
  }

  /** The closing consistency check and the conservative failure mark. */
  function Close(t: Tally): Result<Counts, OutcomeError> {
    var c := t.counts;
    if c.entry > t.attempts || c.validatedRequest > c.entry
       || c.allow > c.validatedRequest || c.allowUnconfirmed > c.allow then Err(Malformed)
    else if t.attempts > c.allowUnconfirmed then
      if t.attempts - c.allowUnconfirmed + c.noDecision > MAX_OUTCOME_COUNT then Err(TooManyRecords)
      else if !Increment(c.protocol).1 then Err(TooManyRecords)
      else Ok(c.(noDecision := c.noDecision + (t.attempts - c.allowUnconfirmed), protocol := c.protocol + 1))
    else Ok(c)
  }

  /** What `read_audit` reports for a file with these contents. */
  function ReadAudit(contents: string): Result<Counts, OutcomeError> {
    if ByteSize(contents) > MAX_AUDIT_BYTES then Err(TooManyRecords)
    else if contents == "" then Err(Unavailable)
    else
      match ReadKinds(Kinds(Lines(contents)))
      case Err(e) => Err(e)
      case Ok(t) => Close(t)
  }

  lemma {:induction false} ReadStopsAtError(kinds: seq<Kind>, k: nat)
    requires k <= |kinds| && ReadKinds(kinds[..k]).Err?
    ensures ReadKinds(kinds) == ReadKinds(kinds[..k])
    decreases |kinds|
  {
    if k < |kinds| {
      assert kinds[..|kinds| - 1][..k] == kinds[..k];
      ReadStopsAtError(kinds[..|kinds| - 1], k);
    } else {
      assert kinds[..k] == kinds;
    }
  }

  lemma {:induction false} ReadBound(kinds: seq<Kind>)
    requires ReadKinds(kinds).Ok?
    ensures ReadKinds(kinds).value.attempts <= MAX_OUTCOME_COUNT
    ensures ReadKinds(kinds).value.counts.Valid()
    ensures ReadKinds(kinds).value.counts.noDecision == 0 == ReadKinds(kinds).value.counts.protocol
  {
    if kinds != [] {
      ReadBound(kinds[..|kinds| - 1]);
    }
  }

  /** The reader as it runs: one pass over the lines that stops at the first fault. */
  method ReadAuditFile(contents: string) returns (error: Option<OutcomeError>, accumulator: SessionOutcomeAccumulator)
    ensures fresh(accumulator) && accumulator.Valid() && accumulator.recorded == []
    ensures error.Some? ==> ReadAudit(contents) == Err(error.value)
    ensures error.None? ==> ReadAudit(contents) == Ok(accumulator.counts)
  {
    accumulator := new SessionOutcomeAccumulator();
    if ByteSize(contents) > MAX_AUDIT_BYTES {
      return Some(TooManyRecords), accumulator;
    }
    if contents == "" {
      return Some(Unavailable), accumulator;
    }
    var attempts;
    error, attempts := Tabulate(Kinds(Lines(contents)), accumulator);
    if error.None? {
      ReadBound(Kinds(Lines(contents)));
      error := Settle(attempts, accumulator);
    }
  }

  /** One line: one counter is bumped, unless that is one too many. */
  method CountLine(kind: Kind, before: nat, accumulator: SessionOutcomeAccumulator)
    returns (error: Option<OutcomeError>, attempts: nat)
    requires before <= MAX_OUTCOME_COUNT && accumulator.counts.Valid()
    modifies accumulator`counts
    ensures error.Some? ==> ReadKind(Tally(before, old(accumulator.counts)), kind) == Err(error.value)
    ensures error.None? ==>
      ReadKind(Tally(before, old(accumulator.counts)), kind) == Ok(Tally(attempts, accumulator.counts))
  {
    var within;
    attempts := before;
    ghost var was := accumulator.counts;
    match kind {
      case KConnection =>
        var (n, fits) := Increment(attempts);
        attempts, within := n, fits;
      case KInvoked =>
        var (n, fits) := Increment(accumulator.counts.entry);
        accumulator.counts, within := accumulator.counts.(entry := n), fits;
      case KRequest =>
        var (n, fits) := Increment(accumulator.counts.validatedRequest);
        accumulator.counts, within := accumulator.counts.(validatedRequest := n), fits;
      case KAllowed =>
        var (n, fits) := Increment(accumulator.counts.allow);
        accumulator.counts, within := accumulator.counts.(allow := n), fits;
      case KEmitted =>
        within := accumulator.RecordHookOutcome(BrokerAllowUnconfirmed);
        CountsExtensional(accumulator.counts, was.(allowUnconfirmed := was.allowUnconfirmed + 1));
      case KOther =>
        return Some(Malformed), attempts;
    }
    error := if within then None else Some(TooManyRecords);
  }

  /** The loop over the lines. */
  method Tabulate(kinds: seq<Kind>, accumulator: SessionOutcomeAccumulator) returns (error: Option<OutcomeError>, attempts: nat)
    requires accumulator.counts == ZERO
    modifies accumulator`counts
    ensures error.Some? ==> ReadKinds(kinds) == Err(error.value)
    ensures error.None? ==> ReadKinds(kinds) == Ok(Tally(attempts, accumulator.counts))
  {
    attempts := 0;
    for i := 0 to |kinds|
      invariant ReadKinds(kinds[..i]) == Ok(Tally(attempts, accumulator.counts))
    {
      ReadBound(kinds[..i]);
      assert kinds[..i + 1][..i] == kinds[..i];
      error, attempts := CountLine(kinds[i], attempts, accumulator);
      if error.Some? {
        ReadStopsAtError(kinds, i + 1);
        return;
      }
    }
    assert kinds[..|kinds|] == kinds;
    error := None;
  }

  /** The consistency check and the failure mark after the loop. */
  method Settle(attempts: nat, accumulator: SessionOutcomeAccumulator) returns (error: Option<OutcomeError>)
    requires accumulator.counts.noDecision == 0 == accumulator.counts.protocol
    modifies accumulator`counts
    ensures error.Some? ==> Close(Tally(attempts, old(accumulator.counts))) == Err(error.value)
    ensures error.None? ==> Close(Tally(attempts, old(accumulator.counts))) == Ok(accumulator.counts)
  {
    var counts := accumulator.counts;
    if counts.entry > attempts || counts.validatedRequest > counts.entry
       || counts.allow > counts.validatedRequest || counts.allowUnconfirmed > counts.allow {
      return Some(Malformed);
    }
    if attempts > counts.allowUnconfirmed {
      for k := counts.allowUnconfirmed to attempts
        invariant accumulator.counts == counts.(noDecision := k - counts.allowUnconfirmed)
        invariant k - counts.allowUnconfirmed <= MAX_OUTCOME_COUNT
      {
        var (n, fits) := Increment(accumulator.counts.noDecision);
        accumulator.counts := accumulator.counts.(noDecision := n);
        if !fits {
          return Some(TooManyRecords);
        }
      }
      ghost var filled := accumulator.counts;
      var fits := accumulator.RecordHookOutcome(ProtocolFailure);
      CountsExtensional(accumulator.counts, filled.(protocol := filled.protocol + 1));
    }
    return None;
  }

  // ----- What the reader accepts, whoever wrote the file -----

  function NumberOf(kinds: seq<Kind>, kind: Kind): nat {
    if kinds == [] then 0
    else NumberOf(kinds[..|kinds| - 1], kind) + if kinds[|kinds| - 1] == kind then 1 else 0
  }

  /** Every line has a known form, and none has it more than 64 times. */
  ghost predicate Countable(kinds: seq<Kind>) {
    && NumberOf(kinds, KOther) == 0
    && NumberOf(kinds, KConnection) <= 64 && NumberOf(kinds, KInvoked) <= 64 && NumberOf(kinds, KRequest) <= 64
    && NumberOf(kinds, KAllowed) <= 64 && NumberOf(kinds, KEmitted) <= 64
  }

  function Numbers(kinds: seq<Kind>): Tally {
    Tally(NumberOf(kinds, KConnection),
          Counts(NumberOf(kinds, KInvoked), NumberOf(kinds, KRequest), NumberOf(kinds, KAllowed), 0,
                 0, 0, 0, NumberOf(kinds, KEmitted), 0, 0, 0))
  }

  /** One pass accepts exactly the countable files, with the number of each form;
      otherwise the first line that is one too many, or of no form, decides. */
  lemma {:induction false} ReadKindsExactly(kinds: seq<Kind>)
    ensures if Countable(kinds) then ReadKinds(kinds) == Ok(Numbers(kinds))
            else exists n :: 0 <= n < |kinds| && Countable(kinds[..n]) && !Countable(kinds[..n + 1])
                   && ReadKinds(kinds) == Err(if kinds[n] == KOther then Malformed else TooManyRecords)
  {
    if kinds != [] {
      var n := |kinds| - 1;
      var front := kinds[..n];
      ReadKindsExactly(front);
      assert kinds[..n + 1] == kinds;
      if !Countable(front) {
        var k :| 0 <= k < |front| && Countable(front[..k]) && !Countable(front[..k + 1])
          && ReadKinds(front) == Err(if front[k] == KOther then Malformed else TooManyRecords);
        assert kinds[..k] == front[..k] && kinds[..k + 1] == front[..k + 1] && kinds[k] == front[k];
      } else {
        NextKind(front, kinds[n]);
        assert kinds == front + [kinds[n]];
      }
    }
  }

  lemma NextKind(front: seq<Kind>, kind: Kind)
    requires Countable(front)
    ensures Countable(front + [kind]) ==> ReadKind(Numbers(front), kind) == Ok(Numbers(front + [kind]))
    ensures !Countable(front + [kind]) ==>
              ReadKind(Numbers(front), kind) == Err(if kind == KOther then Malformed else TooManyRecords)
  {
    assert (front + [kind])[..|front|] == front;
  }

  /** No more invocations than connections, and so on down to the emissions. */
  predicate Descending(t: Tally) {
    t.attempts >= t.counts.entry >= t.counts.validatedRequest >= t.counts.allow >= t.counts.allowUnconfirmed
  }

  /** The numbers, with a missing decision for each connection that emitted nothing
      and one protocol failure if there is any. */
  function Closed(t: Tally): Counts
    requires Descending(t)
  {
    var missing := t.attempts - t.counts.allowUnconfirmed;
    t.counts.(noDecision := missing, protocol := if missing == 0 then 0 else 1)
  }

  /** A file is accepted exactly when it is neither empty nor over 64 KiB, each line
      has a known form and none more than 64 times, and the numbers descend. */
  lemma ReadAuditExactly(contents: string, c: Counts)
    ensures var kinds := Kinds(Lines(contents));
      ReadAudit(contents) == Ok(c) <==>
        && contents != "" && ByteSize(contents) <= 65_536
        && Countable(kinds) && Descending(Numbers(kinds)) && c == Closed(Numbers(kinds))
  {
    var kinds := Kinds(Lines(contents));
    ReadKindsExactly(kinds);
    if Countable(kinds) {
      CloseExactly(kinds);
    }
  }

  lemma CloseExactly(kinds: seq<Kind>)
    requires Countable(kinds)
    ensures Close(Numbers(kinds)) == if Descending(Numbers(kinds)) then Ok(Closed(Numbers(kinds))) else Err(Malformed)
  {
  }

  // ----- What the reader reconstructs -----

  predicate Ordered(log: seq<Record>) {
    Count(log, KConnection) >= Count(log, KInvoked) >= Count(log, KRequest)
      >= Count(log, KAllowed) >= Count(log, KEmitted)
  }

  /** Every prefix has connections >= invoked >= requests >= allowed >= emitted. */
  ghost predicate PrefixOrdered(log: seq<Record>) {
    forall n :: 0 <= n <= |log| ==> Ordered(log[..n])
  }

  ghost predicate AllReadable(log: seq<Record>) {
    forall i :: 0 <= i < |log| ==> Readable(log[i])
  }

  /** The counters that a log stands for. */
  function Summary(log: seq<Record>): (c: Counts)
    requires Ordered(log)
  {
    var missing := Count(log, KConnection) - Count(log, KEmitted);
    ZERO.(entry := Count(log, KInvoked), validatedRequest := Count(log, KRequest),
          allow := Count(log, KAllowed), allowUnconfirmed := Count(log, KEmitted),
          noDecision := missing, protocol := if missing > 0 then 1 else 0)
  }

  function TallyOf(log: seq<Record>): Tally {
    Tally(Count(log, KConnection),
          ZERO.(entry := Count(log, KInvoked), validatedRequest := Count(log, KRequest),
                allow := Count(log, KAllowed), allowUnconfirmed := Count(log, KEmitted)))
  }

  lemma PrefixOfPrefix(log: seq<Record>, n: nat)
    requires n <= |log| && PrefixOrdered(log) && AllReadable(log)
    ensures PrefixOrdered(log[..n]) && AllReadable(log[..n])
  {
    forall k | 0 <= k <= n ensures Ordered(log[..n][..k]) {
      assert log[..n][..k] == log[..k];
    }
  }

  lemma TallyStep(front: seq<Record>, last: Record)
    requires Ordered(front) && Ordered(front + [last]) && Count(front, KConnection) <= MAX_OUTCOME_COUNT
    ensures ReadKind(TallyOf(front), KindOf(last)) ==
            if Count(front + [last], KConnection) <= MAX_OUTCOME_COUNT then Ok(TallyOf(front + [last]))
            else Err(TooManyRecords)
  {
    var log := front + [last];
    assert log[..|log| - 1] == front;
  }

  lemma {:induction false} ReadPrefix(log: seq<Record>, kinds: seq<Kind>)
    requires PrefixOrdered(log) && AllReadable(log)
    requires |kinds| == |log| && forall i :: 0 <= i < |log| ==> kinds[i] == KindOf(log[i])
    ensures ReadKinds(kinds) ==
            if Count(log, KConnection) <= MAX_OUTCOME_COUNT then Ok(TallyOf(log)) else Err(TooManyRecords)
  {
    assert log == log[..|log|];
    if log != [] {
      var front := log[..|log| - 1];
      PrefixOfPrefix(log, |log| - 1);
      ReadPrefix(front, kinds[..|kinds| - 1]);
      assert Ordered(log) && Ordered(front);
      assert log == front + [log[|log| - 1]];
      if Count(front, KConnection) <= MAX_OUTCOME_COUNT {
        TallyStep(front, log[|log| - 1]);
      }
    }
  }

  /** The kinds read back from the file are the kinds that were written. */
  lemma KindsOfText(log: seq<Record>)
    requires AllReadable(log)
    ensures |Kinds(Lines(Text(log)))| == |log|
    ensures forall i :: 0 <= i < |log| ==> Kinds(Lines(Text(log)))[i] == KindOf(log[i])
  {
    LogLinesPlain(log);
    LinesOfJoined(LinesOf(log));
    forall i | 0 <= i < |log| ensures Kinds(Lines(Text(log)))[i] == KindOf(log[i]) {
      ClassifyLine(log[i]);
    }
  }

  lemma {:induction false} LogLength(log: seq<Record>)
    ensures |log| == Count(log, KConnection) + Count(log, KInvoked) + Count(log, KRequest)
                     + Count(log, KAllowed) + Count(log, KEmitted)
  {
    if log != [] {
      LogLength(log[..|log| - 1]);
    }
  }

  lemma TextFits(log: seq<Record>)
    ensures ByteSize(Text(log)) <= 100 * |log|
    ensures log != [] ==> Text(log) != ""
  {
    LogLinesPlain(log);
    LinesOfJoined(LinesOf(log));
    JoinedSize(LinesOf(log));
    AsciiSize(Text(log));
  }

  lemma CloseTally(log: seq<Record>)
    requires Ordered(log) && Count(log, KConnection) <= MAX_OUTCOME_COUNT
    ensures Close(TallyOf(log)) == Ok(Summary(log))
  {
  }

  lemma ReadContents(contents: string, log: seq<Record>)
    requires Ordered(log) && contents != "" && ByteSize(contents) <= 100 * |log|
    requires ReadKinds(Kinds(Lines(contents))) ==
             if Count(log, KConnection) <= MAX_OUTCOME_COUNT then Ok(TallyOf(log)) else Err(TooManyRecords)
    ensures ReadAudit(contents) ==
            if Count(log, KConnection) > MAX_OUTCOME_COUNT then Err(TooManyRecords) else Ok(Summary(log))
  {
    LogLength(log);
    if Count(log, KConnection) <= MAX_OUTCOME_COUNT {
      CloseTally(log);
    }
  }

  /** On a non-empty log whose prefixes are ordered, the reader is never
      confused: it gives up exactly when more than 64 connections were made and
      otherwise returns the exact counts. */
  lemma ReadOrderedLog(log: seq<Record>)
    requires log != [] && PrefixOrdered(log) && AllReadable(log)
    ensures Ordered(log)
    ensures ReadAudit(Text(log)) ==
            if Count(log, KConnection) > MAX_OUTCOME_COUNT then Err(TooManyRecords) else Ok(Summary(log))
  {
    assert log == log[..|log|];
    KindsOfText(log);
    ReadPrefix(log, Kinds(Lines(Text(log))));
    TextFits(log);
    ReadContents(Text(log), log);
  }
}
