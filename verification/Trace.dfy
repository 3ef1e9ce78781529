// The acceptor for a Codex execution trace (scripts/inspect_exec_trace.py): a
// single loop over events that keeps counters and the command in progress. It is
// proved to accept exactly a small language of event sequences.
module Trace {
  import opened Common

  const MAX_TRACE_BYTES: nat := 2 * 1024 * 1024
  const MAX_LINE_BYTES: nat := 256 * 1024

  datatype Json =
    | Null
    | Bool(flag: bool)
    | Int(number: int)
    | Float
    | Text(text: string)
    | List(items: seq<Json>)
    | Object(fields: map<string, Json>)

  /** One line of the file: its length and what it parses to, if it does. */
  datatype Line = Line(size: nat, value: Option<Json>)

  datatype Error =
    | BadCommand | BadBody | BadLine | NoType | BadThreadStart | BadTurnStart | BadTurnEnd
    | ItemOutsideTurn | BadItem | WrongCommand | BadCommandItem | UnexpectedEvent | Incomplete

  /** `dict.get`. */
  function Get(fields: map<string, Json>, key: string): Option<Json> {
    if key in fields then Some(fields[key]) else None
  }

  predicate NonEmptyText(value: Option<Json>) {
    value.Some? && value.value.Text? && value.value.text != ""
  }

  predicate IsText(value: Option<Json>, text: string) {
    value == Some(Text(text))
  }

  /** `dict.get(key) is None`. */
  predicate Absent(value: Option<Json>) {
    value == None || value == Some(Null)
  }

  predicate IdleType(value: Option<Json>) {
    IsText(value, "agent_message") || IsText(value, "reasoning") || IsText(value, "todo_list")
  }

  // ----- The language ---------------------------------------------------

  /** What one event says, on its own. */
  datatype Symbol =
    | ThreadStarted
    | TurnStarted
    | Idle
    | Started(id: string)
    | Updated(id: string)
    | Completed(id: string)
    | TurnCompleted
    | Invalid

  predicate InProgress(item: map<string, Json>) {
    IsText(Get(item, "status"), "in_progress") && Absent(Get(item, "exit_code"))
  }

  predicate Succeeded(item: map<string, Json>) {
    IsText(Get(item, "status"), "completed") && Get(item, "exit_code") == Some(Int(0))
  }

  datatype Phase = Start | Update | Complete

  datatype Kind = ThreadKind | TurnStartKind | TurnEndKind | ItemKind(phase: Phase) | StrayItem | OtherKind

  function KindOf(kind: string): Kind {
    if kind == "thread.started" then ThreadKind
    else if kind == "turn.started" then TurnStartKind
    else if kind == "turn.completed" then TurnEndKind
    else if "item." <= kind then
      if kind == "item.started" then ItemKind(Start)
      else if kind == "item.updated" then ItemKind(Update)
      else if kind == "item.completed" then ItemKind(Complete)
      else StrayItem
    else OtherKind
  }

  /** The item types matter only up to this. */
  datatype ItemType = IdleItem | CommandItem | ActionItem

  function ItemTypeOf(value: Option<Json>): ItemType {
    if IdleType(value) then IdleItem
    else if IsText(value, "command_execution") then CommandItem
    else ActionItem
  }

  function CommandSymbol(phase: Phase, item: map<string, Json>, id: string): Symbol {
    match phase
    case Start => if InProgress(item) then Started(id) else Invalid
    case Update => if InProgress(item) then Updated(id) else Invalid
    case Complete => if Succeeded(item) then Completed(id) else Invalid
  }

  function ItemSymbol(phase: Phase, value: Option<Json>, command: string): Symbol {
    if !(value.Some? && value.value.Object?) then Invalid
    else
      var item := value.value.fields;
      var id := Get(item, "id");
      if !NonEmptyText(id) then Invalid
      else match ItemTypeOf(Get(item, "type"))
        case IdleItem => Idle
        case ActionItem => Invalid
        case CommandItem =>
          if IsText(Get(item, "command"), command) then CommandSymbol(phase, item, id.value.text) else Invalid
  }

  function KindSymbol(kind: Kind, thread: Option<Json>, item: Option<Json>, command: string): Symbol {
    match kind
    case ThreadKind => if NonEmptyText(thread) then ThreadStarted else Invalid
    case TurnStartKind => TurnStarted
    case TurnEndKind => TurnCompleted
    case ItemKind(phase) => ItemSymbol(phase, item, command)
    case _ => Invalid
  }

  function SymbolOf(event: Option<Json>, command: string): Symbol {
    if !(event.Some? && event.value.Object?) then Invalid
    else
      var fields := event.value.fields;
      var kind := Get(fields, "type");
      if kind.Some? && kind.value.Text? then
        KindSymbol(KindOf(kind.value.text), Get(fields, "thread_id"), Get(fields, "item"), command)
      else Invalid
  }

  ghost predicate AllIdle(w: seq<Symbol>, from: nat, to: nat) {
    forall k :: from <= k < to && k < |w| ==> w[k] == Idle
  }

  ghost predicate AllQuiet(w: seq<Symbol>, from: nat, to: nat, id: string) {
    forall k :: from <= k < to && k < |w| ==> w[k] == Idle || w[k] == Updated(id)
  }

  /** Thread start, turn start, idle items, one command start, updates of that
      command among idle items, its success, idle items, turn completion. */
  ghost predicate Sentence(w: seq<Symbol>, id: string, start: nat, end: nat) {
    && 2 <= start < end < |w| - 1
    && w[0] == ThreadStarted && w[1] == TurnStarted
    && AllIdle(w, 2, start)
    && w[start] == Started(id)
    && AllQuiet(w, start + 1, end, id)
    && w[end] == Completed(id)
    && AllIdle(w, end + 1, |w| - 1)
    && w[|w| - 1] == TurnCompleted
  }

  // ----- The automaton --------------------------------------------------

  datatype State = Init | Opened | InTurn | Running(id: string) | Done | Closed | Dead

  function Step(s: State, a: Symbol): State {
    match s
    case Init => if a == ThreadStarted then Opened else Dead
    case Opened => if a == TurnStarted then InTurn else Dead
    case InTurn => if a == Idle then InTurn else if a.Started? then Running(a.id) else Dead
    case Running(id) =>
      if a == Idle || a == Updated(id) then s else if a == Completed(id) then Done else Dead
    case Done => if a == Idle then Done else if a == TurnCompleted then Closed else Dead
    case Closed => Dead
    case Dead => Dead
  }

  function Run(w: seq<Symbol>): State {
    if w == [] then Init else Step(Run(w[..|w| - 1]), w[|w| - 1])
  }

  /** What has been read when the automaton is in state `s`. */
  ghost predicate Read(s: State, w: seq<Symbol>, id: string, start: nat, end: nat) {
    match s
    case Init => w == []
    case Opened => w == [ThreadStarted]
    case InTurn => Beginning(w) && AllIdle(w, 2, |w|)
    case Running(x) => x == id && Begun(w, id, start) && AllQuiet(w, start + 1, |w|, id)
    case Done => Ended(w, id, start, end) && AllIdle(w, end + 1, |w|)
    case Closed => Sentence(w, id, start, end)
    case Dead => false
  }

  ghost predicate Beginning(w: seq<Symbol>) {
    |w| >= 2 && w[0] == ThreadStarted && w[1] == TurnStarted
  }

  ghost predicate Begun(w: seq<Symbol>, id: string, start: nat) {
    Beginning(w) && 2 <= start < |w| && AllIdle(w, 2, start) && w[start] == Started(id)
  }

  ghost predicate Ended(w: seq<Symbol>, id: string, start: nat, end: nat) {
    && Begun(w, id, start) && start < end < |w|
    && AllQuiet(w, start + 1, end, id)
    && w[end] == Completed(id)
  }

  lemma {:induction false} RunReads(w: seq<Symbol>) returns (id: string, start: nat, end: nat)
    requires Run(w) != Dead
    ensures Read(Run(w), w, id, start, end)
  {
    if w == [] {
      id, start, end := "", 0, 0;
    } else {
      var before, a := w[..|w| - 1], w[|w| - 1];
      id, start, end := RunReads(before);
      match Run(before)
      case InTurn => if a.Started? { id, start := a.id, |w| - 1; }
      case Running(_) => if a == Completed(id) { end := |w| - 1; }
      case _ =>
    }
  }

  /** A sequence of some shape, less its last symbol, has the shape before it. */
  lemma {:induction false} ReadRuns(s: State, w: seq<Symbol>, id: string, start: nat, end: nat)
    requires Read(s, w, id, start, end)
    ensures Run(w) == s
    decreases |w|
  {
    if w != [] {
      var before, a := w[..|w| - 1], w[|w| - 1];
      match s
      case Opened => ReadRuns(Init, before, id, start, end);
      case InTurn => ReadRuns(if |w| == 2 then Opened else InTurn, before, id, start, end);
      case Running(_) => ReadRuns(if start == |w| - 1 then InTurn else s, before, id, start, end);
      case Done => ReadRuns(if end == |w| - 1 then Running(id) else Done, before, id, start, end);
      case Closed => ReadRuns(Done, before, id, start, end);
    }
  }

  /** The automaton accepts the sentences and nothing else. */
  lemma ClosedExactly(w: seq<Symbol>)
    ensures Run(w) == Closed <==> exists id, start, end :: Sentence(w, id, start, end)
  {
    if Run(w) == Closed {
      var id, start, end := RunReads(w);
      assert Sentence(w, id, start, end);
    }
    if exists id, start, end :: Sentence(w, id, start, end) {
      var id, start, end :| Sentence(w, id, start, end);
      ReadRuns(Closed, w, id, start, end);
    }
  }

  lemma {:induction false} DeadStays(w: seq<Symbol>, n: nat)
    requires n <= |w| && Run(w[..n]) == Dead
    ensures Run(w) == Dead
  {
    if n == |w| {
      assert w[..n] == w;
    } else {
      assert w[..|w| - 1][..n] == w[..n];
      DeadStays(w[..|w| - 1], n);
    }
  }

  // ----- What the symbols stand for -------------------------------------

  /** The object has this field with this value. */
  predicate Has(fields: map<string, Json>, key: string, value: Json) {
    key in fields && fields[key] == value
  }

  predicate HasNo(fields: map<string, Json>, key: string) {
    key in fields ==> fields[key] == Null
  }

  /** The event is an object of this type. */
  predicate OfType(event: Option<Json>, kind: string) {
    event.Some? && event.value.Object? && Has(event.value.fields, "type", Text(kind))
  }

  /** The event opens a thread with an identity of its own. */
  ghost predicate OpensThread(event: Option<Json>) {
    OfType(event, "thread.started")
    && exists id :: id != "" && Has(event.value.fields, "thread_id", Text(id))
  }

  /** The event is of this type and about this item. */
  predicate About(event: Option<Json>, kind: string, item: map<string, Json>) {
    OfType(event, kind) && Has(event.value.fields, "item", Object(item))
  }

  /** The item is the execution `id` of the command, with this status. */
  predicate Execution(item: map<string, Json>, command: string, id: string, status: string) {
    && Has(item, "type", Text("command_execution")) && Has(item, "command", Text(command))
    && id != "" && Has(item, "id", Text(id)) && Has(item, "status", Text(status))
  }

  predicate Waiting(item: map<string, Json>, command: string, id: string) {
    Execution(item, command, id, "in_progress") && HasNo(item, "exit_code")
  }

  predicate Finished(item: map<string, Json>, command: string, id: string) {
    Execution(item, command, id, "completed") && Has(item, "exit_code", Int(0))
  }

  ghost predicate StartsCommand(event: Option<Json>, command: string, id: string) {
    exists item :: About(event, "item.started", item) && Waiting(item, command, id)
  }

  ghost predicate UpdatesCommand(event: Option<Json>, command: string, id: string) {
    exists item :: About(event, "item.updated", item) && Waiting(item, command, id)
  }

  /** The command ended with exit code zero. */
  ghost predicate EndsCommand(event: Option<Json>, command: string, id: string) {
    exists item :: About(event, "item.completed", item) && Finished(item, command, id)
  }

  ghost predicate HarmlessItem(item: map<string, Json>) {
    && (exists id :: id != "" && Has(item, "id", Text(id)))
    && (Has(item, "type", Text("agent_message")) || Has(item, "type", Text("reasoning")) || Has(item, "type", Text("todo_list")))
  }

  /** The event is about an item that does nothing. */
  ghost predicate Harmless(event: Option<Json>) {
    exists item ::
      && (About(event, "item.started", item) || About(event, "item.updated", item) || About(event, "item.completed", item))
      && HarmlessItem(item)
  }

  lemma KindsMean(kind: string)
    ensures KindOf(kind) == ThreadKind <==> kind == "thread.started"
    ensures KindOf(kind) == TurnStartKind <==> kind == "turn.started"
    ensures KindOf(kind) == TurnEndKind <==> kind == "turn.completed"
  {
  }

  lemma ItemKindsMean(kind: string)
    ensures KindOf(kind) == ItemKind(Start) <==> kind == "item.started"
    ensures KindOf(kind) == ItemKind(Update) <==> kind == "item.updated"
    ensures KindOf(kind) == ItemKind(Complete) <==> kind == "item.completed"
  {
  }

  lemma ItemTypesMean(item: map<string, Json>)
    ensures ItemTypeOf(Get(item, "type")) == CommandItem <==> Has(item, "type", Text("command_execution"))
    ensures ItemTypeOf(Get(item, "type")) == IdleItem <==>
      Has(item, "type", Text("agent_message")) || Has(item, "type", Text("reasoning")) || Has(item, "type", Text("todo_list"))
  {
  }

  lemma ItemSymbolMeans(phase: Phase, item: map<string, Json>, command: string, id: string)
    ensures var a := ItemSymbol(phase, Some(Object(item)), command);
      && (a == Started(id) <==> phase == Start && Waiting(item, command, id))
      && (a == Updated(id) <==> phase == Update && Waiting(item, command, id))
      && (a == Completed(id) <==> phase == Complete && Finished(item, command, id))
      && (a == Idle <==> HarmlessItem(item))
  {
    ItemTypesMean(item);
  }

  lemma PhaseSymbolMeans(phase: Phase, value: Option<Json>, command: string, id: string)
    ensures var a := ItemSymbol(phase, value, command);
      && (a == Started(id) <==> phase == Start && exists item :: value == Some(Object(item)) && Waiting(item, command, id))
      && (a == Updated(id) <==> phase == Update && exists item :: value == Some(Object(item)) && Waiting(item, command, id))
      && (a == Completed(id) <==> phase == Complete && exists item :: value == Some(Object(item)) && Finished(item, command, id))
      && (a == Idle <==> exists item :: value == Some(Object(item)) && HarmlessItem(item))
  {
    if value.Some? && value.value.Object? {
      ItemSymbolMeans(phase, value.value.fields, command, id);
    }
  }

  /** The event's own fields say what the symbol stands for. */
  ghost predicate Says(event: Option<Json>, command: string, a: Symbol) {
    match a
    case ThreadStarted => OpensThread(event)
    case TurnStarted => OfType(event, "turn.started")
    case TurnCompleted => OfType(event, "turn.completed")
    case Started(id) => StartsCommand(event, command, id)
    case Updated(id) => UpdatesCommand(event, command, id)
    case Completed(id) => EndsCommand(event, command, id)
    case Idle => Harmless(event)
    case Invalid => false
  }

  lemma SymbolMeans(event: Option<Json>, command: string, a: Symbol)
    requires a != Invalid
    ensures SymbolOf(event, command) == a <==> Says(event, command, a)
  {
    if event.Some? && event.value.Object? {
      var fields := event.value.fields;
      var kind, value := Get(fields, "type"), Get(fields, "item");
      if kind.Some? && kind.value.Text? {
        KindsMean(kind.value.text);
        ItemKindsMean(kind.value.text);
        ItemField(event, value);
        match KindOf(kind.value.text)
        case ItemKind(phase) => PhaseSymbolMeans(phase, value, command, if a.Started? || a.Updated? || a.Completed? then a.id else "");
        case _ =>
      }
    }
  }

  lemma ItemField(event: Option<Json>, value: Option<Json>)
    requires event.Some? && event.value.Object? && value == Get(event.value.fields, "item")
    ensures forall kind, item :: About(event, kind, item) <==> OfType(event, kind) && value == Some(Object(item))
  {
  }

  // ----- The loop -------------------------------------------------------

  function Symbols(lines: seq<Line>, command: string): (w: seq<Symbol>)
    ensures |w| == |lines|
  {
    if lines == [] then [] else [SymbolOf(lines[0].value, command)] + Symbols(lines[1..], command)
  }

  lemma {:induction false} SymbolAt(lines: seq<Line>, command: string, i: nat)
    requires i < |lines|
    ensures Symbols(lines, command)[i] == SymbolOf(lines[i].value, command)
  {
    if i > 0 {
      SymbolAt(lines[1..], command, i - 1);
    }
  }

  /** The variables of the loop when it has not failed. */
  datatype Counters = Counters(threads: nat, turns: nat, ends: nat, id: Option<string>, completed: bool)

  function CountersOf(s: State, id: string): Counters {
    match s
    case Init => Counters(0, 0, 0, None, false)
    case Opened => Counters(1, 0, 0, None, false)
    case InTurn => Counters(1, 1, 0, None, false)
    case Running(x) => Counters(1, 1, 0, Some(x), false)
    case Done => Counters(1, 1, 0, Some(id), true)
    case Closed => Counters(1, 1, 1, Some(id), true)
    case Dead => Counters(0, 0, 0, None, true)
  }

  /** The identity of the command, once it is done. */
  function Last(s: State, last: string): string {
    if s.Running? then s.id else last
  }

  /** An event fails exactly when the automaton dies, and otherwise the counters follow it. */
  ghost predicate Moves(s: State, a: Symbol, last: string, error: Option<Error>, after: Counters) {
    var next := Step(s, a);
    if next == Dead then error.Some? else error.None? && after == CountersOf(next, Last(s, last))
  }

  predicate LineFits(line: Line) {
    0 < line.size <= MAX_LINE_BYTES
  }

  predicate OneLine(command: string) {
    command != "" && '\n' !in command && '\r' !in command
  }

  /** An event of the command that was asked for. */
  method CheckCommand(phase: Phase, item: map<string, Json>, id: string, c: Counters, ghost s: State, ghost last: string)
    returns (error: Option<Error>, after: Counters)
    requires s != Dead && c == CountersOf(s, last) && c.turns == 1 && c.ends == 0
    ensures Moves(s, CommandSymbol(phase, item, id), last, error, after)
  {
    error, after := None, c;
    match phase
    case Start =>
      if c.id.Some? || c.completed || !InProgress(item) { return Some(BadCommandItem), c; }
      after := c.(id := Some(id));
    case Update =>
      if Some(id) != c.id || c.completed || !InProgress(item) { error := Some(BadCommandItem); }
    case Complete =>
      if Some(id) != c.id || c.completed || !Succeeded(item) { return Some(BadCommandItem), c; }
      after := c.(completed := true);
  }

  /** The branch for `item.` events. */
  method CheckItem(phase: Phase, value: Option<Json>, command: string, c: Counters, ghost s: State, ghost last: string)
    returns (error: Option<Error>, after: Counters)
    requires s != Dead && c == CountersOf(s, last)
    ensures Moves(s, ItemSymbol(phase, value, command), last, error, after)
  {
    error, after := None, c;
    if c.turns != 1 || c.ends > 0 { return Some(ItemOutsideTurn), c; }
    if value.None? || !value.value.Object? { return Some(BadItem), c; }
    var item := value.value.fields;
    var id := Get(item, "id");
    if !NonEmptyText(id) { return Some(BadItem), c; }
    match ItemTypeOf(Get(item, "type"))
    case ActionItem => error := Some(BadItem);
    case IdleItem =>
    case CommandItem =>
      if !IsText(Get(item, "command"), command) { return Some(WrongCommand), c; }
      error, after := CheckCommand(phase, item, id.value.text, c, s, last);
  }

  /** One event, by its kind. */
  method CheckKind(kind: Kind, thread: Option<Json>, item: Option<Json>, command: string, eventCount: nat,
                   c: Counters, ghost s: State, ghost last: string)
    returns (error: Option<Error>, after: Counters)
    requires s != Dead && c == CountersOf(s, last)
    requires eventCount == 1 <==> s == Init
    ensures Moves(s, KindSymbol(kind, thread, item, command), last, error, after)
  {
    error, after := None, c;
    match kind
    case ThreadKind =>
      after := c.(threads := c.threads + 1);
      if eventCount != 1 || !NonEmptyText(thread) { error := Some(BadThreadStart); }
    case TurnStartKind =>
      after := c.(turns := c.turns + 1);
      if after.threads != 1 || after.turns != 1 || after.ends > 0 { error := Some(BadTurnStart); }
    case TurnEndKind =>
      after := c.(ends := c.ends + 1);
      if after.turns != 1 || after.ends != 1 || !after.completed { error := Some(BadTurnEnd); }
    case ItemKind(phase) =>
      error, after := CheckItem(phase, item, command, c, s, last);
    case StrayItem => error := Some(BadItem);
    case OtherKind => error := Some(UnexpectedEvent);
  }

  method CheckEvent(event: Option<Json>, command: string, eventCount: nat, c: Counters, ghost s: State, ghost last: string)
    returns (error: Option<Error>, after: Counters)
    requires s != Dead && c == CountersOf(s, last)
    requires eventCount == 1 <==> s == Init
    ensures Moves(s, SymbolOf(event, command), last, error, after)
  {
    if event.None? || !event.value.Object? { return Some(NoType), c; }
    var fields := event.value.fields;
    var kind := Get(fields, "type");
    if kind.None? || !kind.value.Text? { return Some(NoType), c; }
    error, after := CheckKind(KindOf(kind.value.text), Get(fields, "thread_id"), Get(fields, "item"),
                              command, eventCount, c, s, last);
  }

  /** The loop has read `i` symbols without failing and holds `c`. */
  ghost predicate Tracks(w: seq<Symbol>, i: nat, c: Counters, last: string)
    requires i <= |w|
  {
    Run(w[..i]) != Dead && c == CountersOf(Run(w[..i]), last) && (Run(w[..i]) == Init <==> i == 0)
  }

  lemma TracksNext(w: seq<Symbol>, i: nat, last: string, error: Option<Error>, after: Counters)
    requires i < |w| && Run(w[..i]) != Dead
    requires Moves(Run(w[..i]), w[i], last, error, after)
    ensures error.None? ==> Tracks(w, i + 1, after, Last(Run(w[..i]), last))
    ensures error.Some? ==> Run(w) == Dead
  {
    assert w[..i + 1][..i] == w[..i];
    if error.Some? {
      DeadStays(w, i + 1);
    }
  }

  lemma TracksEnd(w: seq<Symbol>, c: Counters, last: string)
    requires Tracks(w, |w|, c, last)
    ensures Run(w) == Closed <==> c.threads == 1 && c.turns == 1 && c.ends == 1 && c.completed
  {
    assert w[..|w|] == w;
  }

  method NextEvent(lines: seq<Line>, i: nat, command: string, eventCount: nat, c: Counters,
                   ghost w: seq<Symbol>, ghost last: string)
    returns (error: Option<Error>, after: Counters)
    requires w == Symbols(lines, command) && i < |lines| && eventCount == i + 1
    requires Tracks(w, i, c, last)
    ensures error.None? ==> Tracks(w, i + 1, after, Last(Run(w[..i]), last))
    ensures error.Some? ==> Run(w) == Dead
  {
    error, after := CheckEvent(lines[i].value, command, eventCount, c, Run(w[..i]), last);
    SymbolAt(lines, command, i);
    TracksNext(w, i, last, error, after);
  }

  /** The loop and the check after it. */
  method ReadEvents(lines: seq<Line>, command: string, ghost w: seq<Symbol>) returns (r: Result<nat, Error>)
    requires w == Symbols(lines, command)
    ensures r.Ok? <==> (forall i :: 0 <= i < |lines| ==> LineFits(lines[i])) && Run(w) == Closed
    ensures r.Ok? ==> r.value == |lines|
  {
    var c := Counters(0, 0, 0, None, false);
    var eventCount := 0;
    ghost var last := "";
    for i := 0 to |lines|
      invariant forall k :: 0 <= k < i ==> LineFits(lines[k])
      invariant eventCount == i
      invariant Tracks(w, i, c, last)
    {
      if !LineFits(lines[i]) { return Err(BadLine); }
      eventCount := eventCount + 1;
      var error, after := NextEvent(lines, i, command, eventCount, c, w, last);
      if error.Some? { return Err(error.value); }
      last, c := Last(Run(w[..i]), last), after;
    }
    TracksEnd(w, c, last);
    if c.threads != 1 || c.turns != 1 || c.ends != 1 || !c.completed { return Err(Incomplete); }
    return Ok(eventCount);
  }

  /** Each line says what its symbol stands for. */
  ghost predicate ReadsAs(lines: seq<Line>, command: string, w: seq<Symbol>) {
    |w| == |lines| && forall k :: 0 <= k < |lines| ==> Says(lines[k].value, command, w[k])
  }

  /** In the events' own fields: a thread opens, a turn starts, harmless items, the
      command starts, its updates among harmless items, its end with exit code
      zero, harmless items, and the turn completes. */
  ghost predicate SingleCommandTurn(lines: seq<Line>, command: string, w: seq<Symbol>, id: string, start: nat, end: nat) {
    ReadsAs(lines, command, w) && Sentence(w, id, start, end)
  }

  /** An event says one thing only: the one its symbol stands for. */
  lemma ReadOnce(lines: seq<Line>, command: string, w: seq<Symbol>)
    ensures ReadsAs(lines, command, w) <==> w == Symbols(lines, command) && Invalid !in w
  {
    var v := Symbols(lines, command);
    if |w| == |lines| {
      forall k | 0 <= k < |lines| ensures Says(lines[k].value, command, w[k]) <==> w[k] == v[k] && w[k] != Invalid {
        SymbolAt(lines, command, k);
        if w[k] != Invalid { SymbolMeans(lines[k].value, command, w[k]); }
      }
    }
  }

  /** The trace of one successful execution of the command. */
  ghost predicate Acceptable(lines: seq<Line>, command: string) {
    exists w, id, start, end :: SingleCommandTurn(lines, command, w, id, start, end)
  }

  lemma ClosedMeans(lines: seq<Line>, command: string)
    ensures Run(Symbols(lines, command)) == Closed <==> Acceptable(lines, command)
  {
    var v := Symbols(lines, command);
    ClosedExactly(v);
    if exists id, start, end :: Sentence(v, id, start, end) {
      var id, start, end :| Sentence(v, id, start, end);
      ReadOnce(lines, command, v);
      SentenceValid(v, id, start, end);
      assert SingleCommandTurn(lines, command, v, id, start, end);
    }
    if Acceptable(lines, command) {
      var w, id, start, end :| SingleCommandTurn(lines, command, w, id, start, end);
      ReadOnce(lines, command, w);
    }
  }

  lemma SentenceValid(w: seq<Symbol>, id: string, start: nat, end: nat)
    requires Sentence(w, id, start, end)
    ensures Invalid !in w
  {
  }

  /** An accepted trace starts and ends the command once, under one identity. */
  lemma OneCommandOnce(lines: seq<Line>, command: string, w: seq<Symbol>, id: string, start: nat, end: nat, k: nat, other: string)
    requires SingleCommandTurn(lines, command, w, id, start, end) && k < |lines|
    ensures StartsCommand(lines[k].value, command, other) <==> k == start && other == id
    ensures EndsCommand(lines[k].value, command, other) <==> k == end && other == id
  {
    ReadOnce(lines, command, w);
    SymbolAt(lines, command, k);
    SymbolMeans(lines[k].value, command, Started(other));
    SymbolMeans(lines[k].value, command, Completed(other));
    OnlyOnce(w, id, start, end, k);
  }

  lemma OnlyOnce(w: seq<Symbol>, id: string, start: nat, end: nat, k: nat)
    requires Sentence(w, id, start, end) && k < |w|
    ensures w[k].Started? <==> k == start
    ensures w[k].Completed? <==> k == end
  {
  }

  /** The number of events, for a trace of exactly the right form. `bodySize` and
      `terminated` are the length of the file and whether it ends in a newline. */
  method Analyze(lines: seq<Line>, bodySize: nat, terminated: bool, command: string)
    returns (r: Result<nat, Error>)
    ensures r.Ok? <==>
      && command != "" && '\n' !in command && '\r' !in command
      && 0 < bodySize <= 2_097_152 && terminated
      && (forall i :: 0 <= i < |lines| ==> 0 < lines[i].size <= 262_144)
      && Acceptable(lines, command)
    ensures r.Ok? ==> r.value == |lines|
  {
    ClosedMeans(lines, command);
    if !OneLine(command) { return Err(BadCommand); }
    if bodySize == 0 || bodySize > MAX_TRACE_BYTES || !terminated { return Err(BadBody); }
    r := ReadEvents(lines, command, Symbols(lines, command));
  }
}
