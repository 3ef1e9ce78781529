// The hook command as Codex receives it (src/codex.rs): a path quoted for the
// shell, quoted again as a TOML string, and wrapped in a configuration value.
// The readers are written from the standards: "String" in TOML v1.0.0, and
// sections 2.2.1 and 2.2.2 of the POSIX Shell Command Language.
module Quoting {
  import opened Common

  // ----- Replacing characters -------------------------------------------

  /** Every `target` in `s` becomes `with`; one pass, left to right. */
  function Replace(s: string, target: char, with: string): string {
    if s == "" then ""
    else (if s[0] == target then with else [s[0]]) + Replace(s[1..], target, with)
  }

  lemma {:induction false} ReplaceConcat(a: string, b: string, target: char, with: string)
    ensures Replace(a + b, target, with) == Replace(a, target, with) + Replace(b, target, with)
  {
    if a == "" {
      assert a + b == b;
    } else {
      assert (a + b)[1..] == a[1..] + b;
      ReplaceConcat(a[1..], b, target, with);
    }
  }

  lemma ReplaceOne(c: char, target: char, with: string)
    ensures Replace([c], target, with) == if c == target then with else [c]
  {
  }

  /** `s` is a pair of characters. */
  lemma ReplaceTwo(c: char, d: char, target: char, with: string)
    ensures Replace([c, d], target, with)
         == (if c == target then with else [c]) + (if d == target then with else [d])
  {
    assert [c, d] == [c] + [d];
    ReplaceConcat([c], [d], target, with);
    ReplaceOne(c, target, with);
    ReplaceOne(d, target, with);
  }

  // ----- Writing --------------------------------------------------------

  function ShellQuote(value: string): string {
    "'" + Replace(value, '\'', "'\\''") + "'"
  }

  /** The five replacements, one after the other. */
  function Escaped(value: string): string {
    var a := Replace(value, '\\', "\\\\");
    var b := Replace(a, '"', "\\\"");
    var c := Replace(b, '\n', "\\n");
    var d := Replace(c, '\r', "\\r");
    Replace(d, '\t', "\\t")
  }

  function TomlQuote(value: string): string {
    "\"" + Escaped(value) + "\""
  }

  function ShellLine(path: string): string {
    ShellQuote(path) + " hook"
  }

  function Opening(): string { "hooks.PermissionRequest=[{hooks=[{type=\"command\",command=" }

  function Closing(): string { "}]}]" }

  function HookCommandValue(path: string): string {
    Opening() + TomlQuote(ShellLine(path)) + Closing()
  }

  // ----- One simultaneous escape ----------------------------------------

  function EscapeOf(c: char): string {
    match c
    case '\\' => "\\\\"
    case '"' => "\\\""
    case '\n' => "\\n"
    case '\r' => "\\r"
    case '\t' => "\\t"
    case _ => [c]
  }

  function EscapeEach(value: string): string {
    if value == "" then "" else EscapeOf(value[0]) + EscapeEach(value[1..])
  }

  lemma EscapedConcat(a: string, b: string)
    ensures Escaped(a + b) == Escaped(a) + Escaped(b)
  {
    ReplaceConcat(a, b, '\\', "\\\\");
    var a1, b1 := Replace(a, '\\', "\\\\"), Replace(b, '\\', "\\\\");
    ReplaceConcat(a1, b1, '"', "\\\"");
    var a2, b2 := Replace(a1, '"', "\\\""), Replace(b1, '"', "\\\"");
    ReplaceConcat(a2, b2, '\n', "\\n");
    var a3, b3 := Replace(a2, '\n', "\\n"), Replace(b2, '\n', "\\n");
    ReplaceConcat(a3, b3, '\r', "\\r");
    var a4, b4 := Replace(a3, '\r', "\\r"), Replace(b3, '\r', "\\r");
    ReplaceConcat(a4, b4, '\t', "\\t");
  }

  /** A later replacement never touches what an earlier one wrote. */
  lemma EscapedOne(c: char)
    ensures Escaped([c]) == EscapeOf(c)
  {
    ReplaceOne(c, '\\', "\\\\");
    ReplaceOne(c, '"', "\\\"");
    ReplaceOne(c, '\n', "\\n");
    ReplaceOne(c, '\r', "\\r");
    ReplaceOne(c, '\t', "\\t");
    if c in "\\\"\n\r" {
      var d := EscapeOf(c)[1];
      assert EscapeOf(c) == ['\\', d];
      ReplaceTwo('\\', d, '"', "\\\"");
      ReplaceTwo('\\', d, '\n', "\\n");
      ReplaceTwo('\\', d, '\r', "\\r");
      ReplaceTwo('\\', d, '\t', "\\t");
    }
  }

  lemma {:induction false} EscapesAtOnce(value: string)
    ensures Escaped(value) == EscapeEach(value)
  {
    if value == "" {
    } else {
      assert value == [value[0]] + value[1..];
      EscapedConcat([value[0]], value[1..]);
      EscapedOne(value[0]);
      EscapesAtOnce(value[1..]);
    }
  }

  // ----- Reading a TOML basic string ------------------------------------

  /** Control characters that a basic string may not hold as they are. */
  predicate Control(c: char) {
    (c < ' ' && c != '\t') || c == '\U{7F}'
  }

  function HexDigit(c: char): (v: int)
    ensures -1 <= v < 16
  {
    if '0' <= c <= '9' then c as int - '0' as int
    else if 'a' <= c <= 'f' then c as int - 'a' as int + 10
    else if 'A' <= c <= 'F' then c as int - 'A' as int + 10
    else -1
  }

  function HexValue(digits: string): Option<nat> {
    if digits == "" then Some(0)
    else
      var last := HexDigit(digits[|digits| - 1]);
      match HexValue(digits[..|digits| - 1])
      case None => None
      case Some(v) => if last < 0 then None else Some(16 * v + last)
  }

  /** `\uXXXX` and `\UXXXXXXXX`: a Unicode scalar value in hexadecimal. */
  function ScalarEscape(s: string, width: nat): Option<(char, string)> {
    if |s| < width then None
    else
      match HexValue(s[..width])
      case None => None
      case Some(v) =>
        if v < 0xD800 || 0xE000 <= v < 0x11_0000 then Some((v as char, s[width..])) else None
  }

  /** The character an escape stands for; `s` starts after the backslash. */
  function ReadEscape(s: string): (r: Option<(char, string)>)
    ensures r.Some? ==> |r.value.1| < |s|
  {
    if s == "" then None
    else match s[0]
      case 'b' => Some(('\U{8}', s[1..]))
      case 't' => Some(('\t', s[1..]))
      case 'n' => Some(('\n', s[1..]))
      case 'f' => Some(('\U{C}', s[1..]))
      case 'r' => Some(('\r', s[1..]))
      case '"' => Some(('"', s[1..]))
      case '\\' => Some(('\\', s[1..]))
      case 'u' => ScalarEscape(s[1..], 4)
      case 'U' => ScalarEscape(s[1..], 8)
      case _ => None
  }

  function Prepend(c: char, r: Option<(string, string)>): Option<(string, string)> {
    match r
    case None => None
    case Some(read) => Some(([c] + read.0, read.1))
  }

  /** The rest of a basic string after its opening quote, and what follows. */
  function ReadBasicTail(s: string): Option<(string, string)> {
    if s == "" then None
    else if s[0] == '"' then Some(("", s[1..]))
    else if s[0] == '\\' then
      match ReadEscape(s[1..])
      case None => None
      case Some(read) => Prepend(read.0, ReadBasicTail(read.1))
    else if Control(s[0]) then None
    else Prepend(s[0], ReadBasicTail(s[1..]))
  }

  function ReadBasicString(s: string): Option<(string, string)> {
    if s == "" || s[0] != '"' then None else ReadBasicTail(s[1..])
  }

  /** Control characters the quoting does not escape. */
  predicate Unwritable(c: char) {
    Control(c) && c != '\n' && c != '\r'
  }

  predicate Writable(value: string) {
    forall c :: c in value ==> !Unwritable(c)
  }

  lemma ReadTailStep(c: char, rest: string)
    ensures ReadBasicTail(EscapeOf(c) + rest)
         == if Unwritable(c) then None else Prepend(c, ReadBasicTail(rest))
  {
  }

  lemma {:induction false} ReadTailOfEscapes(value: string, rest: string)
    ensures ReadBasicTail(EscapeEach(value) + "\"" + rest)
         == if Writable(value) then Some((value, rest)) else None
  {
    if value == "" {
      assert ("" + "\"" + rest)[1..] == rest;
    } else {
      var c, more := value[0], value[1..];
      var after := EscapeEach(more) + "\"" + rest;
      assert EscapeEach(value) + "\"" + rest == EscapeOf(c) + after;
      ReadTailStep(c, after);
      ReadTailOfEscapes(more, rest);
      assert value == [c] + more;
      assert Writable(value) <==> !Unwritable(c) && Writable(more);
    }
  }

  /** Decoding undoes quoting exactly when every control character has an
      escape: line feed, carriage return and tab do, the others do not. */
  lemma TomlRoundTrip(value: string, rest: string)
    ensures ReadBasicString(TomlQuote(value) + rest)
         == if Writable(value) then Some((value, rest)) else None
  {
    EscapesAtOnce(value);
    ReadTailOfEscapes(value, rest);
    var s := TomlQuote(value) + rest;
    assert s[1..] == EscapeEach(value) + "\"" + rest;
  }

  // ----- Splitting a shell line -----------------------------------------

  /** Characters that mean something to the shell when they are not quoted. */
  predicate ShellSpecial(c: char) {
    c in "|&;<>()$`\"\n*?[#~=%"
  }

  function Finish(word: Option<string>): seq<string> {
    match word case None => [] case Some(w) => [w]
  }

  function PrependWords(first: seq<string>, r: Option<seq<string>>): Option<seq<string>> {
    match r case None => None case Some(more) => Some(first + more)
  }

  function Grow(word: Option<string>, c: char): Option<string> {
    match word case None => Some([c]) case Some(w) => Some(w + [c])
  }

  /** Splits outside quotes; `word` is the word being read, if one has begun. */
  function Split(s: string, word: Option<string>): Option<seq<string>>
    decreases |s|
  {
    if s == "" then Some(Finish(word))
    else if s[0] == ' ' || s[0] == '\t' then PrependWords(Finish(word), Split(s[1..], None))
    else if s[0] == '\'' then
      SplitQuoted(s[1..], match word case None => "" case Some(w) => w)
    else if s[0] == '\\' then
      if |s| == 1 then None
      else if s[1] == '\n' then Split(s[2..], word)
      else Split(s[2..], Grow(word, s[1]))
    else if ShellSpecial(s[0]) then None
    else Split(s[1..], Grow(word, s[0]))
  }

  /** Splits inside single quotes, where only the closing quote is special. */
  function SplitQuoted(s: string, word: string): Option<seq<string>>
    decreases |s|
  {
    if s == "" then None
    else if s[0] == '\'' then Split(s[1..], Some(word))
    else SplitQuoted(s[1..], word + [s[0]])
  }

  function Requoted(value: string): string { Replace(value, '\'', "'\\''") }

  lemma SplitRequotedQuote(rest: string, word: string)
    ensures SplitQuoted("'\\''" + rest, word) == SplitQuoted(rest, word + "'")
  {
    var s := "'\\''" + rest;
    assert s[1..] == "\\''" + rest;
    var t, u := s[1..], "'" + rest;
    assert t[0] == '\\' && t[1] == '\'' && t[2..] == u;
    assert u[1..] == rest;
    assert SplitQuoted(s, word) == Split(t, Some(word));
    assert Split(t, Some(word)) == Split(u, Some(word + "'"));
  }

  lemma {:induction false} SplitRequoted(value: string, rest: string, word: string)
    ensures SplitQuoted(Requoted(value) + "'" + rest, word) == Split(rest, Some(word + value))
  {
    if value == "" {
      assert (Requoted(value) + "'" + rest)[1..] == rest;
      assert word + value == word;
    } else {
      var c, more := value[0], value[1..];
      var after := Requoted(more) + "'" + rest;
      assert word + [c] + more == word + value;
      SplitRequoted(more, rest, word + [c]);
      if c == '\'' {
        assert Requoted(value) + "'" + rest == "'\\''" + after;
        SplitRequotedQuote(after, word);
      } else {
        assert Requoted(value) + "'" + rest == [c] + after;
        assert ([c] + after)[1..] == after;
      }
    }
  }

  predicate Plain(s: string) {
    forall i :: 0 <= i < |s| ==> s[i] !in " \t'\\" && !ShellSpecial(s[i])
  }

  lemma {:induction false} SplitPlain(s: string, word: string)
    requires Plain(s)
    ensures Split(s, Some(word)) == Some([word + s])
  {
    if s == "" {
      assert word + s == word;
    } else {
      var more := s[1..];
      assert word + [s[0]] + more == word + s;
      assert s[0] !in " \t'\\";
      SplitPlain(more, word + [s[0]]);
    }
  }

  lemma SplitNextWord(word: string, next: string)
    requires Plain(next) && next != ""
    ensures Split(" " + next, Some(word)) == Some([word, next])
  {
    assert (" " + next)[1..] == next;
    assert next == [next[0]] + next[1..];
    SplitPlain(next[1..], [next[0]]);
    assert [word] + [next] == [word, next];
  }

  lemma HookIsPlain()
    ensures Plain("hook")
  {
  }

  /** The shell reads exactly two words back from the line, whatever the path holds. */
  lemma ShellLineHasTwoWords(path: string)
    ensures Split(ShellLine(path), None) == Some([path, "hook"])
  {
    var s := ShellLine(path);
    assert s[1..] == Requoted(path) + "'" + " hook";
    SplitRequoted(path, " hook", "");
    assert "" + path == path;
    HookIsPlain();
    SplitNextWord(path, "hook");
  }

  // ----- Both layers ----------------------------------------------------

  /** The command words a reader recovers from a configuration value: the
      string between the two fixed parts, decoded and split. */
  function CommandWords(value: string, opening: string, closing: string): Option<seq<string>> {
    if !(opening <= value) then None
    else
      match ReadBasicString(value[|opening|..])
      case None => None
      case Some(read) => if read.1 == closing then Split(read.0, None) else None
  }

  lemma {:induction false} WritableRequoted(value: string)
    ensures Writable(Requoted(value)) <==> Writable(value)
  {
    if value == "" {
    } else {
      var head := if value[0] == '\'' then "'\\''" else [value[0]];
      WritableRequoted(value[1..]);
      assert value == [value[0]] + value[1..];
      WritableConcat([value[0]], value[1..]);
      WritableConcat(head, Requoted(value[1..]));
      assert value[0] in [value[0]];
    }
  }

  lemma WritableConcat(a: string, b: string)
    ensures Writable(a + b) <==> Writable(a) && Writable(b)
  {
  }

  lemma WritableLine(path: string)
    ensures Writable(ShellLine(path)) <==> Writable(path)
  {
    assert ShellLine(path) == "'" + Requoted(path) + "' hook";
    WritableConcat("'" + Requoted(path), "' hook");
    WritableConcat("'", Requoted(path));
    WritableRequoted(path);
  }

  lemma WrappedWords(path: string, opening: string, closing: string)
    ensures CommandWords(opening + TomlQuote(ShellLine(path)) + closing, opening, closing)
         == if Writable(path) then Some([path, "hook"]) else None
  {
    var value := opening + TomlQuote(ShellLine(path)) + closing;
    assert value[|opening|..] == TomlQuote(ShellLine(path)) + closing;
    TomlRoundTrip(ShellLine(path), closing);
    WritableLine(path);
    ShellLineHasTwoWords(path);
  }

  /** Codex reads back the path and `hook`, and nothing else can hide in the
      value, exactly when the path holds no control character other than line
      feed, carriage return and tab. */
  lemma HookCommandRoundTrip(path: string)
    ensures CommandWords(HookCommandValue(path), Opening(), Closing())
         == if Writable(path) then Some([path, "hook"]) else None
  {
    WrappedWords(path, Opening(), Closing());
  }

  /** A path the quoting cannot carry. */
  lemma BellIsNotCarried()
    ensures !Writable("/\U{7}")
    ensures ReadBasicString(TomlQuote("/\U{7}")) == None
    ensures CommandWords(HookCommandValue("/\U{7}"), Opening(), Closing()) == None
  {
    assert !Writable("/\U{7}") by {
      assert '\U{7}' in "/\U{7}";
    }
    HookCommandRoundTrip("/\U{7}");
    TomlRoundTrip("/\U{7}", "");
    assert TomlQuote("/\U{7}") + "" == TomlQuote("/\U{7}");
  }

  /** The order of the replacements matters: escaping the backslash last would
      escape the escapes. */
  lemma BackslashMustComeFirst()
    ensures Replace(Replace("\"", '"', "\\\""), '\\', "\\\\") != Escaped("\"")
  {
  }
}
