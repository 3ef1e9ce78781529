/** Decimal components and `StableVersion` (src/update/manifest.rs), with the
    decimal parsers of src/update/selection.rs. */
module Versions {
  import opened Common
  import opened Order

  const U64_MAX := 0xFFFF_FFFF_FFFF_FFFF

  // ----- Decimal numbers -----

  predicate IsDigit(c: char) {
    '0' <= c <= '9'
  }

  predicate Digits(s: string) {
    s != "" && forall i :: 0 <= i < |s| ==> IsDigit(s[i])
  }

  /** Digits without a redundant leading zero. */
  predicate Canonical(s: string) {
    Digits(s) && (|s| > 1 ==> s[0] != '0')
  }

  function DigitValue(c: char): (n: nat)
    requires IsDigit(c)
    ensures n < 10
  {
    c as int - '0' as int
  }

  function Value(s: string): (n: nat)
    requires Digits(s)
  {
    var last := DigitValue(s[|s| - 1]);
    if |s| == 1 then last else 10 * Value(s[..|s| - 1]) + last
  }

  function Digit(n: nat): (c: char)
    requires n < 10
    ensures IsDigit(c) && DigitValue(c) == n
  {
    ('0' as int + n) as char
  }

  function Print(n: nat): (s: string) {
    if n < 10 then [Digit(n)] else Print(n / 10) + [Digit(n % 10)]
  }

  lemma {:induction false} PrintIsCanonical(n: nat)
    ensures Canonical(Print(n)) && Value(Print(n)) == n
    ensures n > 0 ==> Print(n)[0] != '0'
  {
    if n >= 10 {
      PrintIsCanonical(n / 10);
      assert Print(n)[..|Print(n)| - 1] == Print(n / 10);
    }
  }

  lemma {:induction false} CanonicalIsPrinted(s: string)
    requires Canonical(s)
    ensures Print(Value(s)) == s
    ensures s[0] != '0' ==> Value(s) > 0
  {
    var front, last := s[..|s| - 1], s[|s| - 1];
    assert s == front + [last];
    if |s| > 1 {
      CanonicalIsPrinted(front);
      assert Value(s) / 10 == Value(front) && Value(s) % 10 == DigitValue(last);
    }
  }

  /** `parse_decimal_u16` and `parse_decimal_u8`: canonical digits within the type. */
  function ParseDecimal(s: string, maximum: nat): (r: Option<nat>)
    ensures r.Some? ==> r.value <= maximum && Canonical(s) && r.value == Value(s)
  {
    if !Canonical(s) || Value(s) > maximum then None else Some(Value(s))
  }

  /** Accepted decimals are injective: equal values come from equal texts. */
  lemma ParseDecimalInjective(s: string, t: string, m: nat)
    requires ParseDecimal(s, m).Some? && ParseDecimal(s, m) == ParseDecimal(t, m)
    ensures s == t
  {
    CanonicalIsPrinted(s);
    CanonicalIsPrinted(t);
  }

  // ----- Splitting -----

  /** `str::split` on one character. */
  function Split(s: string, c: char): (parts: seq<string>)
    ensures parts != []
    decreases |s|
  {
    if s == "" then [""]
    else
      var rest := Split(s[1..], c);
      if s[0] == c then [""] + rest else [[s[0]] + rest[0]] + rest[1..]
  }

  function Join(parts: seq<string>, c: char): string
    requires parts != []
  {
    if |parts| == 1 then parts[0] else parts[0] + [c] + Join(parts[1..], c)
  }

  lemma {:induction false} JoinSplit(s: string, c: char)
    ensures Join(Split(s, c), c) == s
    ensures forall i :: 0 <= i < |Split(s, c)| ==> c !in Split(s, c)[i]
  {
    if s != "" {
      JoinSplit(s[1..], c);
      var rest := Split(s[1..], c);
      if s[0] == c {
        assert Split(s, c)[1..] == rest;
      } else {
        assert Split(s, c)[1..] == rest[1..];
        if |rest| > 1 {
          assert Join(Split(s, c), c) == [s[0]] + (rest[0] + [c] + Join(rest[1..], c));
        }
      }
    }
  }

  lemma {:induction false} SplitPlain(s: string, c: char)
    requires c !in s
    ensures Split(s, c) == [s]
  {
    if s != "" {
      SplitPlain(s[1..], c);
      assert [s[0]] + s[1..] == s;
    }
  }

  lemma {:induction false} SplitAt(a: string, c: char, b: string)
    requires c !in a
    ensures Split(a + [c] + b, c) == [a] + Split(b, c)
  {
    var s := a + [c] + b;
    if a == "" {
      assert s[1..] == b;
    } else {
      SplitAt(a[1..], c, b);
      assert s[1..] == a[1..] + [c] + b;
      assert [a[0]] + a[1..] == a;
    }
  }

  lemma JoinThree(parts: seq<string>, c: char)
    requires |parts| == 3
    ensures Join(parts, c) == parts[0] + [c] + (parts[1] + [c] + parts[2])
  {
    assert Join(parts[1..][1..], c) == parts[2];
    assert Join(parts[1..], c) == parts[1] + [c] + parts[2];
  }

  // ----- Stable versions -----

  datatype StableVersion = StableVersion(major: nat, minor: nat, patch: nat)
  {
    predicate InRange() {
      major <= U64_MAX && minor <= U64_MAX && patch <= U64_MAX
    }

    function Key(): seq<int> {
      [major, minor, patch]
    }
  }

  predicate Older(a: StableVersion, b: StableVersion) {
    Less(a.Key(), b.Key())
  }

  lemma VersionKeyInjective(a: StableVersion, b: StableVersion)
    requires a.Key() == b.Key()
    ensures a == b
  {
  }

  /** The derived ordering: major, then minor, then patch. */
  lemma OlderExact(a: StableVersion, b: StableVersion)
    ensures Older(a, b) <==>
      || a.major < b.major
      || (a.major == b.major && (a.minor < b.minor || (a.minor == b.minor && a.patch < b.patch)))
  {
    LessThree(a.major, a.minor, a.patch, b.major, b.minor, b.patch);
  }

  lemma OlderTotal(a: StableVersion, b: StableVersion)
    ensures Older(a, b) || a == b || Older(b, a)
    ensures !(Older(a, b) && Older(b, a)) && !Older(a, a)
  {
    LessTotal(a.Key(), b.Key());
    if a.Key() == b.Key() { VersionKeyInjective(a, b); }
  }

  /** `str::parse::<u64>`: an optional plus sign, then digits in range. */
  function ParseU64(s: string): Option<nat> {
    var digits := if s != "" && s[0] == '+' then s[1..] else s;
    if !Digits(digits) || Value(digits) > U64_MAX then None else Some(Value(digits))
  }

  function ParseComponent(part: string): Option<nat> {
    if part == "" || (|part| > 1 && part[0] == '0') then None else ParseU64(part)
  }

  /** `StableVersion::parse`. */
  function ParseVersion(s: string): Option<StableVersion> {
    var parts := Split(s, '.');
    if |parts| != 3 then None
    else
      var major, minor, patch := ParseComponent(parts[0]), ParseComponent(parts[1]), ParseComponent(parts[2]);
      if major.None? || minor.None? || patch.None? then None
      else Some(StableVersion(major.value, minor.value, patch.value))
  }

  function Display(v: StableVersion): string {
    Print(v.major) + "." + (Print(v.minor) + "." + Print(v.patch))
  }

  lemma PrintHasNo(n: nat, c: char)
    requires !IsDigit(c)
    ensures c !in Print(n)
  {
  }

  lemma ComponentOfPrint(n: nat)
    requires n <= U64_MAX
    ensures ParseComponent(Print(n)) == Some(n)
  {
    PrintIsCanonical(n);
  }

  /** A component prints back to itself exactly when it has no plus sign. */
  lemma PrintOfComponent(part: string)
    requires ParseComponent(part).Some?
    ensures Print(ParseComponent(part).value) == part <==> '+' !in part
  {
    if '+' !in part {
      CanonicalIsPrinted(part);
    } else {
      PrintHasNo(ParseComponent(part).value, '+');
    }
  }

  predicate Zeros(s: string) {
    forall i :: 0 <= i < |s| ==> s[i] == '0'
  }

  /** Digits are leading zeros and then the printed value. */
  lemma {:induction false} DigitsArePadded(s: string) returns (zeros: string)
    requires Digits(s)
    ensures Zeros(zeros) && s == zeros + Print(Value(s))
  {
    var front, last := s[..|s| - 1], s[|s| - 1];
    assert s == front + [last];
    zeros := "";
    if |s| > 1 {
      var z := DigitsArePadded(front);
      if Value(front) == 0 {
        zeros := front;
        assert front == z + "0";
      } else {
        zeros := z;
        assert Value(s) / 10 == Value(front) && Value(s) % 10 == DigitValue(last);
        assert s == z + (Print(Value(front)) + [last]);
      }
    }
  }

  lemma {:induction false} PaddedValue(zeros: string, n: nat)
    requires Zeros(zeros)
    ensures Digits(zeros + Print(n)) && Value(zeros + Print(n)) == n
  {
    PrintIsCanonical(n);
    var s, p := zeros + Print(n), Print(n);
    if n < 10 {
      if zeros != "" {
        PaddedZero(zeros);
        assert s[..|s| - 1] == zeros;
      } else {
        assert s == p;
      }
    } else {
      PaddedValue(zeros, n / 10);
      assert s[..|s| - 1] == zeros + Print(n / 10);
    }
  }

  lemma {:induction false} PaddedZero(zeros: string)
    requires Zeros(zeros) && zeros != ""
    ensures Digits(zeros) && Value(zeros) == 0
  {
    if |zeros| > 1 {
      PaddedZero(zeros[..|zeros| - 1]);
    }
  }

  /** A text for a number: its digits, or a plus sign, any zeros and its digits. */
  ghost predicate Denotes(part: string, n: nat) {
    part == Print(n) || exists zeros :: Zeros(zeros) && part == "+" + zeros + Print(n)
  }

  /** Exactly the texts for a number below 2^64 are accepted, with that number. */
  lemma ParseComponentExactly(part: string, n: nat)
    ensures ParseComponent(part) == Some(n) <==> n <= 18_446_744_073_709_551_615 && Denotes(part, n)
  {
    if ParseComponent(part) == Some(n) {
      ParsedDenotes(part, n);
    }
    if Denotes(part, n) {
      DenotedParses(part, n);
    }
  }

  lemma ParsedDenotes(part: string, n: nat)
    requires ParseComponent(part) == Some(n)
    ensures n <= U64_MAX && Denotes(part, n)
  {
    if part[0] == '+' {
      assert part == "+" + part[1..];
      PlusDenotes(part[1..], n);
    } else {
      CanonicalIsPrinted(part);
    }
  }

  lemma PlusDenotes(digits: string, n: nat)
    requires Digits(digits) && Value(digits) == n
    ensures Denotes("+" + digits, n)
  {
    var zeros := DigitsArePadded(digits);
    assert "+" + digits == "+" + zeros + Print(n);
  }

  lemma DenotedParses(part: string, n: nat)
    requires Denotes(part, n)
    ensures n <= U64_MAX ==> ParseComponent(part) == Some(n)
    ensures n > U64_MAX ==> ParseComponent(part) == None
  {
    PrintIsCanonical(n);
    if part != Print(n) {
      var zeros :| Zeros(zeros) && part == "+" + zeros + Print(n);
      PaddedValue(zeros, n);
      assert part[1..] == zeros + Print(n);
    }
  }

  /** `major` "." `minor` "." `patch`, each a text for its number, and nothing else. */
  lemma ParseVersionExactly(s: string, v: StableVersion)
    ensures ParseVersion(s) == Some(v) <==>
      v.InRange() && exists a, b, c ::
        s == a + "." + (b + "." + c) && Denotes(a, v.major) && Denotes(b, v.minor) && Denotes(c, v.patch)
  {
    if ParseVersion(s) == Some(v) {
      var parts := Split(s, '.');
      JoinSplit(s, '.');
      JoinThree(parts, '.');
      ParseComponentExactly(parts[0], v.major);
      ParseComponentExactly(parts[1], v.minor);
      ParseComponentExactly(parts[2], v.patch);
    }
    forall a, b, c | v.InRange() && s == a + "." + (b + "." + c)
                     && Denotes(a, v.major) && Denotes(b, v.minor) && Denotes(c, v.patch)
      ensures ParseVersion(s) == Some(v)
    {
      DenotesNoDot(a, v.major);
      DenotesNoDot(b, v.minor);
      DenotesNoDot(c, v.patch);
      SplitAt(a, '.', b + "." + c);
      SplitAt(b, '.', c);
      SplitPlain(c, '.');
      ParseComponentExactly(a, v.major);
      ParseComponentExactly(b, v.minor);
      ParseComponentExactly(c, v.patch);
    }
  }

  lemma DenotesNoDot(part: string, n: nat)
    requires Denotes(part, n)
    ensures '.' !in part
  {
    PrintHasNo(n, '.');
  }

  lemma DisplaySplits(v: StableVersion)
    ensures Split(Display(v), '.') == [Print(v.major), Print(v.minor), Print(v.patch)]
  {
    PrintHasNo(v.major, '.');
    PrintHasNo(v.minor, '.');
    PrintHasNo(v.patch, '.');
    SplitAt(Print(v.major), '.', Print(v.minor) + "." + Print(v.patch));
    SplitAt(Print(v.minor), '.', Print(v.patch));
    SplitPlain(Print(v.patch), '.');
  }

  /** Parsing a printed version gives it back. */
  lemma ParseOfDisplay(v: StableVersion)
    requires v.InRange()
    ensures ParseVersion(Display(v)) == Some(v)
  {
    DisplaySplits(v);
    ComponentOfPrint(v.major);
    ComponentOfPrint(v.minor);
    ComponentOfPrint(v.patch);
  }

  /** Printing a parsed version gives the text back exactly when it contains no
      plus sign: `u64` parsing takes a leading one. */
  lemma DisplayOfParse(s: string)
    requires ParseVersion(s).Some?
    ensures Display(ParseVersion(s).value) == s <==> '+' !in s
    ensures ParseVersion(s).value.InRange()
  {
    var parts, v := Split(s, '.'), ParseVersion(s).value;
    JoinSplit(s, '.');
    JoinThree(parts, '.');
    PrintOfComponent(parts[0]);
    PrintOfComponent(parts[1]);
    PrintOfComponent(parts[2]);
    if Display(v) == s {
      DisplaySplits(v);
    }
  }

  /** The two cases both occur. */
  lemma PlusSignIsLost()
    ensures ParseVersion("+1.0.0") == Some(StableVersion(1, 0, 0)) && Display(StableVersion(1, 0, 0)) == "1.0.0"
  {
    SplitPlain("0", '.');
    SplitAt("0", '.', "0");
    SplitAt("+1", '.', "0" + "." + "0");
    assert "+1.0.0" == "+1" + "." + ("0" + "." + "0");
    assert "+1"[1..] == "1";
  }

  /** Two versions print alike only when they are the same. */
  lemma DisplayInjective(a: StableVersion, b: StableVersion)
    requires Display(a) == Display(b)
    ensures a == b
  {
    DisplaySplits(a);
    DisplaySplits(b);
    PrintIsCanonical(a.major);
    PrintIsCanonical(a.minor);
    PrintIsCanonical(a.patch);
    PrintIsCanonical(b.major);
    PrintIsCanonical(b.minor);
    PrintIsCanonical(b.patch);
    assert Split(Display(a), '.')[0] == Split(Display(b), '.')[0];
    assert Split(Display(a), '.')[1] == Split(Display(b), '.')[1];
    assert Split(Display(a), '.')[2] == Split(Display(b), '.')[2];
  }
}
