// The bounded walk over an installed bundle and the digest over what it finds
// (src/artifact.rs). A directory tree is a value; whether a directory passes the
// trust check and can be read is part of it.
module Bundle {
  import opened Common
  import opened Order

  const MAX_FILES: nat := 256
  const MAX_DIRECTORIES: nat := 512
  const MAX_BYTES: nat := 2 * 1024 * 1024 * 1024

  datatype Node =
    | Directory(trusted: bool, entries: seq<Entry>)
    | File
    | Symlink
    | Irregular

  /** A directory entry; its name is absent when it is not Unicode. */
  datatype Entry = Entry(name: Option<string>, node: Node)

  /** A directory on the stack; `prefix` is its path below the root, with a
      final slash, when that is Unicode. */
  datatype Folder = Folder(prefix: Option<string>, trusted: bool, entries: seq<Entry>)

  datatype ListError =
    | TooManyDirectories | TooManyFiles | Untrusted | HasSymlink | NotUnicode | NotRegular | Empty

  function Append(prefix: Option<string>, name: Option<string>, end: string): Option<string> {
    if prefix.Some? && name.Some? then Some(prefix.value + name.value + end) else None
  }

  // ----- What a tree holds ----------------------------------------------

  /** Directories, files by path, and whether there is nothing else. */
  datatype Census = Census(directories: nat, files: multiset<string>, sound: bool)

  function Plus(a: Census, b: Census): Census {
    Census(a.directories + b.directories, a.files + b.files, a.sound && b.sound)
  }

  function Count(prefix: Option<string>, entry: Entry): Census
    decreases entry
  {
    match entry.node
    case File =>
      (match Append(prefix, entry.name, "")
       case Some(path) => Census(0, multiset{path}, true)
       case None => Census(0, multiset{}, false))
    case Directory(trusted, entries) =>
      Plus(Census(1, multiset{}, trusted), CountAll(Append(prefix, entry.name, "/"), entries))
    case _ => Census(0, multiset{}, false)
  }

  function CountAll(prefix: Option<string>, entries: seq<Entry>): Census
    decreases entries
  {
    if entries == [] then Census(0, multiset{}, true)
    else Plus(Count(prefix, entries[0]), CountAll(prefix, entries[1..]))
  }

  function CountFolder(folder: Folder): Census {
    Plus(Census(1, multiset{}, folder.trusted), CountAll(folder.prefix, folder.entries))
  }

  function CountStack(stack: seq<Folder>): (c: Census)
    ensures |stack| <= c.directories
  {
    if stack == [] then Census(0, multiset{}, true)
    else Plus(CountStack(stack[..|stack| - 1]), CountFolder(stack[|stack| - 1]))
  }

  lemma CountPush(stack: seq<Folder>, folder: Folder)
    ensures CountStack(stack + [folder]) == Plus(CountStack(stack), CountFolder(folder))
  {
  }

  function Root(trusted: bool, entries: seq<Entry>): Folder {
    Folder(Some(""), trusted, entries)
  }

  /** Trusted directories and regular files with Unicode paths, and not too many. */
  predicate Acceptable(c: Census) {
    && c.sound
    && c.directories <= 512
    && 1 <= |c.files| <= 256
  }

  /** `done` is all that has been read and `left` all that has not. */
  ghost predicate Accounted(whole: Census, done: Census, left: Census) {
    whole == Plus(done, left)
  }

  /** The bundle's file names, sorted, or a refusal. The walk stops at the first
      thing that is wrong, so the error it names depends on the reading order;
      whether there is one does not. */
  method ListFiles(trusted: bool, entries: seq<Entry>) returns (r: Result<seq<string>, ListError>)
    ensures r.Ok? <==> Acceptable(CountFolder(Root(trusted, entries)))
    ensures r.Ok? ==> Sorted(Codes, r.value)
    ensures r.Ok? ==> multiset(r.value) == CountFolder(Root(trusted, entries)).files
  {
    var result: seq<string> := [];
    var stack := [Root(trusted, entries)];
    var directories: nat := 0;
    ghost var whole := CountFolder(Root(trusted, entries));
    CountPush([], Root(trusted, entries));
    while stack != []
      invariant |stack| + directories <= MAX_DIRECTORIES
      invariant |result| <= MAX_FILES
      invariant Accounted(whole, Census(directories, multiset(result), true), CountStack(stack))
      decreases MAX_DIRECTORIES - directories
    {
      var folder := stack[|stack| - 1];
      Pop(whole, Census(directories, multiset(result), true), CountStack(stack[..|stack| - 1]), folder);
      stack := stack[..|stack| - 1];
      directories := directories + 1;
      // The source tests the directory count here; the test never fires.
      assert directories <= MAX_DIRECTORIES;
      if !folder.trusted { return Err(Untrusted); }
      var error;
      result, stack, error := ReadFolder(folder, directories, result, stack, whole);
      if error.Some? { return Err(error.value); }
    }
    ghost var found := result;
    result := Sort(Codes, result);
    SortSorted(Codes, found);
    if result == [] { return Err(Empty); }
    return Ok(result);
  }

  lemma Move(whole: Census, done: Census, next: Census, rest: Census, stack: Census)
    requires Accounted(whole, done, Plus(Plus(next, rest), stack))
    ensures Accounted(whole, Plus(done, next), Plus(rest, stack))
    ensures Accounted(whole, done, Plus(rest, Plus(stack, next)))
    ensures !next.sound ==> !Acceptable(whole)
  {
  }

  lemma Pop(whole: Census, done: Census, stack: Census, folder: Folder)
    requires Accounted(whole, done, Plus(stack, CountFolder(folder)))
    ensures if folder.trusted then
        Accounted(whole, done.(directories := done.directories + 1),
                  Plus(CountAll(folder.prefix, folder.entries), stack))
      else !Acceptable(whole)
  {
  }

  /** One entry; `rest` is what the directory holds after it. */
  method ReadEntry(prefix: Option<string>, entry: Entry, directories: nat, found: seq<string>, before: seq<Folder>,
                   ghost rest: Census, ghost whole: Census)
    returns (result: seq<string>, stack: seq<Folder>, error: Option<ListError>)
    requires |before| + directories <= MAX_DIRECTORIES && |found| <= MAX_FILES
    requires Accounted(whole, Census(directories, multiset(found), true),
                       Plus(Plus(Count(prefix, entry), rest), CountStack(before)))
    ensures error.Some? ==> !Acceptable(whole)
    ensures error.None? ==> |stack| + directories <= MAX_DIRECTORIES && |result| <= MAX_FILES
    ensures error.None? ==>
      Accounted(whole, Census(directories, multiset(result), true), Plus(rest, CountStack(stack)))
  {
    result, stack, error := found, before, None;
    ghost var done, next := Census(directories, multiset(found), true), Count(prefix, entry);
    Move(whole, done, next, rest, CountStack(before));
    match entry.node {
      case Symlink => error := Some(HasSymlink);
      case Directory(trusted, entries) =>
        if |stack| + directories >= MAX_DIRECTORIES {
          error := Some(TooManyDirectories);
        } else {
          var child := Folder(Append(prefix, entry.name, "/"), trusted, entries);
          CountPush(stack, child);
          stack := stack + [child];
        }
      case File =>
        var name := Append(prefix, entry.name, "");
        if name.None? {
          error := Some(NotUnicode);
        } else {
          result := result + [name.value];
          assert Census(directories, multiset(result), true) == Plus(done, next);
          if |result| > MAX_FILES {
            error := Some(TooManyFiles);
          }
        }
      case Irregular => error := Some(NotRegular);
    }
  }

  /** One pass over the entries of a directory. */
  method ReadFolder(folder: Folder, directories: nat, found: seq<string>, before: seq<Folder>, ghost whole: Census)
    returns (result: seq<string>, stack: seq<Folder>, error: Option<ListError>)
    requires |before| + directories <= MAX_DIRECTORIES && |found| <= MAX_FILES
    requires Accounted(whole, Census(directories, multiset(found), true),
                       Plus(CountAll(folder.prefix, folder.entries), CountStack(before)))
    ensures error.Some? ==> !Acceptable(whole)
    ensures error.None? ==> |stack| + directories <= MAX_DIRECTORIES && |result| <= MAX_FILES
    ensures error.None? ==> Accounted(whole, Census(directories, multiset(result), true), CountStack(stack))
  {
    result, stack, error := found, before, None;
    var prefix, entries := folder.prefix, folder.entries;
    var i := 0;
    assert entries[0..] == entries;
    while i < |entries|
      invariant 0 <= i <= |entries|
      invariant |stack| + directories <= MAX_DIRECTORIES && |result| <= MAX_FILES
      invariant Accounted(whole, Census(directories, multiset(result), true),
                          Plus(CountAll(prefix, entries[i..]), CountStack(stack)))
    {
      assert entries[i..][1..] == entries[i + 1..];
      result, stack, error := ReadEntry(prefix, entries[i], directories, result, stack,
                                        CountAll(prefix, entries[i + 1..]), whole);
      if error.Some? { return; }
      i := i + 1;
    }
    error := None;
    assert entries[i..] == [];
  }

  // ----- The order in which entries are read ----------------------------

  /** The same tree, with the entries of each directory in another order. */
  ghost predicate SameEntry(a: Entry, b: Entry)
    decreases b
  {
    && a.name == b.name
    && match b.node
       case Directory(trusted, entries) =>
         a.node.Directory? && a.node.trusted == trusted && Shuffled(a.node.entries, entries)
       case _ => a.node == b.node
  }

  ghost predicate Shuffled(a: seq<Entry>, b: seq<Entry>)
    decreases b, 1
  {
    exists c: seq<Entry> :: multiset(c) == multiset(a) && Aligned(c, b)
  }

  ghost predicate Aligned(a: seq<Entry>, b: seq<Entry>)
    decreases b, 0
  {
    |a| == |b| && forall i :: 0 <= i < |b| ==> SameEntry(a[i], b[i])
  }

  lemma {:induction false} CountConcat(prefix: Option<string>, a: seq<Entry>, b: seq<Entry>)
    ensures CountAll(prefix, a + b) == Plus(CountAll(prefix, a), CountAll(prefix, b))
  {
    if a == [] {
      assert a + b == b;
    } else {
      assert (a + b)[1..] == a[1..] + b;
      CountConcat(prefix, a[1..], b);
    }
  }

  lemma PlusMoves(left: Census, last: Census, right: Census)
    ensures Plus(Plus(left, right), last) == Plus(left, Plus(last, right))
  {
  }

  lemma {:induction false} CountPermuted(prefix: Option<string>, a: seq<Entry>, b: seq<Entry>)
    requires multiset(a) == multiset(b)
    ensures CountAll(prefix, a) == CountAll(prefix, b)
    decreases |a|
  {
    assert |multiset(a)| == |a| && |multiset(b)| == |b|;
    if a != [] {
      var k := PickPermuted(a, b);
      var front, last, left, right := a[..|a| - 1], [a[|a| - 1]], b[..k], b[k + 1..];
      CountPermuted(prefix, front, left + right);
      assert a == front + last && b == left + (last + right);
      CountConcat(prefix, front, last);
      CountConcat(prefix, left, last + right);
      CountConcat(prefix, last, right);
      CountConcat(prefix, left, right);
      PlusMoves(CountAll(prefix, left), CountAll(prefix, last), CountAll(prefix, right));
    }
  }

  lemma {:induction false} CountAligned(prefix: Option<string>, a: seq<Entry>, b: seq<Entry>)
    requires Aligned(a, b)
    ensures CountAll(prefix, a) == CountAll(prefix, b)
    decreases b, 0
  {
    if b != [] {
      CountSame(prefix, a[0], b[0]);
      CountAligned(prefix, a[1..], b[1..]);
    }
  }

  lemma {:induction false} CountSame(prefix: Option<string>, a: Entry, b: Entry)
    requires SameEntry(a, b)
    ensures Count(prefix, a) == Count(prefix, b)
    decreases b
  {
    if b.node.Directory? {
      CountShuffled(Append(prefix, b.name, "/"), a.node.entries, b.node.entries);
    }
  }

  /** A tree holds the same things in whatever order its directories are read. */
  lemma {:induction false} CountShuffled(prefix: Option<string>, a: seq<Entry>, b: seq<Entry>)
    requires Shuffled(a, b)
    ensures CountAll(prefix, a) == CountAll(prefix, b)
    decreases b, 1
  {
    var c: seq<Entry> :| multiset(c) == multiset(a) && Aligned(c, b);
    CountPermuted(prefix, a, c);
    CountAligned(prefix, c, b);
  }

  // ----- No path twice --------------------------------------------------

  predicate Plain(name: string) {
    name != "" && '/' !in name
  }

  /** What a file system promises: plain names, none twice in a directory. */
  predicate WellNamed(entries: seq<Entry>) {
    && (forall i :: 0 <= i < |entries| && entries[i].name.Some? ==> Plain(entries[i].name.value))
    && (forall i, j :: 0 <= i < j < |entries| && entries[i].name.Some? ==> entries[i].name != entries[j].name)
    && (forall i :: 0 <= i < |entries| ==> WellNamedInside(entries[i]))
  }

  predicate WellNamedInside(entry: Entry) {
    entry.node.Directory? ==> WellNamed(entry.node.entries)
  }

  predicate Below(base: string, path: string) {
    path == base || base + "/" <= path
  }

  lemma {:induction false} CountBelow(prefix: Option<string>, entry: Entry, path: string)
    requires path in Count(prefix, entry).files
    ensures prefix.Some? && entry.name.Some? && Below(prefix.value + entry.name.value, path)
    decreases entry
  {
    if entry.node.Directory? {
      var inner := Append(prefix, entry.name, "/");
      var k := CountAllBelow(inner, entry.node.entries, path);
      assert inner.value <= path;
    }
  }

  lemma {:induction false} CountAllBelow(prefix: Option<string>, entries: seq<Entry>, path: string) returns (k: nat)
    requires path in CountAll(prefix, entries).files
    ensures prefix.Some? && prefix.value <= path
    ensures k < |entries| && entries[k].name.Some? && Below(prefix.value + entries[k].name.value, path)
    decreases entries
  {
    if path in Count(prefix, entries[0]).files {
      CountBelow(prefix, entries[0], path);
      k := 0;
    } else {
      var m := CountAllBelow(prefix, entries[1..], path);
      k := m + 1;
    }
  }

  lemma AfterPrefix(prefix: string, name: string, path: string)
    requires Below(prefix + name, path)
    ensures |prefix| + |name| <= |path| && path[|prefix|..|prefix| + |name|] == name
  {
  }

  lemma LongerNameHasSlash(prefix: string, a: string, b: string, path: string)
    requires |a| < |b|
    requires Below(prefix + a, path) && Below(prefix + b, path)
    ensures '/' in b
  {
    AfterPrefix(prefix, b, path);
    assert |prefix| + |b| <= |path|;
    assert prefix + a + "/" <= path;
    assert path[|prefix| + |a|] == (prefix + a + "/")[|prefix| + |a|];
    assert b[|a|] == path[|prefix| + |a|];
  }

  lemma SiblingsApart(prefix: string, a: string, b: string, path: string)
    requires Plain(a) && Plain(b)
    requires Below(prefix + a, path) && Below(prefix + b, path)
    ensures a == b
  {
    if |a| < |b| {
      LongerNameHasSlash(prefix, a, b, path);
    } else if |b| < |a| {
      LongerNameHasSlash(prefix, b, a, path);
    } else {
      AfterPrefix(prefix, a, path);
      AfterPrefix(prefix, b, path);
    }
  }

  lemma {:induction false} NoPathTwiceInside(prefix: Option<string>, entry: Entry, path: string)
    requires WellNamedInside(entry)
    ensures Count(prefix, entry).files[path] <= 1
    decreases entry
  {
    if entry.node.Directory? {
      NoPathTwice(Append(prefix, entry.name, "/"), entry.node.entries, path);
    }
  }

  lemma {:induction false} NoPathTwice(prefix: Option<string>, entries: seq<Entry>, path: string)
    requires WellNamed(entries)
    ensures CountAll(prefix, entries).files[path] <= 1
    decreases entries
  {
    if entries != [] {
      var first, rest := entries[0], entries[1..];
      NoPathTwice(prefix, rest, path);
      NoPathTwiceInside(prefix, first, path);
      if path in Count(prefix, first).files && path in CountAll(prefix, rest).files {
        CountBelow(prefix, first, path);
        var k := CountAllBelow(prefix, rest, path);
        assert rest[k] == entries[k + 1];
        SiblingsApart(prefix.value, first.name.value, rest[k].name.value, path);
      }
    }
  }

  lemma TwiceIn(list: seq<string>, i: nat, j: nat)
    requires i < j < |list| && list[i] == list[j]
    ensures multiset(list)[list[i]] >= 2
  {
    assert list == list[..i] + [list[i]] + list[i + 1..j] + [list[j]] + list[j + 1..];
  }

  /** The list a tree gives is duplicate-free. */
  lemma ListingStrict(trusted: bool, entries: seq<Entry>, list: seq<string>)
    requires WellNamed(entries)
    requires Sorted(Codes, list) && multiset(list) == CountFolder(Root(trusted, entries)).files
    ensures StrictlySorted(Codes, list)
  {
    forall i, j | 0 <= i < j < |list| ensures Codes(list[i]) != Codes(list[j]) {
      if list[i] == list[j] {
        TwiceIn(list, i, j);
        NoPathTwice(Some(""), entries, list[i]);
      }
      if Codes(list[i]) == Codes(list[j]) { CodesInjective(list[i], list[j]); }
    }
    SortedDistinctIsStrict(Codes, list);
  }

  /** Two readings of one tree both refuse or list the same names in the same
      order, whatever order the directories were read in. */
  lemma ListingUnique(trusted: bool, a: seq<Entry>, b: seq<Entry>, list: seq<string>, other: seq<string>)
    requires WellNamed(a) && WellNamed(b) && Shuffled(a, b)
    requires Sorted(Codes, list) && multiset(list) == CountFolder(Root(trusted, a)).files
    requires Sorted(Codes, other) && multiset(other) == CountFolder(Root(trusted, b)).files
    ensures CountFolder(Root(trusted, a)) == CountFolder(Root(trusted, b))
    ensures list == other && StrictlySorted(Codes, list)
  {
    CountShuffled(Some(""), a, b);
    ListingStrict(trusted, a, list);
    ListingStrict(trusted, b, other);
    forall x ensures x in list <==> x in other {
      assert x in list <==> x in multiset(list);
      assert x in other <==> x in multiset(other);
    }
    StrictlySortedUnique(Codes, list, other);
  }

  // ----- The digest over the files --------------------------------------

  const DIGEST_BYTES: nat := 64

  /** One file as the digest sees it: the bytes of its name, its size and the
      hexadecimal text of its own digest. */
  datatype Measured = Measured(name: seq<Byte>, size: nat, sha256: seq<Byte>)

  function Power(width: nat): (p: nat)
    ensures p > 0
  {
    if width == 0 then 1 else 256 * Power(width - 1)
  }

  /** The low `width` bytes of `n`, most significant first. */
  function BigEndian(n: nat, width: nat): (bytes: seq<Byte>)
    ensures |bytes| == width
  {
    if width == 0 then [] else BigEndian(n / 256, width - 1) + [n % 256]
  }

  lemma {:induction false} BigEndianInjective(m: nat, n: nat, width: nat)
    requires m < Power(width) && n < Power(width)
    requires BigEndian(m, width) == BigEndian(n, width)
    ensures m == n
  {
    if width > 0 {
      var a, b := BigEndian(m / 256, width - 1), BigEndian(n / 256, width - 1);
      assert (a + [m % 256])[..width - 1] == a && (b + [n % 256])[..width - 1] == b;
      assert (a + [m % 256])[width - 1] == (b + [n % 256])[width - 1];
      BigEndianInjective(m / 256, n / 256, width - 1);
    }
  }

  /** The number that bytes stand for, most significant first. */
  function Number(bytes: seq<Byte>): nat {
    if bytes == [] then 0 else 256 * Number(bytes[..|bytes| - 1]) + bytes[|bytes| - 1]
  }

  lemma {:induction false} NumberOfBigEndian(n: nat, width: nat)
    requires n < Power(width)
    ensures Number(BigEndian(n, width)) == n
  {
    if width > 0 {
      NumberOfBigEndian(n / 256, width - 1);
      var front := BigEndian(n / 256, width - 1);
      assert (front + [n % 256])[..width - 1] == front;
    }
  }

  predicate Encodable(file: Measured) {
    0 !in file.name && file.size < Power(8) && |file.sha256| == DIGEST_BYTES
  }

  function EncodeOne(file: Measured): seq<Byte> {
    file.name + [0] + BigEndian(file.size, 8) + file.sha256
  }

  function Encode(files: seq<Measured>): seq<Byte> {
    if files == [] then [] else EncodeOne(files[0]) + Encode(files[1..])
  }

  /** Name, a zero, the size in eight bytes with the most significant first, and
      the digest's 64 characters. */
  lemma EncodeLayout(file: Measured)
    requires Encodable(file)
    ensures var e, n := EncodeOne(file), |file.name|;
      && |e| == n + 73
      && e[..n] == file.name && e[n] == 0 && Number(e[n + 1..n + 9]) == file.size && e[n + 9..] == file.sha256
  {
    var e, n := EncodeOne(file), |file.name|;
    NumberOfBigEndian(file.size, 8);
    assert e[n + 1..n + 9] == BigEndian(file.size, 8);
  }

  /** Only the end of the name is marked; the rest has a fixed length. */
  lemma OneThenRest(a: Measured, b: Measured, restA: seq<Byte>, restB: seq<Byte>)
    requires Encodable(a) && Encodable(b)
    requires EncodeOne(a) + restA == EncodeOne(b) + restB
    ensures a == b && restA == restB
  {
    NameThenRest(a.name, b.name, BigEndian(a.size, 8) + a.sha256 + restA,
                 BigEndian(b.size, 8) + b.sha256 + restB) by {
      assert EncodeOne(a) + restA == a.name + [0] + (BigEndian(a.size, 8) + a.sha256 + restA);
      assert EncodeOne(b) + restB == b.name + [0] + (BigEndian(b.size, 8) + b.sha256 + restB);
    }
    SamePrefix(BigEndian(a.size, 8), BigEndian(b.size, 8), a.sha256 + restA, b.sha256 + restB) by {
      assert BigEndian(a.size, 8) + a.sha256 + restA == BigEndian(a.size, 8) + (a.sha256 + restA);
      assert BigEndian(b.size, 8) + b.sha256 + restB == BigEndian(b.size, 8) + (b.sha256 + restB);
    }
    SamePrefix(a.sha256, b.sha256, restA, restB);
    BigEndianInjective(a.size, b.size, 8);
  }

  lemma SamePrefix(a: seq<Byte>, b: seq<Byte>, x: seq<Byte>, y: seq<Byte>)
    requires |a| == |b| && a + x == b + y
    ensures a == b && x == y
  {
    assert (a + x)[..|a|] == a && (b + y)[..|b|] == b;
    assert (a + x)[|a|..] == x && (b + y)[|b|..] == y;
  }

  lemma NameThenRest(a: seq<Byte>, b: seq<Byte>, x: seq<Byte>, y: seq<Byte>)
    requires 0 !in a && 0 !in b
    requires a + [0] + x == b + [0] + y
    ensures a == b && x == y
  {
    ShorterName(a, b, a + [0] + x);
    ShorterName(b, a, b + [0] + y);
    SamePrefix(a + [0], b + [0], x, y);
    SamePrefix(a, b, [0], [0]);
  }

  lemma ShorterName(a: seq<Byte>, b: seq<Byte>, s: seq<Byte>)
    requires a + [0] <= s && b <= s
    ensures |a| < |b| ==> 0 in b
  {
    assert s[|a|] == (a + [0])[|a|] == 0;
    assert |a| < |b| ==> b[|a|] == s[|a|];
  }

  /** Two bundles have the same digest input only if they hold the same files. */
  lemma {:induction false} EncodeInjective(a: seq<Measured>, b: seq<Measured>)
    requires forall i :: 0 <= i < |a| ==> Encodable(a[i])
    requires forall i :: 0 <= i < |b| ==> Encodable(b[i])
    requires Encode(a) == Encode(b)
    ensures a == b
  {
    if a != [] && b != [] {
      OneThenRest(a[0], b[0], Encode(a[1..]), Encode(b[1..]));
      EncodeInjective(a[1..], b[1..]);
      assert a == [a[0]] + a[1..] && b == [b[0]] + b[1..];
    }
  }

  // ----- Measuring the files --------------------------------------------

  /** What the file system says of one listed file: its metadata size, whether it
      is the executable, whose digest is known, and what opening it finds. */
  datatype Probe = Probe(name: seq<Byte>, metadata: Option<nat>, executable: Option<seq<Byte>>, content: Option<Measured>)

  datatype MeasureError = NoMetadata | TooLarge | Unopened | SizeChanged

  /** The size is readable and is still the size when the file is opened. */
  predicate Stable(p: Probe) {
    p.metadata.Some? && (p.executable.Some? || (p.content.Some? && p.content.value.size == p.metadata.value))
  }

  function Measure(p: Probe): Measured
    requires Stable(p)
  {
    Measured(p.name, p.metadata.value, match p.executable case Some(sha) => sha case None => p.content.value.sha256)
  }

  function MeasureAll(probes: seq<Probe>): (files: seq<Measured>)
    requires AllStable(probes)
    ensures |files| == |probes|
    ensures forall i :: 0 <= i < |files| ==> files[i] == Measure(probes[i])
  {
    if probes == [] then [] else MeasureAll(probes[..|probes| - 1]) + [Measure(probes[|probes| - 1])]
  }

  function TotalSize(probes: seq<Probe>): nat {
    if probes == [] then 0
    else
      var last := probes[|probes| - 1];
      TotalSize(probes[..|probes| - 1]) + if last.metadata.Some? then last.metadata.value else 0
  }

  lemma {:induction false} TotalGrows(probes: seq<Probe>, n: nat)
    requires n <= |probes|
    ensures TotalSize(probes[..n]) <= TotalSize(probes)
  {
    if n == |probes| {
      assert probes[..n] == probes;
    } else {
      TotalGrows(probes[..|probes| - 1], n);
      assert probes[..|probes| - 1][..n] == probes[..n];
    }
  }

  lemma {:induction false} EncodeSnoc(files: seq<Measured>, file: Measured)
    ensures Encode(files + [file]) == Encode(files) + EncodeOne(file)
  {
    if files == [] {
      assert files + [file] == [file];
    } else {
      assert (files + [file])[1..] == files[1..] + [file];
      EncodeSnoc(files[1..], file);
    }
  }

  ghost predicate AllStable(probes: seq<Probe>) {
    forall i :: 0 <= i < |probes| ==> Stable(probes[i])
  }

  /** The first `i` files have been read, `bytes` long in all. */
  ghost predicate Digested(header: seq<Byte>, probes: seq<Probe>, i: nat, bytes: nat, digest: seq<Byte>)
    requires i <= |probes|
  {
    && AllStable(probes[..i])
    && bytes == TotalSize(probes[..i])
    && digest == header + Encode(MeasureAll(probes[..i]))
  }

  lemma OneMore(header: seq<Byte>, probes: seq<Probe>, i: nat, bytes: nat, digest: seq<Byte>)
    requires i < |probes| && Digested(header, probes, i, bytes, digest)
    requires Stable(probes[i])
    ensures Digested(header, probes, i + 1, bytes + probes[i].metadata.value, digest + EncodeOne(Measure(probes[i])))
  {
    var before, now, file := probes[..i], probes[..i + 1], Measure(probes[i]);
    assert now[..i] == before && now[i] == probes[i];
    assert AllStable(now) by {
      forall k | 0 <= k < |now| ensures Stable(now[k]) {
        if k < i { assert now[k] == before[k]; }
      }
    }
    EncodeSnoc(MeasureAll(before), file);
    assert header + Encode(MeasureAll(before)) + EncodeOne(file) == header + (Encode(MeasureAll(before)) + EncodeOne(file));
  }

  /** The file refused makes the whole refused. */
  lemma RefusedHere(header: seq<Byte>, probes: seq<Probe>, i: nat, bytes: nat, digest: seq<Byte>)
    requires i < |probes| && Digested(header, probes, i, bytes, digest) && bytes <= MAX_BYTES
    requires !Stable(probes[i]) || probes[i].metadata.value > MAX_BYTES - bytes
    ensures !(AllStable(probes) && TotalSize(probes) <= MAX_BYTES)
  {
    if Stable(probes[i]) {
      OneMore(header, probes, i, bytes, digest);
      TotalGrows(probes, i + 1);
    }
  }

  /** One file, with `remaining` bytes left before the limit. */
  method MeasureFile(probe: Probe, remaining: nat) returns (r: Result<Measured, MeasureError>)
    ensures r.Ok? <==> Stable(probe) && probe.metadata.value <= remaining
    ensures r.Ok? ==> r.value == Measure(probe)
  {
    if probe.metadata.None? { return Err(NoMetadata); }
    var expected := probe.metadata.value;
    if expected > remaining { return Err(TooLarge); }
    var size, sha256 := expected, [];
    if probe.executable.Some? {
      sha256 := probe.executable.value;
    } else {
      if probe.content.None? || probe.content.value.size > remaining { return Err(Unopened); }
      size, sha256 := probe.content.value.size, probe.content.value.sha256;
    }
    if size != expected { return Err(SizeChanged); }
    return Ok(Measured(probe.name, size, sha256));
  }

  /** The digest input for the listed files. It is computed exactly when every
      file is stable and all of them together are within the limit; the running
      total never passes the limit, so what remains is never negative. */
  method DigestInput(header: seq<Byte>, probes: seq<Probe>) returns (r: Result<seq<Byte>, MeasureError>)
    ensures r.Ok? <==> AllStable(probes) && TotalSize(probes) <= 2_147_483_648
    ensures r.Ok? ==> r.value == header + Encode(MeasureAll(probes))
  {
    var digest := header;
    var bytes: nat := 0;
    var i := 0;
    while i < |probes|
      invariant 0 <= i <= |probes|
      invariant bytes <= MAX_BYTES
      invariant Digested(header, probes, i, bytes, digest)
    {
      var remaining: nat := MAX_BYTES - bytes;
      var measured := MeasureFile(probes[i], remaining);
      if measured.Err? {
        RefusedHere(header, probes, i, bytes, digest);
        return Err(measured.error);
      }
      OneMore(header, probes, i, bytes, digest);
      bytes := bytes + measured.value.size;
      digest := digest + EncodeOne(measured.value);
      i := i + 1;
    }
    assert probes[..i] == probes;
    return Ok(digest);
  }

  /** What a listing promises of its files: names without NUL and digests of
      64 hexadecimal characters. */
  ghost predicate Listed(probes: seq<Probe>) {
    forall i :: 0 <= i < |probes| ==>
      && 0 !in probes[i].name
      && (probes[i].executable.Some? ==> |probes[i].executable.value| == DIGEST_BYTES)
      && (probes[i].content.Some? ==> |probes[i].content.value.sha256| == DIGEST_BYTES)
  }

  lemma {:induction false} SizeWithinTotal(probes: seq<Probe>, i: nat)
    requires i < |probes| && probes[i].metadata.Some?
    ensures probes[i].metadata.value <= TotalSize(probes)
  {
    var front := probes[..|probes| - 1];
    if i < |front| {
      assert front[i] == probes[i];
      SizeWithinTotal(front, i);
    }
  }

  lemma MeasuredEncodable(probes: seq<Probe>)
    requires AllStable(probes) && Listed(probes) && TotalSize(probes) <= MAX_BYTES
    ensures forall i :: 0 <= i < |probes| ==> Encodable(MeasureAll(probes)[i])
  {
    forall i | 0 <= i < |probes| ensures Encodable(MeasureAll(probes)[i]) {
      MeasureEncodable(probes, i);
    }
  }

  lemma MeasureEncodable(probes: seq<Probe>, i: nat)
    requires AllStable(probes) && Listed(probes) && TotalSize(probes) <= MAX_BYTES && i < |probes|
    ensures Encodable(Measure(probes[i]))
  {
    SizeWithinTotal(probes, i);
  }

  /** Two bundles that are accepted with the same digest input hold the same
      files: the same names, sizes and contents' digests, in the same order. */
  lemma SameDigestSameFiles(header: seq<Byte>, one: seq<Probe>, other: seq<Probe>)
    requires AllStable(one) && TotalSize(one) <= MAX_BYTES && Listed(one)
    requires AllStable(other) && TotalSize(other) <= MAX_BYTES && Listed(other)
    requires header + Encode(MeasureAll(one)) == header + Encode(MeasureAll(other))
    ensures MeasureAll(one) == MeasureAll(other)
  {
    SamePrefix(header, header, Encode(MeasureAll(one)), Encode(MeasureAll(other)));
    MeasuredEncodable(one);
    MeasuredEncodable(other);
    EncodeInjective(MeasureAll(one), MeasureAll(other));
  }
}
