/** Release manifests and their validation (src/update/manifest.rs), with the
    runtime requirement parser of src/update/selection.rs. */
module Manifest {
  import opened Common
  import opened Order
  import opened Versions

  const MAX_ASSET_COUNT := 16
  const MAX_RECORD_COUNT := 128
  const MAX_ASSET_BYTES := 512 * 1024 * 1024
  const MAX_STRING_BYTES := 4096

  datatype TargetOs = LinuxTarget | WindowsTarget

  datatype Libc = Glibc

  datatype ArchiveFormat = Zip | TarGz

  /** `details` stands for the digest, origin and provenance of an asset. The
      only target architecture is x86_64. */
  datatype Asset = Asset(
    targetName: string, os: TargetOs, minimum: string, libc: Option<Libc>,
    format: ArchiveFormat, length: nat, details: string)

  datatype CompatOs = LinuxOs | MacOs | WindowsOs | OtherOs

  datatype CompatArch = X86 | Aarch64 | OtherArch

  datatype CompatSurface =
    | LocalCliLauncher | VsCodeIde | DesktopApp | RemoteEnvironment | Container
    | Wsl | SshHostedIde | CodexCloud | UnknownSurface

  datatype HookSchema = HookSchema(event: string, protocol: string, tool: string, inputSchema: string, response: string)

  datatype CompatTuple = CompatTuple(
    codex: StableVersion, os: CompatOs, arch: CompatArch, surface: CompatSurface, hook: HookSchema)

  datatype Basis = StableAtOrAboveAdapterBaseline | CapabilityProbeOnly | RequestedTarget

  datatype Eligibility = Reviewed(evidence: string) | Experimental(basis: Basis) | Excluded(reason: string)

  datatype CompatRecord = CompatRecord(tuple: CompatTuple, eligibility: Eligibility)

  datatype Notes = Notes(title: string, url: string)

  datatype Manifest = Manifest(
    schema: nat, target: string, version: StableVersion, notes: Notes,
    assets: seq<Asset>, records: seq<CompatRecord>)

  /** Field checks that selection never looks at again: names, URLs, provenance
      and free texts, and the one hook schema that records must carry. Every
      result holds for every choice of them; the program's schema is EXPECTED_HOOK. */
  datatype Checks = Checks(
    name: string -> bool, notes: Notes -> bool, details: string -> bool, eligibility: Eligibility -> bool,
    hook: HookSchema)

  const EXPECTED_HOOK := HookSchema("PermissionRequest", "permission-request-v1", "Bash",
                                    "command-string-v1", "one-request-structured-allow")

  // ----- Identities -----

  function DebugOs(os: TargetOs): string {
    match os case LinuxTarget => "Linux" case WindowsTarget => "Windows"
  }

  function DebugFormat(f: ArchiveFormat): string {
    match f case Zip => "Zip" case TarGz => "TarGz"
  }

  function DebugLibc(l: Option<Libc>): string {
    match l case None => "None" case Some(_) => "Some(Glibc)"
  }

  /** The identity that validation keeps unique. */
  function AssetIdentity(a: Asset): string {
    DebugOs(a.os) + "|X86_64|" + a.minimum + ("|" + DebugFormat(a.format))
  }

  /** The identity that selection checks again, which adds the libc. */
  function CatalogAssetIdentity(a: Asset): string {
    DebugOs(a.os) + "|X86_64|" + a.minimum + ("|" + DebugLibc(a.libc) + "|" + DebugFormat(a.format))
  }

  function DebugCompatOs(os: CompatOs): string {
    match os case LinuxOs => "Linux" case MacOs => "MacOs" case WindowsOs => "Windows" case OtherOs => "Other"
  }

  function DebugArch(arch: CompatArch): string {
    match arch case X86 => "X86_64" case Aarch64 => "Aarch64" case OtherArch => "Other"
  }

  function DebugSurface(surface: CompatSurface): string {
    match surface
    case LocalCliLauncher => "LocalCliLauncher"
    case VsCodeIde => "VsCodeIde"
    case DesktopApp => "DesktopApp"
    case RemoteEnvironment => "RemoteEnvironment"
    case Container => "Container"
    case Wsl => "Wsl"
    case SshHostedIde => "SshHostedIde"
    case CodexCloud => "CodexCloud"
    case UnknownSurface => "Unknown"
  }

  function DebugCompat(t: CompatTuple): string {
    DebugCompatOs(t.os) + "|" + DebugArch(t.arch) + "|" + DebugSurface(t.surface)
  }

  function RecordIdentity(t: CompatTuple): string {
    Display(t.codex) + "|" + DebugCompat(t) + "|" + t.hook.event + "|" + t.hook.protocol + "|"
    + t.hook.tool + "|" + t.hook.inputSchema + "|" + t.hook.response
  }

  // ----- Runtime requirements -----

  datatype RuntimeMinimum = WindowsMinimum(major: nat, year: nat, half: nat) | GlibcMinimum(major: nat, minor: nat)
  {
    /** The derived ordering of the enum. */
    function Key(): seq<int> {
      match this
      case WindowsMinimum(major, year, half) => [0, major, year, half]
      case GlibcMinimum(major, minor) => [1, major, minor]
    }
  }

  function StripPrefix(s: string, prefix: string): Option<string> {
    if prefix <= s then Some(s[|prefix|..]) else None
  }

  const U16_MAX := 65535
  const U8_MAX := 255

  function ParseWindows(value: string): Option<RuntimeMinimum> {
    var parts := Split(value, '-');
    if |parts| != 2 || |parts[1]| != 4 || parts[1][2] != 'h' then None
    else
      var major := ParseDecimal(parts[0], U16_MAX);
      var year := ParseDecimal(parts[1][..2], U16_MAX);
      var half := ParseDecimal(parts[1][3..], U8_MAX);
      if major.None? || year.None? || half.None? || half.value !in {1, 2} then None
      else Some(WindowsMinimum(major.value, year.value, half.value))
  }

  function ParseGlibc(value: string): Option<RuntimeMinimum> {
    var parts := Split(value, '.');
    if |parts| != 2 then None
    else
      var major := ParseDecimal(parts[0], U16_MAX);
      var minor := ParseDecimal(parts[1], U16_MAX);
      if major.None? || minor.None? then None else Some(GlibcMinimum(major.value, minor.value))
  }

  /** `parse_runtime_minimum`. */
  function ParseRuntimeMinimum(a: Asset): (r: Option<RuntimeMinimum>)
    ensures r.Some? ==> (a.os.WindowsTarget? <==> r.value.WindowsMinimum?)
    ensures r.Some? ==> (a.os.WindowsTarget? <==> a.libc.None?)
  {
    match a.os
    case WindowsTarget =>
      var value := StripPrefix(a.minimum, "windows-");
      if a.libc.Some? || value.None? then None else ParseWindows(value.value)
    case LinuxTarget =>
      var value := StripPrefix(a.minimum, "glibc-");
      if a.libc.None? || value.None? then None else ParseGlibc(value.value)
  }

  /** The accepted texts after `glibc-` are exactly the printed number pairs. */
  lemma ParseGlibcExactly(value: string, m: RuntimeMinimum)
    ensures ParseGlibc(value) == Some(m) <==>
            m.GlibcMinimum? && m.major <= 65535 && m.minor <= 65535 && value == Print(m.major) + "." + Print(m.minor)
  {
    var parts := Split(value, '.');
    if |parts| == 2 {
      JoinSplit(value, '.');
      JoinTwo(parts, '.');
      if Canonical(parts[0]) { CanonicalIsPrinted(parts[0]); }
      if Canonical(parts[1]) { CanonicalIsPrinted(parts[1]); }
    }
    if m.GlibcMinimum? && value == Print(m.major) + "." + Print(m.minor) {
      SplitPair(m.major, '.', Print(m.minor));
      PrintHasNo(m.minor, '.');
      SplitPlain(Print(m.minor), '.');
      PrintIsCanonical(m.major);
      PrintIsCanonical(m.minor);
    }
  }

  lemma SplitPair(n: nat, c: char, rest: string)
    requires !IsDigit(c)
    ensures Split(Print(n) + [c] + rest, c) == [Print(n)] + Split(rest, c)
  {
    PrintHasNo(n, c);
    SplitAt(Print(n), c, rest);
  }

  /** The numbers with two digits are those from ten to ninety-nine. */
  lemma TwoDigits(n: nat)
    ensures |Print(n)| == 2 <==> 10 <= n < 100
    ensures |Print(n)| == 1 <==> n < 10
  {
    if n >= 100 {
      assert |Print(n)| == |Print(n / 10 / 10)| + 2;
    }
  }

  /** Year and half: two digits, the letter and one digit. */
  function HalfYear(year: nat, half: nat): string {
    Print(year) + "h" + Print(half)
  }

  lemma HalfYearParts(part: string, year: nat, half: nat)
    requires half in {1, 2}
    ensures |part| == 4 && part[2] == 'h' && part[..2] == Print(year) && part[3..] == Print(half)
        <==> 10 <= year < 100 && part == HalfYear(year, half)
  {
    TwoDigits(year);
    TwoDigits(half);
    if |part| == 4 {
      assert part == part[..2] + [part[2]] + part[3..];
    }
  }

  /** The accepted texts after `windows-` are exactly the printed releases. */
  lemma ParseWindowsExactly(value: string, m: RuntimeMinimum)
    ensures ParseWindows(value) == Some(m) <==>
            && m.WindowsMinimum? && m.major <= 65535 && 10 <= m.year < 100 && m.half in {1, 2}
            && value == Print(m.major) + "-" + HalfYear(m.year, m.half)
  {
    var parts := Split(value, '-');
    if ParseWindows(value) == Some(m) {
      JoinSplit(value, '-');
      JoinTwo(parts, '-');
      CanonicalIsPrinted(parts[0]);
      CanonicalIsPrinted(parts[1][..2]);
      CanonicalIsPrinted(parts[1][3..]);
      HalfYearParts(parts[1], m.year, m.half);
    }
    if m.WindowsMinimum? && m.half in {1, 2} && 10 <= m.year < 100 && value == Print(m.major) + "-" + HalfYear(m.year, m.half) {
      SplitPair(m.major, '-', HalfYear(m.year, m.half));
      HalfYearPlain(m.year, m.half);
      SplitPlain(HalfYear(m.year, m.half), '-');
      HalfYearParts(HalfYear(m.year, m.half), m.year, m.half);
      PrintIsCanonical(m.major);
      PrintIsCanonical(m.year);
      PrintIsCanonical(m.half);
    }
  }

  lemma HalfYearPlain(year: nat, half: nat)
    ensures '-' !in HalfYear(year, half)
  {
    PrintHasNo(year, '-');
    PrintHasNo(half, '-');
  }

  lemma JoinTwo(parts: seq<string>, c: char)
    requires |parts| == 2
    ensures Join(parts, c) == parts[0] + [c] + parts[1]
  {
    assert Join(parts[1..], c) == parts[1];
  }

  /** The one text of a requirement. */
  function RequirementText(m: RuntimeMinimum): string {
    match m
    case WindowsMinimum(major, year, half) => "windows-" + (Print(major) + "-" + HalfYear(year, half))
    case GlibcMinimum(major, minor) => "glibc-" + (Print(major) + "." + Print(minor))
  }

  /** The requirements that have a text. */
  predicate Expressible(m: RuntimeMinimum) {
    match m
    case WindowsMinimum(major, year, half) => major <= 65535 && 10 <= year < 100 && half in {1, 2}
    case GlibcMinimum(major, minor) => major <= 65535 && minor <= 65535
  }

  lemma StripExactly(s: string, prefix: string, rest: string)
    ensures StripPrefix(s, prefix) == Some(rest) <==> s == prefix + rest
  {
    if prefix <= s {
      assert s == prefix + s[|prefix|..];
    }
  }

  /** The parser inverts the text, and accepts nothing else: Windows assets have
      no libc, and Linux assets have one. */
  lemma RuntimeMinimumExactly(a: Asset, m: RuntimeMinimum)
    ensures ParseRuntimeMinimum(a) == Some(m) <==>
            && (a.os.WindowsTarget? <==> m.WindowsMinimum?) && (a.os.WindowsTarget? <==> a.libc.None?)
            && Expressible(m) && a.minimum == RequirementText(m)
  {
    match m
    case WindowsMinimum(major, year, half) =>
      var rest := Print(major) + "-" + HalfYear(year, half);
      StripExactly(a.minimum, "windows-", rest);
      match StripPrefix(a.minimum, "windows-") {
        case Some(value) => ParseWindowsExactly(value, m);
        case None =>
      }
    case GlibcMinimum(major, minor) =>
      var rest := Print(major) + "." + Print(minor);
      StripExactly(a.minimum, "glibc-", rest);
      match StripPrefix(a.minimum, "glibc-") {
        case Some(value) => ParseGlibcExactly(value, m);
        case None =>
      }
  }

  /** On one operating system the accepted requirement texts are told apart by
      their parsed values. */
  lemma RuntimeMinimumInjective(a: Asset, b: Asset)
    requires a.os == b.os
    requires ParseRuntimeMinimum(a).Some? && ParseRuntimeMinimum(a) == ParseRuntimeMinimum(b)
    ensures a.minimum == b.minimum
  {
    RuntimeMinimumExactly(a, ParseRuntimeMinimum(a).value);
    RuntimeMinimumExactly(b, ParseRuntimeMinimum(a).value);
  }

  // ----- Validation -----

  predicate IsControl(c: char) {
    c as int < 0x20 || 0x7f <= c as int < 0xa0
  }

  predicate ValidString(s: string, maximum: nat) {
    s != "" && ByteSize(s) <= maximum && forall i :: 0 <= i < |s| ==> !IsControl(s[i])
  }

  predicate ValidRuntime(a: Asset) {
    ValidString(a.minimum, MAX_STRING_BYTES) &&
    ((a.libc.Some? && "glibc-" <= a.minimum) || "windows-" <= a.minimum)
  }

  predicate ConsistentPlatform(a: Asset) {
    (a.os.WindowsTarget? && a.format.Zip? && a.libc.None?) || (a.os.LinuxTarget? && a.format.TarGz? && a.libc.Some?)
  }

  predicate ValidAsset(checks: Checks, a: Asset) {
    checks.name(a.targetName) && ValidRuntime(a) && ParseRuntimeMinimum(a).Some?
    && 1 <= a.length <= MAX_ASSET_BYTES && checks.details(a.details) && ConsistentPlatform(a)
  }

  predicate ValidHookTexts(h: HookSchema) {
    ValidString(h.event, MAX_STRING_BYTES) && ValidString(h.protocol, MAX_STRING_BYTES) && ValidString(h.tool, MAX_STRING_BYTES)
    && ValidString(h.inputSchema, MAX_STRING_BYTES) && ValidString(h.response, MAX_STRING_BYTES)
  }

  predicate ValidRecord(checks: Checks, r: CompatRecord) {
    ValidHookTexts(r.tuple.hook) && r.tuple.hook == checks.hook && checks.eligibility(r.eligibility)
  }

  const NAME: Asset -> string := (a: Asset) => a.targetName
  const IDENTITY: Asset -> string := (a: Asset) => AssetIdentity(a)
  const RECORD_IDENTITY: CompatRecord -> string := (r: CompatRecord) => RecordIdentity(r.tuple)

  ghost predicate ValidManifest(checks: Checks, m: Manifest) {
    && m.schema == 1 && checks.name(m.target) && checks.notes(m.notes)
    && 1 <= |m.assets| <= MAX_ASSET_COUNT && 1 <= |m.records| <= MAX_RECORD_COUNT
    && (forall i :: 0 <= i < |m.assets| ==> ValidAsset(checks, m.assets[i]))
    && DistinctBy(NAME, m.assets) && DistinctBy(IDENTITY, m.assets)
    && (forall i :: 0 <= i < |m.records| ==> ValidRecord(checks, m.records[i]))
    && DistinctBy(RECORD_IDENTITY, m.records)
  }

  /** The loop over assets or records: each is checked, then its name and its
      identity must be new to the two sets. */
  method ValidateEntries<T(!new)>(items: seq<T>, valid: T -> bool, name: T -> string, identity: T -> string)
    returns (ok: bool)
    ensures ok <==> (forall i :: 0 <= i < |items| ==> valid(items[i])) && DistinctBy(name, items) && DistinctBy(identity, items)
  {
    var names: set<string>, identities: set<string> := {}, {};
    for i := 0 to |items|
      invariant forall k :: 0 <= k < i ==> valid(items[k])
      invariant DistinctBy(name, items[..i]) && DistinctBy(identity, items[..i])
      invariant forall s :: s in names <==> exists k :: 0 <= k < i && name(items[k]) == s
      invariant forall s :: s in identities <==> exists k :: 0 <= k < i && identity(items[k]) == s
    {
      if !valid(items[i]) || name(items[i]) in names || identity(items[i]) in identities {
        return false;
      }
      names := names + {name(items[i])};
      identities := identities + {identity(items[i])};
    }
    assert items[..|items|] == items;
    return true;
  }

  /** `validate_manifest`. */
  method ValidateManifest(checks: Checks, m: Manifest) returns (ok: bool)
    ensures ok <==> ValidManifest(checks, m)
  {
    if m.schema != 1 || !checks.name(m.target) || !checks.notes(m.notes) {
      return false;
    }
    if |m.assets| == 0 || |m.assets| > MAX_ASSET_COUNT || |m.records| == 0 || |m.records| > MAX_RECORD_COUNT {
      return false;
    }
    ok := ValidateEntries(m.assets, a => ValidAsset(checks, a), NAME, IDENTITY);
    if ok {
      ok := ValidateEntries(m.records, r => ValidRecord(checks, r), RECORD_IDENTITY, RECORD_IDENTITY);
    }
  }

  // ----- What validation guarantees to selection -----

  lemma PrintShort(n: nat)
    requires n <= 65535
    ensures |Print(n)| <= 5
  {
    var a := n / 10;
    var b := a / 10;
    var c := b / 10;
    assert |Print(c / 10)| == 1;
    assert |Print(c)| <= 2;
    assert |Print(b)| <= 3;
    assert |Print(a)| <= 4;
  }

  predicate Clean(s: string) {
    forall i :: 0 <= i < |s| ==> s[i] as int < 0x80 && !IsControl(s[i])
  }

  lemma PrintClean(n: nat)
    ensures Clean(Print(n))
  {
    PrintIsCanonical(n);
  }

  lemma CleanValid(s: string)
    requires Clean(s) && 0 < |s| <= 30
    ensures ValidString(s, MAX_STRING_BYTES)
  {
    AsciiSize(s);
  }

  /** A requirement text always passes the checks on strings. */
  lemma RequirementTextValid(m: RuntimeMinimum)
    requires Expressible(m)
    ensures ValidString(RequirementText(m), MAX_STRING_BYTES)
  {
    match m
    case WindowsMinimum(major, year, half) =>
      PrintShort(major);
      PrintShort(year);
      PrintShort(half);
      PrintClean(major);
      PrintClean(year);
      PrintClean(half);
      CleanValid(RequirementText(m));
    case GlibcMinimum(major, minor) =>
      PrintShort(major);
      PrintShort(minor);
      PrintClean(major);
      PrintClean(minor);
      CleanValid(RequirementText(m));
  }

  /** Validation accepts an asset exactly when its free fields pass, its length is
      from 1 to 512 MiB, and it is a Linux tarball with glibc or a Windows zip
      without, whose requirement is the text of some runtime of that system. */
  lemma ValidAssetExactly(checks: Checks, a: Asset)
    ensures ValidAsset(checks, a) <==>
      && checks.name(a.targetName) && checks.details(a.details) && 1 <= a.length <= 536_870_912
      && exists m :: Expressible(m) && a.minimum == RequirementText(m)
           && (if a.os.WindowsTarget? then m.WindowsMinimum? && a.format.Zip? && a.libc.None?
               else m.GlibcMinimum? && a.format.TarGz? && a.libc.Some?)
  {
    if ValidAsset(checks, a) {
      RuntimeMinimumExactly(a, ParseRuntimeMinimum(a).value);
    }
    forall m | Expressible(m) && a.minimum == RequirementText(m)
               && (a.os.WindowsTarget? <==> m.WindowsMinimum?) && (a.os.WindowsTarget? <==> a.libc.None?)
      ensures ParseRuntimeMinimum(a) == Some(m) && ValidRuntime(a)
    {
      RuntimeMinimumExactly(a, m);
      RequirementTextValid(m);
    }
  }

  /** The identity keeps apart exactly assets that differ in system, requirement or format. */
  lemma AssetIdentityExactly(a: Asset, b: Asset)
    ensures AssetIdentity(a) == AssetIdentity(b) <==> a.os == b.os && a.minimum == b.minimum && a.format == b.format
  {
    var s, t := AssetIdentity(a), AssetIdentity(b);
    assert s[0] == DebugOs(a.os)[0] && t[0] == DebugOs(b.os)[0];
    assert s[|s| - 1] == DebugFormat(a.format)[|DebugFormat(a.format)| - 1];
    assert t[|t| - 1] == DebugFormat(b.format)[|DebugFormat(b.format)| - 1];
    if s == t {
      SameMiddle(DebugOs(a.os) + "|X86_64|", a.minimum, b.minimum, "|" + DebugFormat(a.format));
    }
  }

  lemma SameMiddle(a: string, s: string, t: string, b: string)
    requires a + s + b == a + t + b
    ensures s == t
  {
    assert (a + s + b)[|a|..|a + s|] == s;
    assert (a + t + b)[|a|..|a + t|] == t;
  }

  lemma DebugNamesApart(t: CompatTuple, u: CompatTuple)
    ensures DebugCompatOs(t.os) == DebugCompatOs(u.os) ==> t.os == u.os
    ensures DebugArch(t.arch) == DebugArch(u.arch) ==> t.arch == u.arch
    ensures '|' !in DebugCompatOs(t.os) && '|' !in DebugArch(t.arch)
  {
    assert DebugCompatOs(t.os)[0] == DebugCompatOs(u.os)[0] ==> t.os == u.os;
    assert |DebugArch(t.arch)| == |DebugArch(u.arch)| ==> t.arch == u.arch;
  }

  lemma DebugSurfacesApart(a: CompatSurface, b: CompatSurface)
    ensures DebugSurface(a) == DebugSurface(b) ==> a == b
    ensures '|' !in DebugSurface(a)
  {
    var s, t := DebugSurface(a), DebugSurface(b);
    assert |s| == |t| && s[0] == t[0] ==> a == b;
  }

  lemma DisplayHasNoBar(v: StableVersion)
    ensures '|' !in Display(v)
  {
    PrintHasNo(v.major, '|');
    PrintHasNo(v.minor, '|');
    PrintHasNo(v.patch, '|');
  }

  lemma FourFields(a: string, b: string, c: string, d: string, tail: string)
    requires '|' !in a && '|' !in b && '|' !in c && '|' !in d
    ensures Split(a + "|" + (b + "|" + c + "|" + d) + "|" + tail, '|') == [a, b, c, d] + Split(tail, '|')
  {
    var s := d + "|" + tail;
    var u := c + "|" + s;
    var v := b + "|" + u;
    assert a + "|" + (b + "|" + c + "|" + d) + "|" + tail == a + "|" + v;
    SplitAt(d, '|', tail);
    SplitAt(c, '|', s);
    SplitAt(b, '|', u);
    SplitAt(a, '|', v);
  }

  lemma RecordFields(t: CompatTuple)
    ensures var fields := Split(RecordIdentity(t), '|');
      |fields| >= 4 && fields[..4] == [Display(t.codex), DebugCompatOs(t.os), DebugArch(t.arch), DebugSurface(t.surface)]
  {
    var h := t.hook;
    var tail := h.event + "|" + h.protocol + "|" + h.tool + "|" + h.inputSchema + "|" + h.response;
    assert RecordIdentity(t) == Display(t.codex) + "|" + DebugCompat(t) + "|" + tail;
    DisplayHasNoBar(t.codex);
    DebugNamesApart(t, t);
    DebugSurfacesApart(t.surface, t.surface);
    FourFields(Display(t.codex), DebugCompatOs(t.os), DebugArch(t.arch), DebugSurface(t.surface), tail);
  }

  /** Records with one hook schema are kept apart exactly when their tuples differ. */
  lemma RecordIdentityExactly(t: CompatTuple, u: CompatTuple)
    requires t.hook == u.hook
    ensures RecordIdentity(t) == RecordIdentity(u) <==> t == u
  {
    if RecordIdentity(t) == RecordIdentity(u) {
      RecordFields(t);
      RecordFields(u);
      var p, q := Split(RecordIdentity(t), '|')[..4], Split(RecordIdentity(u), '|')[..4];
      assert p[0] == q[0] && p[1] == q[1] && p[2] == q[2] && p[3] == q[3];
      DisplayInjective(t.codex, u.codex);
      DebugNamesApart(t, u);
      DebugSurfacesApart(t.surface, u.surface);
    }
  }

  /** Validation in the manifest's own fields. Two assets may share neither their
      name nor both system and requirement, and no two records share their tuple;
      everything else is accepted together. */
  lemma ValidManifestExactly(checks: Checks, m: Manifest)
    ensures ValidManifest(checks, m) <==>
      && m.schema == 1 && checks.name(m.target) && checks.notes(m.notes)
      && 1 <= |m.assets| <= 16 && 1 <= |m.records| <= 128
      && (forall i :: 0 <= i < |m.assets| ==> ValidAsset(checks, m.assets[i]))
      && (forall i, j :: 0 <= i < j < |m.assets| ==>
            && m.assets[i].targetName != m.assets[j].targetName
            && (m.assets[i].os != m.assets[j].os || m.assets[i].minimum != m.assets[j].minimum))
      && (forall i :: 0 <= i < |m.records| ==> ValidRecord(checks, m.records[i]))
      && (forall i, j :: 0 <= i < j < |m.records| ==> m.records[i].tuple != m.records[j].tuple)
  {
    forall i, j | 0 <= i < j < |m.assets| && ConsistentPlatform(m.assets[i]) && ConsistentPlatform(m.assets[j])
      ensures IDENTITY(m.assets[i]) != IDENTITY(m.assets[j]) <==>
              m.assets[i].os != m.assets[j].os || m.assets[i].minimum != m.assets[j].minimum
    {
      AssetIdentityExactly(m.assets[i], m.assets[j]);
    }
    forall i, j | 0 <= i < j < |m.records| && m.records[i].tuple.hook == m.records[j].tuple.hook
      ensures RECORD_IDENTITY(m.records[i]) != RECORD_IDENTITY(m.records[j]) <==> m.records[i].tuple != m.records[j].tuple
    {
      RecordIdentityExactly(m.records[i].tuple, m.records[j].tuple);
    }
  }

  /** The identity that selection checks is as fine as the validated one. */
  lemma CatalogIdentityRefines(a: Asset, b: Asset)
    requires ConsistentPlatform(a) && ConsistentPlatform(b) && CatalogAssetIdentity(a) == CatalogAssetIdentity(b)
    ensures AssetIdentity(a) == AssetIdentity(b)
  {
    if a.os == b.os {
      SameMiddle(DebugOs(a.os) + "|X86_64|", a.minimum, b.minimum, "|" + DebugLibc(a.libc) + "|" + DebugFormat(a.format));
    } else {
      PlatformsDiffer(a, b);
    }
  }

  lemma PlatformsDiffer(a: Asset, b: Asset)
    requires a.os != b.os
    ensures CatalogAssetIdentity(a) != CatalogAssetIdentity(b)
  {
    assert CatalogAssetIdentity(a)[0] == DebugOs(a.os)[0];
    assert CatalogAssetIdentity(b)[0] == DebugOs(b.os)[0];
  }

  /** Two distinct assets of one valid manifest and platform never require the same runtime. */
  lemma DistinctMinimums(checks: Checks, m: Manifest, i: nat, j: nat)
    requires ValidManifest(checks, m) && i < j < |m.assets| && m.assets[i].os == m.assets[j].os
    ensures ParseRuntimeMinimum(m.assets[i]) != ParseRuntimeMinimum(m.assets[j])
  {
    var a, b := m.assets[i], m.assets[j];
    assert ValidAsset(checks, a) && ValidAsset(checks, b);
    if ParseRuntimeMinimum(a) == ParseRuntimeMinimum(b) {
      assert IDENTITY(a) != IDENTITY(b);
      RuntimeMinimumInjective(a, b);
    }
  }
}
