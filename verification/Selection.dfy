/** Selection of an applicable release (src/update/selection.rs). */
module Selection {
  import opened Common
  import opened Order
  import opened Versions
  import opened Manifest

  datatype Runtime = WindowsRuntime(major: nat, year: nat, half: nat) | GlibcRuntime(major: nat, minor: nat) | UnrecognisedRuntime

  datatype Mode = Automatic | Strict

  datatype Input = Input(
    installed: StableVersion, codex: StableVersion, os: TargetOs, runtime: Runtime, surface: CompatSurface, mode: Mode)

  datatype Reason =
    | EmptyCatalog
    | DuplicateReleaseVersion
    | ConflictingAssetIdentity
    | AmbiguousAsset
    | AmbiguousCompatibility
    | NotNewerThanInstalled
    | UnsupportedPlatform
    | UnknownRuntime
    | UnsupportedRuntime
    | MalformedRuntimeRequirement
    | RuntimeBelowMinimum
    | CompatibilityExcluded
    | CompatibilityUnavailable
    | StrictRequiresReviewed
  {
    /** Position in the source's enum, which orders rejections. */
    function Rank(): int {
      match this
      case EmptyCatalog => 0
      case DuplicateReleaseVersion => 1
      case ConflictingAssetIdentity => 2
      case AmbiguousAsset => 3
      case AmbiguousCompatibility => 4
      case NotNewerThanInstalled => 5
      case UnsupportedPlatform => 6
      case UnknownRuntime => 8
      case UnsupportedRuntime => 9
      case MalformedRuntimeRequirement => 10
      case RuntimeBelowMinimum => 11
      case CompatibilityExcluded => 12
      case CompatibilityUnavailable => 13
      case StrictRequiresReviewed => 14
    }
  }

  datatype Compatibility = ReviewedBy(evidence: string) | ExperimentalOn(basis: Basis)

  datatype Explanation = Explanation(current: StableVersion, next: StableVersion, compatibility: Compatibility, notes: Notes)

  datatype Release = Release(manifest: Manifest, asset: Asset, compatibility: Compatibility, explanation: Explanation)

  datatype Rejection = Rejection(version: StableVersion, reason: Reason)

  datatype Outcome = Selected(release: Release) | NoApplicable(rejections: seq<Rejection>) | Rejected(reason: Reason)

  // ----- Filtering -----

  function Filter<T>(p: T -> bool, s: seq<T>): (r: seq<T>)
    ensures |r| <= |s|
  {
    if s == [] then []
    else Filter(p, s[..|s| - 1]) + if p(s[|s| - 1]) then [s[|s| - 1]] else []
  }

  lemma {:induction false} FilterMembers<T(!new)>(p: T -> bool, s: seq<T>)
    ensures forall x :: x in Filter(p, s) <==> x in s && p(x)
  {
    if s != [] {
      FilterMembers(p, s[..|s| - 1]);
      assert s == s[..|s| - 1] + [s[|s| - 1]];
    }
  }

  lemma {:induction false} FilterDistinct<T(!new)>(p: T -> bool, key: T -> string, s: seq<T>)
    requires DistinctBy(key, s)
    ensures DistinctBy(key, Filter(p, s))
  {
    if s != [] {
      var front, last := s[..|s| - 1], s[|s| - 1];
      FilterDistinct(p, key, front);
      FilterMembers(p, front);
      forall x | x in Filter(p, front) ensures key(x) != key(last) {
        var i :| 0 <= i < |front| && front[i] == x;
        assert s[i] == x;
      }
    }
  }

  // ----- Runtime requirements -----

  function HostKey(r: Runtime): seq<int> {
    match r
    case WindowsRuntime(major, year, half) => [0, major, year, half]
    case GlibcRuntime(major, minor) => [1, major, minor]
    case UnrecognisedRuntime => []
  }

  /** `runtime_meets`. */
  function RuntimeMeets(r: Runtime, os: TargetOs, minimum: RuntimeMinimum): Result<bool, Reason> {
    if r.UnrecognisedRuntime? then Err(UnknownRuntime)
    else if os.WindowsTarget? && r.WindowsRuntime? && minimum.WindowsMinimum? then
      if r.half !in {1, 2} then Err(UnknownRuntime) else Ok(!Less(HostKey(r), minimum.Key()))
    else if os.LinuxTarget? && r.GlibcRuntime? && minimum.GlibcMinimum? then
      Ok(!Less(HostKey(r), minimum.Key()))
    else Err(UnsupportedRuntime)
  }

  function OnPlatform(input: Input): Asset -> bool {
    (a: Asset) => a.os == input.os
  }

  /** The loop over the platform's assets: the applicable ones so far, and
      whether a malformed requirement was skipped. */
  function Scan(assets: seq<Asset>, input: Input): Result<(seq<Asset>, bool), Reason> {
    if assets == [] then Ok(([], false))
    else
      var last := assets[|assets| - 1];
      match Scan(assets[..|assets| - 1], input)
      case Err(e) => Err(e)
      case Ok((applicable, malformed)) =>
        match ParseRuntimeMinimum(last)
        case None => Ok((applicable, true))
        case Some(minimum) =>
          match RuntimeMeets(input.runtime, input.os, minimum)
          case Err(e) => Err(e)
          case Ok(meets) => Ok((if meets then applicable + [last] else applicable, malformed))
  }

  /** Greater requirements first: `sort_by_key` on the reversed minimum. */
  function RankOf(a: Asset): seq<int> {
    match ParseRuntimeMinimum(a)
    case None => []
    case Some(WindowsMinimum(major, year, half)) => [-(major as int), -(year as int), -(half as int)]
    case Some(GlibcMinimum(major, minor)) => [-(major as int), -(minor as int)]
  }

  const RANK: Asset -> seq<int> := (a: Asset) => RankOf(a)

  function PickFirst(applicable: seq<Asset>, malformed: bool): Result<Asset, Reason> {
    if applicable == [] then Err(if malformed then MalformedRuntimeRequirement else RuntimeBelowMinimum)
    else
      var sorted := Sort(RANK, applicable);
      if |sorted| > 1 && RANK(sorted[0]) == RANK(sorted[1]) then Err(AmbiguousAsset) else Ok(sorted[0])
  }

  function SelectAsset(assets: seq<Asset>, input: Input): Result<Asset, Reason> {
    var platform := Filter(OnPlatform(input), assets);
    if platform == [] then Err(UnsupportedPlatform)
    else
      match Scan(platform, input)
      case Err(e) => Err(e)
      case Ok((applicable, malformed)) => PickFirst(applicable, malformed)
  }

  lemma {:induction false} ScanStopsAtError(assets: seq<Asset>, input: Input, k: nat)
    requires k <= |assets| && Scan(assets[..k], input).Err?
    ensures Scan(assets, input) == Scan(assets[..k], input)
    decreases |assets|
  {
    if k < |assets| {
      assert assets[..|assets| - 1][..k] == assets[..k];
      ScanStopsAtError(assets[..|assets| - 1], input, k);
    } else {
      assert assets[..k] == assets;
    }
  }

  /** `select_asset` as it runs. */
  method ChooseAsset(assets: seq<Asset>, input: Input) returns (r: Result<Asset, Reason>)
    ensures r == SelectAsset(assets, input)
  {
    var platform := Filter(OnPlatform(input), assets);
    if platform == [] {
      return Err(UnsupportedPlatform);
    }
    var applicable: seq<Asset>, malformed := [], false;
    for i := 0 to |platform|
      invariant Scan(platform[..i], input) == Ok((applicable, malformed))
    {
      assert platform[..i + 1][..i] == platform[..i];
      var minimum := ParseRuntimeMinimum(platform[i]);
      if minimum.None? {
        malformed := true;
      } else {
        var meets := RuntimeMeets(input.runtime, input.os, minimum.value);
        if meets.Err? {
          ScanStopsAtError(platform, input, i + 1);
          return Err(meets.error);
        }
        if meets.value {
          applicable := applicable + [platform[i]];
        }
      }
    }
    assert platform[..|platform|] == platform;
    r := PickFirst(applicable, malformed);
  }

  // ----- Compatibility records -----

  function CompatOsOf(os: TargetOs): CompatOs {
    match os case LinuxTarget => LinuxOs case WindowsTarget => WindowsOs
  }

  predicate TupleMatches(t: CompatTuple, input: Input) {
    t.codex == input.codex && t.os == CompatOsOf(input.os) && t.arch == X86 && t.surface == input.surface
  }

  function Matching(input: Input): CompatRecord -> bool {
    (r: CompatRecord) => TupleMatches(r.tuple, input)
  }

  /** `select_compatibility`. */
  function SelectCompatibility(records: seq<CompatRecord>, input: Input): Result<Compatibility, Reason> {
    var matching := Filter(Matching(input), records);
    if exists i :: 0 <= i < |matching| && matching[i].eligibility.Excluded? then Err(CompatibilityExcluded)
    else if |matching| != 1 then Err(if matching == [] then CompatibilityUnavailable else AmbiguousCompatibility)
    else
      match matching[0].eligibility
      case Reviewed(evidence) => Ok(ReviewedBy(evidence))
      case Experimental(basis) => if input.mode.Automatic? then Ok(ExperimentalOn(basis)) else Err(StrictRequiresReviewed)
      case Excluded(_) => Err(CompatibilityExcluded)
  }

  // ----- The whole selection -----

  datatype Verdict = Accept(asset: Asset, compatibility: Compatibility) | Reject(reason: Reason)

  function Judge(m: Manifest, input: Input): Verdict {
    if !Older(input.installed, m.version) then Reject(NotNewerThanInstalled)
    else
      match SelectAsset(m.assets, input)
      case Err(e) => Reject(e)
      case Ok(asset) =>
        match SelectCompatibility(m.records, input)
        case Err(e) => Reject(e)
        case Ok(compatibility) => Accept(asset, compatibility)
  }

  function ReleaseOf(m: Manifest, input: Input, v: Verdict): Release
    requires v.Accept?
  {
    Release(m, v.asset, v.compatibility, Explanation(input.installed, m.version, v.compatibility, m.notes))
  }

  function Releases(candidates: seq<Manifest>, input: Input): seq<Release> {
    if candidates == [] then []
    else
      var m := candidates[|candidates| - 1];
      var v := Judge(m, input);
      Releases(candidates[..|candidates| - 1], input) + if v.Accept? then [ReleaseOf(m, input, v)] else []
  }

  function Rejections(candidates: seq<Manifest>, input: Input): seq<Rejection> {
    if candidates == [] then []
    else
      var m := candidates[|candidates| - 1];
      var v := Judge(m, input);
      Rejections(candidates[..|candidates| - 1], input) + if v.Reject? then [Rejection(m.version, v.reason)] else []
  }

  const RELEASE_KEY: Release -> seq<int> := (r: Release) => r.manifest.version.Key()
  const REJECTION_KEY: Rejection -> seq<int> := (r: Rejection) => r.version.Key() + [r.reason.Rank()]
  const CATALOG_IDENTITY: Asset -> string := (a: Asset) => CatalogAssetIdentity(a)

  ghost function ManifestAmbiguity(m: Manifest): Option<Reason> {
    if !DistinctBy(NAME, m.assets) || !DistinctBy(CATALOG_IDENTITY, m.assets) then Some(ConflictingAssetIdentity)
    else if !DistinctBy(RECORD_IDENTITY, m.records) then Some(AmbiguousCompatibility)
    else None
  }

  /** The first fault that the loop over the candidates meets. */
  ghost function CatalogAmbiguity(candidates: seq<Manifest>): Option<Reason> {
    if candidates == [] then None
    else
      var front, m := candidates[..|candidates| - 1], candidates[|candidates| - 1];
      match CatalogAmbiguity(front)
      case Some(r) => Some(r)
      case None =>
        if exists i :: 0 <= i < |front| && front[i].version == m.version then Some(DuplicateReleaseVersion)
        else ManifestAmbiguity(m)
  }

  ghost function Select(candidates: seq<Manifest>, input: Input): Outcome {
    if candidates == [] then Rejected(EmptyCatalog)
    else
      match CatalogAmbiguity(candidates)
      case Some(reason) => Rejected(reason)
      case None =>
        var releases := Releases(candidates, input);
        if releases == [] then NoApplicable(Sort(REJECTION_KEY, Rejections(candidates, input)))
        else Selected(Sort(RELEASE_KEY, releases)[|releases| - 1])
  }

  lemma {:induction false} AmbiguityStops(candidates: seq<Manifest>, k: nat)
    requires k <= |candidates| && CatalogAmbiguity(candidates[..k]).Some?
    ensures CatalogAmbiguity(candidates) == CatalogAmbiguity(candidates[..k])
    decreases |candidates|
  {
    if k < |candidates| {
      assert candidates[..|candidates| - 1][..k] == candidates[..k];
      AmbiguityStops(candidates[..|candidates| - 1], k);
    } else {
      assert candidates[..k] == candidates;
    }
  }

  lemma AmbiguityOfNext(candidates: seq<Manifest>, i: nat)
    requires i < |candidates| && CatalogAmbiguity(candidates[..i]) == None
    ensures CatalogAmbiguity(candidates[..i + 1]) ==
            if exists k :: 0 <= k < i && candidates[k].version == candidates[i].version then Some(DuplicateReleaseVersion)
            else ManifestAmbiguity(candidates[i])
  {
    var front, now := candidates[..i], candidates[..i + 1];
    assert now[..i] == front && now[i] == candidates[i];
    forall k | 0 <= k < i ensures front[k] == candidates[k] {}
    if exists k :: 0 <= k < i && candidates[k].version == candidates[i].version {
      var k :| 0 <= k < i && candidates[k].version == candidates[i].version;
      assert front[k].version == candidates[i].version;
    }
  }

  method FindManifestAmbiguity(m: Manifest) returns (r: Option<Reason>)
    ensures r == ManifestAmbiguity(m)
  {
    var distinct := ValidateEntries(m.assets, a => true, NAME, CATALOG_IDENTITY);
    if !distinct {
      return Some(ConflictingAssetIdentity);
    }
    distinct := ValidateEntries(m.records, x => true, RECORD_IDENTITY, RECORD_IDENTITY);
    if !distinct {
      return Some(AmbiguousCompatibility);
    }
    return None;
  }

  /** `validate_catalog_ambiguity`. */
  method FindAmbiguity(candidates: seq<Manifest>) returns (r: Option<Reason>)
    ensures r == CatalogAmbiguity(candidates)
  {
    var versions: set<StableVersion> := {};
    for i := 0 to |candidates|
      invariant CatalogAmbiguity(candidates[..i]) == None
      invariant forall v :: v in versions <==> exists k :: 0 <= k < i && candidates[k].version == v
    {
      AmbiguityOfNext(candidates, i);
      if candidates[i].version in versions {
        AmbiguityStops(candidates, i + 1);
        return Some(DuplicateReleaseVersion);
      }
      versions := versions + {candidates[i].version};
      r := FindManifestAmbiguity(candidates[i]);
      if r.Some? {
        AmbiguityStops(candidates, i + 1);
        return;
      }
    }
    assert candidates[..|candidates|] == candidates;
    return None;
  }

  /** `select_applicable`. */
  method SelectApplicable(candidates: seq<Manifest>, input: Input) returns (outcome: Outcome)
    ensures outcome == Select(candidates, input)
  {
    if candidates == [] {
      return Rejected(EmptyCatalog);
    }
    var ambiguity := FindAmbiguity(candidates);
    if ambiguity.Some? {
      return Rejected(ambiguity.value);
    }
    var selected: seq<Release>, rejections: seq<Rejection> := [], [];
    for i := 0 to |candidates|
      invariant selected == Releases(candidates[..i], input) && rejections == Rejections(candidates[..i], input)
    {
      assert candidates[..i + 1][..i] == candidates[..i];
      var m := candidates[i];
      if !Older(input.installed, m.version) {
        rejections := rejections + [Rejection(m.version, NotNewerThanInstalled)];
      } else {
        var asset := ChooseAsset(m.assets, input);
        if asset.Err? {
          rejections := rejections + [Rejection(m.version, asset.error)];
        } else {
          var compatibility := SelectCompatibility(m.records, input);
          if compatibility.Err? {
            rejections := rejections + [Rejection(m.version, compatibility.error)];
          } else {
            var explanation := Explanation(input.installed, m.version, compatibility.value, m.notes);
            selected := selected + [Release(m, asset.value, compatibility.value, explanation)];
          }
        }
      }
    }
    assert candidates[..|candidates|] == candidates;
    if selected == [] {
      return NoApplicable(Sort(REJECTION_KEY, rejections));
    }
    var sorted := Sort(RELEASE_KEY, selected);
    return Selected(sorted[|sorted| - 1]);
  }
}
