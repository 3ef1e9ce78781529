/** What selection promises on catalogs of validated manifests. */
module SelectionLaws {
  import opened Common
  import opened Order
  import opened Versions
  import opened Manifest
  import opened Selection

  // ----- Declarative definitions -----

  /** Why the host's runtime cannot be compared at all. */
  function RuntimeProblem(input: Input): Option<Reason> {
    match input.runtime
    case UnrecognisedRuntime => Some(UnknownRuntime)
    case WindowsRuntime(_, _, half) =>
      if !input.os.WindowsTarget? then Some(UnsupportedRuntime)
      else if half !in {1, 2} then Some(UnknownRuntime) else None
    case GlibcRuntime(_, _) => if input.os.LinuxTarget? then None else Some(UnsupportedRuntime)
  }

  /** The asset is for the host's platform and the host's runtime is new enough. */
  function Meets(input: Input): Asset -> bool {
    (a: Asset) => a.os == input.os && ParseRuntimeMinimum(a).Some? && RuntimeProblem(input).None?
                  && !Less(HostKey(input.runtime), ParseRuntimeMinimum(a).value.Key())
  }

  /** The applicable asset with the greatest requirement. */
  ghost predicate Best(assets: seq<Asset>, input: Input, a: Asset) {
    && a in assets && Meets(input)(a)
    && forall b :: b in assets && Meets(input)(b) && b != a ==> Less(RANK(a), RANK(b))
  }

  predicate Admits(e: Eligibility, mode: Mode) {
    e.Reviewed? || (e.Experimental? && mode.Automatic?)
  }

  /** Newer than installed, with an applicable asset and an admitting record. */
  ghost predicate Applicable(m: Manifest, input: Input) {
    && Older(input.installed, m.version)
    && (exists a :: a in m.assets && Meets(input)(a))
    && (exists r :: r in m.records && Matching(input)(r) && Admits(r.eligibility, input.mode))
  }

  ghost predicate AllValid(checks: Checks, candidates: seq<Manifest>) {
    forall m :: m in candidates ==> ValidManifest(checks, m)
  }

  const VERSION: Manifest -> StableVersion := (m: Manifest) => m.version

  // ----- Assets -----

  /** New enough, part by part. */
  lemma HostOrder(a: Asset, input: Input)
    requires ParseRuntimeMinimum(a).Some? && a.os == input.os && RuntimeProblem(input).None?
    ensures var p := ParseRuntimeMinimum(a).value;
      match input.runtime
      case WindowsRuntime(major, year, half) =>
        && p.WindowsMinimum?
        && (Meets(input)(a) <==>
              p.major < major || (p.major == major && (p.year < year || (p.year == year && p.half <= half))))
      case GlibcRuntime(major, minor) =>
        p.GlibcMinimum? && (Meets(input)(a) <==> p.major < major || (p.major == major && p.minor <= minor))
      case UnrecognisedRuntime => false
  {
    var p := ParseRuntimeMinimum(a).value;
    match input.runtime
    case WindowsRuntime(major, year, half) =>
      assert HostKey(input.runtime) == [0] + [major, year, half] && p.Key() == [0] + [p.major, p.year, p.half];
      LessHead(0, [major, year, half], 0, [p.major, p.year, p.half]);
      LessThree(major, year, half, p.major, p.year, p.half);
    case GlibcRuntime(major, minor) =>
      assert HostKey(input.runtime) == [1] + [major, minor] && p.Key() == [1] + [p.major, p.minor];
      LessHead(1, [major, minor], 1, [p.major, p.minor]);
      LessTwo(major, minor, p.major, p.minor);
  }

  /** A greater requirement, part by part. */
  lemma RequirementOrder(a: Asset, b: Asset)
    requires ParseRuntimeMinimum(a).Some? && ParseRuntimeMinimum(b).Some? && a.os == b.os
    ensures match (ParseRuntimeMinimum(a).value, ParseRuntimeMinimum(b).value)
      case (WindowsMinimum(m, y, h), WindowsMinimum(major, year, half)) =>
        Less(RANK(b), RANK(a)) <==> m < major || (m == major && (y < year || (y == year && h < half)))
      case (GlibcMinimum(m, n), GlibcMinimum(major, minor)) =>
        Less(RANK(b), RANK(a)) <==> m < major || (m == major && n < minor)
      case _ => false
  {
    match (ParseRuntimeMinimum(a).value, ParseRuntimeMinimum(b).value)
    case (WindowsMinimum(m, y, h), WindowsMinimum(major, year, half)) =>
      LessThree(-(major as int), -(year as int), -(half as int), -(m as int), -(y as int), -(h as int));
    case (GlibcMinimum(m, n), GlibcMinimum(major, minor)) =>
      LessTwo(-(major as int), -(minor as int), -(m as int), -(n as int));
  }

  ghost predicate Comparable(assets: seq<Asset>, input: Input) {
    forall a :: a in assets ==> a.os == input.os && ParseRuntimeMinimum(a).Some?
  }

  lemma RankInjective(a: Asset, b: Asset)
    requires a.os == b.os && ParseRuntimeMinimum(a).Some? && ParseRuntimeMinimum(b).Some? && RankOf(a) == RankOf(b)
    ensures ParseRuntimeMinimum(a) == ParseRuntimeMinimum(b)
  {
  }

  /** Assets of one platform with pairwise different requirements have different ranks. */
  lemma RanksDistinct(assets: seq<Asset>, input: Input)
    requires GoodAssets(assets) && Comparable(assets, input)
    ensures DistinctBy(RANK, assets)
  {
    forall i, j | 0 <= i < j < |assets| ensures RANK(assets[i]) != RANK(assets[j]) {
      assert assets[i] in assets && assets[j] in assets;
      if RankOf(assets[i]) == RankOf(assets[j]) {
        RankInjective(assets[i], assets[j]);
      }
    }
  }

  /** The answer of `select_asset`, said without any order of the assets. */
  ghost predicate AssetAnswer(assets: seq<Asset>, input: Input, r: Result<Asset, Reason>) {
    if forall a :: a in assets ==> a.os != input.os then r == Err(UnsupportedPlatform)
    else if RuntimeProblem(input).Some? then r == Err(RuntimeProblem(input).value)
    else if forall a :: a in assets ==> !Meets(input)(a) then r == Err(RuntimeBelowMinimum)
    else r.Ok? && Best(assets, input, r.value)
  }

  /** What validation leaves behind: requirements parse and differ on each platform. */
  ghost predicate GoodAssets(assets: seq<Asset>) {
    && (forall a :: a in assets ==> ParseRuntimeMinimum(a).Some?)
    && (forall i, j :: 0 <= i < j < |assets| && assets[i].os == assets[j].os ==>
          ParseRuntimeMinimum(assets[i]) != ParseRuntimeMinimum(assets[j]))
  }

  lemma ValidAssetsGood(checks: Checks, m: Manifest)
    requires ValidManifest(checks, m)
    ensures GoodAssets(m.assets)
  {
    forall a | a in m.assets ensures ParseRuntimeMinimum(a).Some? {
      var i :| 0 <= i < |m.assets| && m.assets[i] == a;
      assert ValidAsset(checks, m.assets[i]);
    }
    forall i, j | 0 <= i < j < |m.assets| && m.assets[i].os == m.assets[j].os
      ensures ParseRuntimeMinimum(m.assets[i]) != ParseRuntimeMinimum(m.assets[j])
    {
      DistinctMinimums(checks, m, i, j);
    }
  }

  lemma {:induction false} FilterGood(p: Asset -> bool, assets: seq<Asset>)
    requires GoodAssets(assets)
    ensures GoodAssets(Filter(p, assets))
  {
    if assets != [] {
      var front, last := assets[..|assets| - 1], assets[|assets| - 1];
      assert forall a :: a in front ==> a in assets;
      assert last in assets;
      FilterGood(p, front);
      FilterMembers(p, front);
      forall a | a in Filter(p, front) && a.os == last.os ensures ParseRuntimeMinimum(a) != ParseRuntimeMinimum(last) {
        var i :| 0 <= i < |front| && front[i] == a;
        assert assets[i] == a;
      }
    }
  }

  lemma SelectAssetAnswer(assets: seq<Asset>, input: Input)
    requires GoodAssets(assets)
    ensures AssetAnswer(assets, input, SelectAsset(assets, input))
  {
    SelectAssetExactly(assets, input);
    NeverTied(assets, input);
    assert forall a :: a in assets && OnHost(a, input) ==> ParseRuntimeMinimum(a).Some?;
  }

  lemma NeverTied(assets: seq<Asset>, input: Input)
    requires GoodAssets(assets)
    ensures !TiedBest(assets, input)
  {
    var applicable := Filter(Meets(input), assets);
    FilterMembers(Meets(input), assets);
    FilterGood(Meets(input), assets);
    RanksDistinct(applicable, input);
    assert forall i, j :: 0 <= i < j < |applicable| ==> RANK(applicable[i]) != RANK(applicable[j]);
  }

  lemma AssetAnswerUnique(assets: seq<Asset>, others: seq<Asset>, input: Input, r: Result<Asset, Reason>, q: Result<Asset, Reason>)
    requires forall a :: a in assets <==> a in others
    requires AssetAnswer(assets, input, r) && AssetAnswer(others, input, q)
    ensures r == q
  {
    if r.Ok? && q.Ok? && r.value != q.value {
      LessTotal(RANK(r.value), RANK(q.value));
    }
  }

  // ----- Compatibility records -----

  function EligibilityAnswer(e: Eligibility, mode: Mode): Result<Compatibility, Reason> {
    match e
    case Reviewed(evidence) => Ok(ReviewedBy(evidence))
    case Experimental(basis) => if mode.Automatic? then Ok(ExperimentalOn(basis)) else Err(StrictRequiresReviewed)
    case Excluded(_) => Err(CompatibilityExcluded)
  }

  /** The answer of `select_compatibility`, said without any order of the records. */
  ghost predicate RecordAnswer(records: seq<CompatRecord>, input: Input, r: Result<Compatibility, Reason>) {
    && ((forall x :: x in records ==> !Matching(input)(x)) ==> r == Err(CompatibilityUnavailable))
    && (forall x :: x in records && Matching(input)(x) ==> r == EligibilityAnswer(x.eligibility, input.mode))
  }

  /** What validation leaves behind: one hook schema, no tuple twice. */
  ghost predicate GoodRecords(records: seq<CompatRecord>, hook: HookSchema) {
    && (forall r :: r in records ==> r.tuple.hook == hook)
    && (forall i, j :: 0 <= i < j < |records| ==> records[i].tuple != records[j].tuple)
  }

  lemma ValidRecordsGood(checks: Checks, m: Manifest) returns (hook: HookSchema)
    requires ValidManifest(checks, m)
    ensures GoodRecords(m.records, hook)
  {
    hook := checks.hook;
  }

  lemma {:induction false} FilterTuples(p: CompatRecord -> bool, records: seq<CompatRecord>, hook: HookSchema)
    requires GoodRecords(records, hook)
    ensures GoodRecords(Filter(p, records), hook)
  {
    if records != [] {
      var front, last := records[..|records| - 1], records[|records| - 1];
      assert forall r :: r in front ==> r in records;
      assert last in records;
      FilterTuples(p, front, hook);
      FilterMembers(p, front);
      forall r | r in Filter(p, front) ensures r.tuple != last.tuple {
        var i :| 0 <= i < |front| && front[i] == r;
        assert records[i] == r;
      }
    }
  }

  /** Validation fixes every hook field, so at most one record matches. */
  lemma AtMostOneMatch(records: seq<CompatRecord>, input: Input, hook: HookSchema)
    requires GoodRecords(records, hook)
    ensures |Filter(Matching(input), records)| <= 1
  {
    var matching := Filter(Matching(input), records);
    assert |matching| > 1 ==> matching[0] in matching && matching[1] in matching;
    FilterMembers(Matching(input), records);
    FilterTuples(Matching(input), records, hook);
    assert forall x, y :: x in matching && y in matching ==> x.tuple == y.tuple;
  }

  lemma SelectCompatibilityAnswer(records: seq<CompatRecord>, input: Input, hook: HookSchema)
    requires GoodRecords(records, hook)
    ensures RecordAnswer(records, input, SelectCompatibility(records, input))
    ensures SelectCompatibility(records, input) != Err(AmbiguousCompatibility)
  {
    var matching := Filter(Matching(input), records);
    AtMostOneMatch(records, input, hook);
    FilterMembers(Matching(input), records);
    if matching != [] {
      assert matching == [matching[0]];
      assert matching[0] in matching;
    }
  }

  // ----- Unreachable reasons -----

  /** On a validated manifest selection never reports an ambiguous asset, a
      malformed requirement or an ambiguous compatibility record, and the
      catalog check has nothing to object to. */
  lemma ValidatedNeverAmbiguous(checks: Checks, m: Manifest, input: Input)
    requires ValidManifest(checks, m)
    ensures SelectAsset(m.assets, input) != Err(AmbiguousAsset)
    ensures SelectAsset(m.assets, input) != Err(MalformedRuntimeRequirement)
    ensures SelectCompatibility(m.records, input) != Err(AmbiguousCompatibility)
    ensures ManifestAmbiguity(m) == None
  {
    ValidAssetsGood(checks, m);
    SelectAssetAnswer(m.assets, input);
    AnswerNotAmbiguous(m.assets, input, SelectAsset(m.assets, input));
    var hook := ValidRecordsGood(checks, m);
    SelectCompatibilityAnswer(m.records, input, hook);
    NoAmbiguity(checks, m);
  }

  lemma AnswerNotAmbiguous(assets: seq<Asset>, input: Input, r: Result<Asset, Reason>)
    requires AssetAnswer(assets, input, r)
    ensures r != Err(AmbiguousAsset) && r != Err(MalformedRuntimeRequirement)
  {
  }

  lemma NoAmbiguity(checks: Checks, m: Manifest)
    requires ValidManifest(checks, m)
    ensures ManifestAmbiguity(m) == None
  {
    forall i, j | 0 <= i < j < |m.assets| ensures CATALOG_IDENTITY(m.assets[i]) != CATALOG_IDENTITY(m.assets[j]) {
      assert ValidAsset(checks, m.assets[i]) && ValidAsset(checks, m.assets[j]);
      assert IDENTITY(m.assets[i]) != IDENTITY(m.assets[j]);
      CatalogIdentityDiffers(m.assets[i], m.assets[j]);
    }
  }

  lemma CatalogIdentityDiffers(a: Asset, b: Asset)
    requires ConsistentPlatform(a) && ConsistentPlatform(b) && AssetIdentity(a) != AssetIdentity(b)
    ensures CatalogAssetIdentity(a) != CatalogAssetIdentity(b)
  {
    if CatalogAssetIdentity(a) == CatalogAssetIdentity(b) {
      CatalogIdentityRefines(a, b);
    }
  }

  /** A validated catalog is refused only for repeating a release version. */
  lemma {:induction false} ValidatedAmbiguity(checks: Checks, candidates: seq<Manifest>)
    requires AllValid(checks, candidates)
    ensures CatalogAmbiguity(candidates) == if DistinctBy(VERSION, candidates) then None else Some(DuplicateReleaseVersion)
  {
    if candidates != [] {
      var front, m := candidates[..|candidates| - 1], candidates[|candidates| - 1];
      assert m in candidates;
      assert forall x :: x in front ==> x in candidates;
      ValidatedAmbiguity(checks, front);
      NoAmbiguity(checks, m);
      VersionsAppend(front, m);
      assert candidates == front + [m];
    }
  }

  lemma VersionsAppend(front: seq<Manifest>, m: Manifest)
    ensures DistinctBy(VERSION, front + [m]) <==>
            DistinctBy(VERSION, front) && forall i :: 0 <= i < |front| ==> front[i].version != m.version
  {
    var all := front + [m];
    if DistinctBy(VERSION, all) {
      forall i | 0 <= i < |front| ensures front[i].version != m.version {
        assert all[i].version != all[|front|].version;
      }
      forall i, j | 0 <= i < j < |front| ensures front[i].version != front[j].version {
        assert all[i].version != all[j].version;
      }
    }
  }

  // ----- One candidate -----

  /** A valid candidate is accepted exactly when it is applicable; then its
      asset is the best one and its compatibility comes from an admitting record. */
  lemma JudgeExact(checks: Checks, m: Manifest, input: Input)
    requires ValidManifest(checks, m)
    ensures Judge(m, input).Accept? <==> Applicable(m, input)
    ensures Judge(m, input).Accept? ==>
              && Best(m.assets, input, Judge(m, input).asset)
              && exists r :: r in m.records && Matching(input)(r)
                             && EligibilityAnswer(r.eligibility, input.mode) == Ok(Judge(m, input).compatibility)
  {
    ValidAssetsGood(checks, m);
    SelectAssetAnswer(m.assets, input);
    var hook := ValidRecordsGood(checks, m);
    SelectCompatibilityAnswer(m.records, input, hook);
  }

  /** Two manifests that differ only in the order of assets and records. */
  ghost predicate Similar(m: Manifest, n: Manifest) {
    && m.(assets := [], records := []) == n.(assets := [], records := [])
    && multiset(m.assets) == multiset(n.assets)
    && multiset(m.records) == multiset(n.records)
  }

  lemma SimilarMembers(m: Manifest, n: Manifest)
    requires Similar(m, n)
    ensures m.version == n.version && m.notes == n.notes
    ensures forall a :: a in m.assets <==> a in n.assets
    ensures forall r :: r in m.records <==> r in n.records
  {
    assert forall a :: a in m.assets <==> a in multiset(m.assets);
    assert forall a :: a in n.assets <==> a in multiset(n.assets);
    assert forall r :: r in m.records <==> r in multiset(m.records);
    assert forall r :: r in n.records <==> r in multiset(n.records);
  }

  lemma JudgeSame(checks: Checks, m: Manifest, n: Manifest, input: Input)
    requires ValidManifest(checks, m) && ValidManifest(checks, n) && Similar(m, n)
    ensures Judge(m, input) == Judge(n, input)
  {
    SimilarMembers(m, n);
    AssetsSame(checks, m, n, input);
    RecordsSame(checks, m, n, input);
    JudgeFrom(m, n, input);
  }

  lemma JudgeFrom(m: Manifest, n: Manifest, input: Input)
    requires m.version == n.version
    requires SelectAsset(m.assets, input) == SelectAsset(n.assets, input)
    requires SelectCompatibility(m.records, input) == SelectCompatibility(n.records, input)
    ensures Judge(m, input) == Judge(n, input)
  {
  }

  lemma AssetsSame(checks: Checks, m: Manifest, n: Manifest, input: Input)
    requires ValidManifest(checks, m) && ValidManifest(checks, n)
    requires forall a :: a in m.assets <==> a in n.assets
    ensures SelectAsset(m.assets, input) == SelectAsset(n.assets, input)
  {
    ValidAssetsGood(checks, m);
    ValidAssetsGood(checks, n);
    SelectAssetAnswer(m.assets, input);
    SelectAssetAnswer(n.assets, input);
    AssetAnswerUnique(m.assets, n.assets, input, SelectAsset(m.assets, input), SelectAsset(n.assets, input));
  }

  lemma RecordsSame(checks: Checks, m: Manifest, n: Manifest, input: Input)
    requires ValidManifest(checks, m) && ValidManifest(checks, n)
    requires forall r :: r in m.records <==> r in n.records
    ensures SelectCompatibility(m.records, input) == SelectCompatibility(n.records, input)
  {
    var hook := ValidRecordsGood(checks, m);
    var hook' := ValidRecordsGood(checks, n);
    SelectCompatibilityAnswer(m.records, input, hook);
    SelectCompatibilityAnswer(n.records, input, hook');
  }

  // ----- One candidate that nobody has validated -----

  /** Two records at different places match. */
  ghost predicate TwoMatch(records: seq<CompatRecord>, input: Input) {
    exists i, j :: 0 <= i < j < |records| && IsAbout(records[i], input) && IsAbout(records[j], input)
  }

  lemma {:induction false} MatchCount(records: seq<CompatRecord>, input: Input)
    ensures |Filter(Matching(input), records)| >= 1 <==> exists i :: 0 <= i < |records| && IsAbout(records[i], input)
    ensures |Filter(Matching(input), records)| >= 2 <==> TwoMatch(records, input)
  {
    if records != [] {
      var n := |records| - 1;
      var front, last := records[..n], records[n];
      MatchCount(front, input);
      assert Matching(input)(last) <==> IsAbout(last, input);
      if TwoMatch(records, input) {
        var i, j :| 0 <= i < j < |records| && IsAbout(records[i], input) && IsAbout(records[j], input);
        assert front[i] == records[i];
        if j < n { assert front[j] == records[j]; }
      }
      if i :| 0 <= i < |front| && IsAbout(front[i], input) {
        assert records[i] == front[i];
        if IsAbout(last, input) { assert IsAbout(records[n], input); }
      }
      if TwoMatch(front, input) {
        var i, j :| 0 <= i < j < |front| && IsAbout(front[i], input) && IsAbout(front[j], input);
        assert records[i] == front[i] && records[j] == front[j];
      }
    }
  }

  /** The answer for any records at all: an exclusion goes first, then the number of
      records about this Codex, then the eligibility of the only one. */
  lemma SelectCompatibilityExactly(records: seq<CompatRecord>, input: Input)
    ensures var r := SelectCompatibility(records, input);
      if exists x :: x in records && IsAbout(x, input) && x.eligibility.Excluded? then r == Err(CompatibilityExcluded)
      else if forall x :: x in records ==> !IsAbout(x, input) then r == Err(CompatibilityUnavailable)
      else if TwoMatch(records, input) then r == Err(AmbiguousCompatibility)
      else forall x :: x in records && IsAbout(x, input) ==> r == EligibilityAnswer(x.eligibility, input.mode)
  {
    var matching := Filter(Matching(input), records);
    FilterMembers(Matching(input), records);
    MatchCount(records, input);
    forall x ensures x in matching <==> x in records && IsAbout(x, input) {}
    if x :| x in matching && x.eligibility.Excluded? {
      var i :| 0 <= i < |matching| && matching[i] == x;
      assert matching[i].eligibility.Excluded?;
    }
    forall i | 0 <= i < |matching| ensures matching[i] in records && IsAbout(matching[i], input) {
      assert matching[i] in matching;
    }
    if |matching| == 1 {
      assert matching == [matching[0]];
    }
  }

  predicate OnHost(a: Asset, input: Input) {
    a.os == input.os
  }

  ghost predicate SomeReadable(assets: seq<Asset>, input: Input) {
    exists a :: a in assets && OnHost(a, input) && ParseRuntimeMinimum(a).Some?
  }

  ghost predicate SomeMalformed(assets: seq<Asset>, input: Input) {
    exists a :: a in assets && OnHost(a, input) && ParseRuntimeMinimum(a).None?
  }

  ghost predicate AllOnHost(platform: seq<Asset>, input: Input) {
    forall a :: a in platform ==> OnHost(a, input)
  }

  lemma ScanOne(front: seq<Asset>, last: Asset, input: Input)
    requires OnHost(last, input)
    ensures SomeReadable(front + [last], input) <==> SomeReadable(front, input) || ParseRuntimeMinimum(last).Some?
    ensures SomeMalformed(front + [last], input) <==> SomeMalformed(front, input) || ParseRuntimeMinimum(last).None?
    ensures Filter(Meets(input), front + [last]) ==
            if Meets(input)(last) then Filter(Meets(input), front) + [last] else Filter(Meets(input), front)
    ensures Scan(front + [last], input) ==
            match Scan(front, input)
            case Err(e) => Err(e)
            case Ok((applicable, malformed)) =>
              if ParseRuntimeMinimum(last).None? then Ok((applicable, true))
              else if RuntimeProblem(input).Some? then Err(RuntimeProblem(input).value)
              else Ok((if Meets(input)(last) then applicable + [last] else applicable, malformed))
  {
    var all := front + [last];
    assert all[..|front|] == front && all[|front|] == last;
    assert forall a :: a in all <==> a in front || a == last;
    assert Filter(Meets(input), front) + [] == Filter(Meets(input), front);
  }

  lemma {:induction false} ScanExactly(platform: seq<Asset>, input: Input)
    requires AllOnHost(platform, input)
    ensures Scan(platform, input) ==
            if RuntimeProblem(input).Some? && SomeReadable(platform, input) then Err(RuntimeProblem(input).value)
            else Ok((Filter(Meets(input), platform), SomeMalformed(platform, input)))
  {
    if platform != [] {
      var front, last := platform[..|platform| - 1], platform[|platform| - 1];
      assert platform == front + [last];
      assert last in platform && forall a :: a in front ==> a in platform;
      ScanExactly(front, input);
      ScanOne(front, last, input);
      if RuntimeProblem(input).Some? {
        assert !Meets(input)(last);
      }
    }
  }

  lemma {:induction false} FilterTwice(p: Asset -> bool, q: Asset -> bool, s: seq<Asset>)
    requires forall a :: q(a) ==> p(a)
    ensures Filter(q, Filter(p, s)) == Filter(q, s)
  {
    if s != [] {
      var front, last := s[..|s| - 1], s[|s| - 1];
      FilterTwice(p, q, front);
      var kept := Filter(p, front);
      if p(last) {
        assert (kept + [last])[..|kept|] == kept;
      } else {
        assert kept + [] == kept;
      }
    }
  }

  /** Two applicable assets, at different places, share the greatest requirement. */
  ghost predicate TiedBest(assets: seq<Asset>, input: Input) {
    Tied(RANK, Filter(Meets(input), assets))
  }

  lemma PickExactly(applicable: seq<Asset>, malformed: bool)
    requires applicable != []
    ensures Tied(RANK, applicable) ==> PickFirst(applicable, malformed) == Err(AmbiguousAsset)
    ensures !Tied(RANK, applicable) ==>
      var r := PickFirst(applicable, malformed);
      r.Ok? && r.value in applicable && forall b :: b in applicable && b != r.value ==> Less(RANK(r.value), RANK(b))
  {
    var sorted := Sort(RANK, applicable);
    SortSorted(RANK, applicable);
    TiedSorted(RANK, sorted);
    if Tied(RANK, applicable) {
      TiedPermuted(RANK, applicable, sorted);
    } else {
      if Tied(RANK, sorted) { TiedPermuted(RANK, sorted, applicable); }
      assert sorted[0] in sorted;
      forall b | b in applicable && b != sorted[0] ensures Less(RANK(sorted[0]), RANK(b)) {
        assert b in sorted;
        var k :| 0 <= k < |sorted| && sorted[k] == b;
        LessTotal(RANK(sorted[0]), RANK(sorted[1]));
        LessMixed(RANK(sorted[0]), RANK(sorted[1]), RANK(sorted[k]));
        if k == 1 { LessTotal(RANK(sorted[0]), RANK(sorted[k])); }
      }
    }
  }

  /** The two filters leave the applicable assets, and the scan sees the same
      assets of the host's system. */
  lemma PlatformSplits(assets: seq<Asset>, input: Input, platform: seq<Asset>)
    requires platform == Filter(OnPlatform(input), assets)
    ensures AllOnHost(platform, input) && Filter(Meets(input), platform) == Filter(Meets(input), assets)
    ensures platform == [] <==> forall a :: a in assets ==> !OnHost(a, input)
    ensures SomeReadable(platform, input) <==> SomeReadable(assets, input)
    ensures SomeMalformed(platform, input) <==> SomeMalformed(assets, input)
  {
    FilterMembers(OnPlatform(input), assets);
    forall a ensures a in platform <==> a in assets && OnHost(a, input) {}
    FilterTwice(OnPlatform(input), Meets(input), assets);
    if platform != [] { assert platform[0] in platform; }
  }

  /** The answer for any assets at all, also ones that validation would refuse. */
  lemma SelectAssetExactly(assets: seq<Asset>, input: Input)
    ensures var r := SelectAsset(assets, input);
      if forall a :: a in assets ==> !OnHost(a, input) then r == Err(UnsupportedPlatform)
      else if RuntimeProblem(input).Some? && SomeReadable(assets, input) then r == Err(RuntimeProblem(input).value)
      else if forall a :: a in assets ==> !Meets(input)(a) then
        r == Err(if SomeMalformed(assets, input) then MalformedRuntimeRequirement else RuntimeBelowMinimum)
      else if TiedBest(assets, input) then r == Err(AmbiguousAsset)
      else r.Ok? && Best(assets, input, r.value)
  {
    var platform := Filter(OnPlatform(input), assets);
    PlatformSplits(assets, input, platform);
    ScanExactly(platform, input);
    FilterMembers(Meets(input), assets);
    var applicable := Filter(Meets(input), assets);
    if applicable != [] {
      assert applicable[0] in applicable;
      PickExactly(applicable, SomeMalformed(platform, input));
    }
  }

  // ----- The catalog -----

  ghost predicate AcceptedFrom(candidates: seq<Manifest>, input: Input, r: Release) {
    r.manifest in candidates && Judge(r.manifest, input).Accept? && r == ReleaseOf(r.manifest, input, Judge(r.manifest, input))
  }

  lemma {:induction false} ReleasesMembers(candidates: seq<Manifest>, input: Input)
    ensures forall r :: r in Releases(candidates, input) <==> AcceptedFrom(candidates, input, r)
  {
    if candidates != [] {
      var front, m := candidates[..|candidates| - 1], candidates[|candidates| - 1];
      ReleasesMembers(front, input);
      assert candidates == front + [m];
    }
  }

  ghost predicate RejectedFrom(candidates: seq<Manifest>, input: Input, x: Rejection) {
    exists m :: m in candidates && Judge(m, input) == Reject(x.reason) && m.version == x.version
  }

  lemma {:induction false} RejectionsMembers(candidates: seq<Manifest>, input: Input)
    ensures forall x :: x in Rejections(candidates, input) <==> RejectedFrom(candidates, input, x)
  {
    if candidates != [] {
      var front, m := candidates[..|candidates| - 1], candidates[|candidates| - 1];
      RejectionsMembers(front, input);
      assert candidates == front + [m];
      forall x ensures x in Rejections(candidates, input) <==> RejectedFrom(candidates, input, x) {
        if RejectedFrom(candidates, input, x) {
          var n :| n in candidates && Judge(n, input) == Reject(x.reason) && n.version == x.version;
          assert n in front ==> RejectedFrom(front, input, x);
        }
        if RejectedFrom(front, input, x) {
          var n :| n in front && Judge(n, input) == Reject(x.reason) && n.version == x.version;
          assert n in candidates;
        }
        if Judge(m, input).Reject? && x == Rejection(m.version, Judge(m, input).reason) {
          assert m in candidates;
        }
      }
    }
  }

  lemma {:induction false} ReleaseKeysDistinct(candidates: seq<Manifest>, input: Input)
    requires DistinctBy(VERSION, candidates)
    ensures DistinctBy(RELEASE_KEY, Releases(candidates, input))
  {
    if candidates != [] {
      var front, m := candidates[..|candidates| - 1], candidates[|candidates| - 1];
      assert candidates == front + [m];
      VersionsAppend(front, m);
      ReleaseKeysDistinct(front, input);
      ReleasesMembers(front, input);
      forall r | r in Releases(front, input) ensures RELEASE_KEY(r) != m.version.Key() {
        VersionApart(front, m, r.manifest);
      }
    }
  }

  lemma VersionApart(front: seq<Manifest>, m: Manifest, n: Manifest)
    requires n in front && forall i :: 0 <= i < |front| ==> front[i].version != m.version
    ensures n.version.Key() != m.version.Key()
  {
  }

  lemma {:induction false} RejectionKeysDistinct(candidates: seq<Manifest>, input: Input)
    requires DistinctBy(VERSION, candidates)
    ensures DistinctBy(REJECTION_KEY, Rejections(candidates, input))
  {
    if candidates != [] {
      var front, m := candidates[..|candidates| - 1], candidates[|candidates| - 1];
      assert candidates == front + [m];
      VersionsAppend(front, m);
      RejectionKeysDistinct(front, input);
      RejectionsMembers(front, input);
      var v := Judge(m, input);
      if v.Reject? {
        forall x | x in Rejections(front, input) ensures REJECTION_KEY(x) != REJECTION_KEY(Rejection(m.version, v.reason)) {
          var n :| n in front && Judge(n, input) == Reject(x.reason) && n.version == x.version;
          VersionApart(front, m, n);
          assert REJECTION_KEY(x)[..3] == x.version.Key();
          assert REJECTION_KEY(Rejection(m.version, v.reason))[..3] == m.version.Key();
        }
      }
    }
  }

  /** The last of the sorted releases is the greatest. */
  lemma LastIsGreatest(releases: seq<Release>)
    requires releases != [] && DistinctBy(RELEASE_KEY, releases)
    ensures var top := Sort(RELEASE_KEY, releases)[|releases| - 1];
            top in releases && forall r :: r in releases && r != top ==> Less(RELEASE_KEY(r), RELEASE_KEY(top))
  {
    LastOfSorted(RELEASE_KEY, releases);
  }

  /** The accepted candidate with the greatest version is the one selected. */
  lemma SelectsGreatestAccepted(candidates: seq<Manifest>, input: Input)
    requires candidates != [] && DistinctBy(VERSION, candidates) && CatalogAmbiguity(candidates) == None
    ensures !Select(candidates, input).Rejected?
    ensures Select(candidates, input).Selected? <==> exists m :: m in candidates && Judge(m, input).Accept?
    ensures Select(candidates, input).Selected? ==>
              var r := Select(candidates, input).release;
              && AcceptedFrom(candidates, input, r)
              && forall m :: m in candidates && Judge(m, input).Accept? && m != r.manifest ==> Older(m.version, r.manifest.version)
  {
    var releases := Releases(candidates, input);
    ReleasesMembers(candidates, input);
    forall m | m in candidates && Judge(m, input).Accept? ensures ReleaseOf(m, input, Judge(m, input)) in releases {
      assert AcceptedFrom(candidates, input, ReleaseOf(m, input, Judge(m, input)));
    }
    if releases != [] {
      ReleaseKeysDistinct(candidates, input);
      LastIsGreatest(releases);
      var top := Sort(RELEASE_KEY, releases)[|releases| - 1];
      assert AcceptedFrom(candidates, input, top);
      forall m | m in candidates && Judge(m, input).Accept? && m != top.manifest ensures Older(m.version, top.manifest.version) {
        var r := ReleaseOf(m, input, Judge(m, input));
        assert r in releases && r != top;
      }
    }
  }

  /** On a validated catalog with distinct versions, something is selected exactly
      when some candidate is applicable; the choice is the applicable candidate
      with the greatest version, with its best asset. */
  lemma SelectsGreatest(checks: Checks, candidates: seq<Manifest>, input: Input)
    requires AllValid(checks, candidates) && candidates != [] && DistinctBy(VERSION, candidates)
    ensures !Select(candidates, input).Rejected?
    ensures Select(candidates, input).Selected? <==> exists m :: m in candidates && Applicable(m, input)
    ensures Select(candidates, input).Selected? ==>
              var r := Select(candidates, input).release;
              && r.manifest in candidates && Applicable(r.manifest, input)
              && Best(r.manifest.assets, input, r.asset)
              && r.explanation == Explanation(input.installed, r.manifest.version, r.compatibility, r.manifest.notes)
              && forall m :: m in candidates && Applicable(m, input) && m != r.manifest ==> Older(m.version, r.manifest.version)
  {
    ValidatedAmbiguity(checks, candidates);
    SelectsGreatestAccepted(candidates, input);
    forall m | m in candidates ensures Judge(m, input).Accept? <==> Applicable(m, input) {
      JudgeExact(checks, m, input);
    }
    if Select(candidates, input).Selected? {
      JudgeExact(checks, Select(candidates, input).release.manifest, input);
    }
  }

  /** A validated catalog is refused exactly when it is empty or repeats a version. */
  lemma RefusedExactly(checks: Checks, candidates: seq<Manifest>, input: Input)
    requires AllValid(checks, candidates)
    ensures Select(candidates, input) == Rejected(EmptyCatalog) <==> candidates == []
    ensures Select(candidates, input) == Rejected(DuplicateReleaseVersion) <==> !DistinctBy(VERSION, candidates)
    ensures Select(candidates, input).Rejected? <==> candidates == [] || !DistinctBy(VERSION, candidates)
  {
    ValidatedAmbiguity(checks, candidates);
    if candidates != [] && DistinctBy(VERSION, candidates) {
      SelectsGreatest(checks, candidates, input);
    }
  }

  // ----- Order does not matter -----

  /** `others` lists the candidates in another order, each of them with its assets
      and records in some other order; `middle` is the list in between. */
  ghost predicate Rearranged(candidates: seq<Manifest>, middle: seq<Manifest>, others: seq<Manifest>) {
    && |candidates| == |middle| && multiset(middle) == multiset(others)
    && forall i :: 0 <= i < |candidates| ==> Similar(candidates[i], middle[i])
  }

  ghost predicate SameOutcome(a: Outcome, b: Outcome) {
    match a
    case Rejected(_) => a == b
    case NoApplicable(_) => a == b
    case Selected(r) =>
      b.Selected? && Similar(r.manifest, b.release.manifest)
      && r.asset == b.release.asset && r.compatibility == b.release.compatibility && r.explanation == b.release.explanation
  }

  function VersionSet(candidates: seq<Manifest>): set<StableVersion> {
    set m | m in candidates :: m.version
  }

  lemma {:induction false} DistinctByCount(candidates: seq<Manifest>)
    ensures |VersionSet(candidates)| <= |candidates|
    ensures DistinctBy(VERSION, candidates) <==> |VersionSet(candidates)| == |candidates|
  {
    if candidates != [] {
      var front, m := candidates[..|candidates| - 1], candidates[|candidates| - 1];
      DistinctByCount(front);
      VersionsAppend(front, m);
      assert candidates == front + [m];
      assert VersionSet(candidates) == VersionSet(front) + {m.version};
      assert m.version in VersionSet(front) <==> exists i :: 0 <= i < |front| && front[i].version == m.version;
    }
  }

  /** As far as selection can tell, `n` is `m`. */
  ghost predicate Alike(m: Manifest, n: Manifest, input: Input) {
    m.version == n.version && m.notes == n.notes && Judge(m, input) == Judge(n, input)
  }

  ghost predicate Aligned(candidates: seq<Manifest>, middle: seq<Manifest>, input: Input) {
    |candidates| == |middle| && forall i :: 0 <= i < |candidates| ==> Alike(candidates[i], middle[i], input)
  }

  ghost predicate SameMembers(middle: seq<Manifest>, others: seq<Manifest>) {
    |middle| == |others| && forall m :: m in middle <==> m in others
  }

  /** Validation does not look at the order of assets and records. */
  lemma SimilarKeepsValid(checks: Checks, m: Manifest, n: Manifest)
    requires ValidManifest(checks, m) && Similar(m, n)
    ensures ValidManifest(checks, n)
  {
    AllPermuted((a: Asset) => ValidAsset(checks, a), m.assets, n.assets);
    AllPermuted((r: CompatRecord) => ValidRecord(checks, r), m.records, n.records);
    DistinctByPermuted(NAME, m.assets, n.assets);
    DistinctByPermuted(IDENTITY, m.assets, n.assets);
    DistinctByPermuted(RECORD_IDENTITY, m.records, n.records);
  }

  lemma RearrangedValid(checks: Checks, candidates: seq<Manifest>, middle: seq<Manifest>, others: seq<Manifest>)
    requires AllValid(checks, candidates) && Rearranged(candidates, middle, others)
    ensures AllValid(checks, middle) && AllValid(checks, others)
  {
    PermutedMembers(middle, others);
    forall m | m in middle ensures ValidManifest(checks, m) {
      var i :| 0 <= i < |middle| && middle[i] == m;
      assert candidates[i] in candidates;
      SimilarKeepsValid(checks, candidates[i], m);
    }
  }

  lemma RearrangedAligned(checks: Checks, candidates: seq<Manifest>, middle: seq<Manifest>, others: seq<Manifest>, input: Input)
    requires AllValid(checks, candidates) && AllValid(checks, middle) && Rearranged(candidates, middle, others)
    ensures Aligned(candidates, middle, input) && SameMembers(middle, others)
  {
    PermutedMembers(middle, others);
    forall i | 0 <= i < |candidates| ensures Alike(candidates[i], middle[i], input) {
      assert candidates[i] in candidates && middle[i] in middle;
      SimilarMembers(candidates[i], middle[i]);
      JudgeSame(checks, candidates[i], middle[i], input);
    }
  }

  lemma PermutedMembers(middle: seq<Manifest>, others: seq<Manifest>)
    requires multiset(middle) == multiset(others)
    ensures SameMembers(middle, others)
  {
    assert |middle| == |multiset(middle)| == |multiset(others)| == |others|;
    forall m ensures m in middle <==> m in others {
      assert m in middle <==> m in multiset(middle);
      assert m in others <==> m in multiset(others);
    }
  }

  /** The candidate of the other catalog that selection cannot tell from `m`. */
  lemma Forward(candidates: seq<Manifest>, middle: seq<Manifest>, others: seq<Manifest>, input: Input, m: Manifest) returns (n: Manifest)
    requires Aligned(candidates, middle, input) && SameMembers(middle, others) && m in candidates
    ensures n in others && Alike(m, n, input)
  {
    var i :| 0 <= i < |candidates| && candidates[i] == m;
    n := middle[i];
  }

  lemma Backward(candidates: seq<Manifest>, middle: seq<Manifest>, others: seq<Manifest>, input: Input, n: Manifest) returns (m: Manifest)
    requires Aligned(candidates, middle, input) && SameMembers(middle, others) && n in others
    ensures m in candidates && Alike(m, n, input)
  {
    var i :| 0 <= i < |middle| && middle[i] == n;
    m := candidates[i];
  }

  lemma AlignedVersions(candidates: seq<Manifest>, middle: seq<Manifest>, others: seq<Manifest>, input: Input)
    requires Aligned(candidates, middle, input) && SameMembers(middle, others)
    ensures DistinctBy(VERSION, candidates) <==> DistinctBy(VERSION, others)
  {
    forall v ensures v in VersionSet(candidates) <==> v in VersionSet(others) {
      if v in VersionSet(candidates) {
        var m :| m in candidates && m.version == v;
        var n := Forward(candidates, middle, others, input, m);
      }
      if v in VersionSet(others) {
        var n :| n in others && n.version == v;
        var m := Backward(candidates, middle, others, input, n);
      }
    }
    assert VersionSet(candidates) == VersionSet(others);
    DistinctByCount(candidates);
    DistinctByCount(others);
  }

  lemma RejectionsSame(candidates: seq<Manifest>, middle: seq<Manifest>, others: seq<Manifest>, input: Input)
    requires Aligned(candidates, middle, input) && SameMembers(middle, others)
    requires DistinctBy(VERSION, candidates) && DistinctBy(VERSION, others)
    ensures Sort(REJECTION_KEY, Rejections(candidates, input)) == Sort(REJECTION_KEY, Rejections(others, input))
  {
    var a, b := Rejections(candidates, input), Rejections(others, input);
    forall x ensures x in a <==> x in b {
      RejectionsMembers(candidates, input);
      RejectionsMembers(others, input);
      if x in a {
        var m :| m in candidates && Judge(m, input) == Reject(x.reason) && m.version == x.version;
        var n := Forward(candidates, middle, others, input, m);
        assert RejectedFrom(others, input, x);
      }
      if x in b {
        var n :| n in others && Judge(n, input) == Reject(x.reason) && n.version == x.version;
        var m := Backward(candidates, middle, others, input, n);
        assert RejectedFrom(candidates, input, x);
      }
    }
    RejectionKeysDistinct(candidates, input);
    RejectionKeysDistinct(others, input);
    SortStrict(REJECTION_KEY, a);
    SortStrict(REJECTION_KEY, b);
    StrictlySortedUnique(REJECTION_KEY, Sort(REJECTION_KEY, a), Sort(REJECTION_KEY, b));
  }

  lemma AcceptanceCarries(candidates: seq<Manifest>, middle: seq<Manifest>, others: seq<Manifest>, input: Input)
    requires Aligned(candidates, middle, input) && SameMembers(middle, others)
    ensures (exists m :: m in candidates && Judge(m, input).Accept?) <==> (exists n :: n in others && Judge(n, input).Accept?)
  {
  }

  /** The greatest accepted candidate of one catalog has its partner in the other. */
  lemma GreatestCarries(candidates: seq<Manifest>, middle: seq<Manifest>, others: seq<Manifest>, input: Input, p: Manifest, q: Manifest)
    requires Aligned(candidates, middle, input) && SameMembers(middle, others)
    requires p in candidates && Judge(p, input).Accept? && q in others && Judge(q, input).Accept?
    requires forall m :: m in candidates && Judge(m, input).Accept? && m != p ==> Older(m.version, p.version)
    requires forall m :: m in others && Judge(m, input).Accept? && m != q ==> Older(m.version, q.version)
    ensures Alike(p, q, input)
  {
    var p' := Forward(candidates, middle, others, input, p);
    var q' := Backward(candidates, middle, others, input, q);
    OlderTotal(p.version, q.version);
    assert p' == q;
  }

  /** Selection is a function of the set of candidates: rearranging a validated
      catalog, and the assets and records inside it, never changes the outcome. */
  lemma OrderIrrelevant(checks: Checks, candidates: seq<Manifest>, middle: seq<Manifest>, others: seq<Manifest>, input: Input)
    requires AllValid(checks, candidates) && Rearranged(candidates, middle, others)
    ensures AllValid(checks, others)
    ensures SameOutcome(Select(candidates, input), Select(others, input))
  {
    RearrangedValid(checks, candidates, middle, others);
    RearrangedAligned(checks, candidates, middle, others, input);
    AlignedVersions(candidates, middle, others, input);
    ValidatedAmbiguity(checks, candidates);
    ValidatedAmbiguity(checks, others);
    if candidates != [] && DistinctBy(VERSION, candidates) {
      AlignedOutcome(candidates, middle, others, input);
      if Select(candidates, input).Selected? {
        SelectedSimilar(candidates, middle, others, Select(candidates, input).release.manifest,
                        Select(others, input).release.manifest);
      }
    }
  }

  lemma SelectedSimilar(candidates: seq<Manifest>, middle: seq<Manifest>, others: seq<Manifest>, p: Manifest, q: Manifest)
    requires Rearranged(candidates, middle, others) && DistinctBy(VERSION, others)
    requires p in candidates && q in others && p.version == q.version
    ensures Similar(p, q)
  {
    PermutedMembers(middle, others);
    var i :| 0 <= i < |candidates| && candidates[i] == p;
    SimilarMembers(p, middle[i]);
    assert middle[i] in middle;
  }

  lemma AlignedOutcome(candidates: seq<Manifest>, middle: seq<Manifest>, others: seq<Manifest>, input: Input)
    requires Aligned(candidates, middle, input) && SameMembers(middle, others)
    requires candidates != [] && DistinctBy(VERSION, candidates) && DistinctBy(VERSION, others)
    requires CatalogAmbiguity(candidates) == None && CatalogAmbiguity(others) == None
    ensures var a, b := Select(candidates, input), Select(others, input);
            && (a.NoApplicable? ==> a == b)
            && (a.Selected? <==> b.Selected?) && !a.Rejected?
            && (a.Selected? ==> a.release.manifest in candidates && b.release.manifest in others)
            && (a.Selected? ==> a.release.manifest.version == b.release.manifest.version)
            && (a.Selected? ==> a.release.(manifest := b.release.manifest) == b.release)
  {
    SelectsGreatestAccepted(candidates, input);
    SelectsGreatestAccepted(others, input);
    AcceptanceCarries(candidates, middle, others, input);
    if Select(candidates, input).Selected? {
      GreatestCarries(candidates, middle, others, input,
                      Select(candidates, input).release.manifest, Select(others, input).release.manifest);
    } else {
      RejectionsSame(candidates, middle, others, input);
    }
  }

  // ----- In the numbers of the host and the texts of the manifest -----

  /** A Linux asset for glibc `m`.`n`. */
  predicate ForGlibc(a: Asset, m: nat, n: nat) {
    && a.os.LinuxTarget? && a.libc.Some? && m <= 65535 && n <= 65535
    && a.minimum == "glibc-" + (Print(m) + "." + Print(n))
  }

  /** A Windows asset for release `m`, half `h` of the year `y`. */
  predicate ForWindows(a: Asset, m: nat, y: nat, h: nat) {
    && a.os.WindowsTarget? && a.libc.None? && m <= 65535 && 10 <= y < 100 && (h == 1 || h == 2)
    && a.minimum == "windows-" + (Print(m) + "-" + (Print(y) + "h" + Print(h)))
  }

  lemma ForExactly(a: Asset, m: nat, y: nat, h: nat)
    ensures ForGlibc(a, m, y) <==> a.os.LinuxTarget? && ParseRuntimeMinimum(a) == Some(GlibcMinimum(m, y))
    ensures ForWindows(a, m, y, h) <==> a.os.WindowsTarget? && ParseRuntimeMinimum(a) == Some(WindowsMinimum(m, y, h))
  {
    RuntimeMinimumExactly(a, GlibcMinimum(m, y));
    RuntimeMinimumExactly(a, WindowsMinimum(m, y, h));
  }

  /** The asset is for the host's system, and the numbers in its requirement are
      not above those of the host. */
  ghost predicate Suits(a: Asset, input: Input) {
    match input.runtime
    case GlibcRuntime(major, minor) =>
      input.os.LinuxTarget? && exists m: nat, n: nat :: ForGlibc(a, m, n) && (m < major || (m == major && n <= minor))
    case WindowsRuntime(major, year, half) =>
      input.os.WindowsTarget? && (half == 1 || half == 2)
      && exists m: nat, y: nat, h: nat :: ForWindows(a, m, y, h) && (m < major || (m == major && (y < year || (y == year && h <= half))))
    case UnrecognisedRuntime => false
  }

  lemma MeetsExactly(a: Asset, input: Input)
    ensures Meets(input)(a) <==> Suits(a, input)
  {
    if Meets(input)(a) {
      MeetsSuits(a, input);
    }
    if Suits(a, input) {
      SuitsMeets(a, input);
    }
  }

  lemma MeetsSuits(a: Asset, input: Input)
    requires Meets(input)(a)
    ensures Suits(a, input)
  {
    HostOrder(a, input);
    match ParseRuntimeMinimum(a).value
    case GlibcMinimum(m, n) => ForExactly(a, m, n, 0);
    case WindowsMinimum(m, y, h) => ForExactly(a, m, y, h);
  }

  lemma SuitsMeets(a: Asset, input: Input)
    requires Suits(a, input)
    ensures Meets(input)(a)
  {
    match input.runtime {
      case GlibcRuntime(major, minor) =>
        var m: nat, n: nat :| ForGlibc(a, m, n) && (m < major || (m == major && n <= minor));
        ForExactly(a, m, n, 0);
      case WindowsRuntime(major, year, half) =>
        var m: nat, y: nat, h: nat :| ForWindows(a, m, y, h) && (m < major || (m == major && (y < year || (y == year && h <= half))));
        ForExactly(a, m, y, h);
    }
    HostOrder(a, input);
  }

  /** The record is about this Codex on this host. */
  predicate IsAbout(r: CompatRecord, input: Input) {
    && r.tuple.codex == input.codex && r.tuple.surface == input.surface && r.tuple.arch == X86
    && r.tuple.os == (if input.os.LinuxTarget? then LinuxOs else WindowsOs)
  }

  predicate Newer(v: StableVersion, w: StableVersion) {
    || v.major > w.major
    || (v.major == w.major && (v.minor > w.minor || (v.minor == w.minor && v.patch > w.patch)))
  }

  ghost predicate NoneSuits(assets: seq<Asset>, input: Input) {
    forall a :: a in assets ==> !Suits(a, input)
  }

  ghost function AssetObjection(assets: seq<Asset>, input: Input): Option<Reason> {
    if forall a :: a in assets ==> a.os != input.os then Some(UnsupportedPlatform)
    else if input.runtime.UnrecognisedRuntime? then Some(UnknownRuntime)
    else if input.runtime.WindowsRuntime? != input.os.WindowsTarget? then Some(UnsupportedRuntime)
    else if input.runtime.WindowsRuntime? && input.runtime.half != 1 && input.runtime.half != 2 then Some(UnknownRuntime)
    else if NoneSuits(assets, input) then Some(RuntimeBelowMinimum)
    else None
  }

  ghost function RecordObjection(records: seq<CompatRecord>, input: Input): Option<Reason> {
    if forall r :: r in records ==> !IsAbout(r, input) then Some(CompatibilityUnavailable)
    else if exists r :: r in records && IsAbout(r, input) && r.eligibility.Excluded? then Some(CompatibilityExcluded)
    else if exists r :: r in records && IsAbout(r, input) && r.eligibility.Experimental? && input.mode.Strict?
      then Some(StrictRequiresReviewed)
    else None
  }

  /** Why a candidate is rejected, if it is: the first objection. */
  ghost function Objection(m: Manifest, input: Input): Option<Reason> {
    if !Newer(m.version, input.installed) then Some(NotNewerThanInstalled)
    else if AssetObjection(m.assets, input).Some? then AssetObjection(m.assets, input)
    else RecordObjection(m.records, input)
  }

  lemma NoneSuitsExactly(assets: seq<Asset>, input: Input)
    ensures NoneSuits(assets, input) <==> forall a :: a in assets ==> !Meets(input)(a)
  {
    forall a | a in assets ensures Meets(input)(a) <==> Suits(a, input) {
      MeetsExactly(a, input);
    }
  }

  lemma AssetExplained(assets: seq<Asset>, input: Input)
    requires GoodAssets(assets)
    ensures match AssetObjection(assets, input)
      case Some(reason) => SelectAsset(assets, input) == Err(reason)
      case None => SelectAsset(assets, input).Ok?
  {
    SelectAssetAnswer(assets, input);
    NoneSuitsExactly(assets, input);
    AnswerExplained(assets, input, SelectAsset(assets, input));
  }

  lemma AnswerExplained(assets: seq<Asset>, input: Input, r: Result<Asset, Reason>)
    requires AssetAnswer(assets, input, r)
    requires NoneSuits(assets, input) <==> forall a :: a in assets ==> !Meets(input)(a)
    ensures match AssetObjection(assets, input)
      case Some(reason) => r == Err(reason)
      case None => r.Ok?
  {
  }

  lemma RecordExplained(records: seq<CompatRecord>, input: Input, hook: HookSchema)
    requires GoodRecords(records, hook)
    ensures match RecordObjection(records, input)
      case Some(reason) => SelectCompatibility(records, input) == Err(reason)
      case None => SelectCompatibility(records, input).Ok?
  {
    SelectCompatibilityAnswer(records, input, hook);
    forall r ensures Matching(input)(r) <==> IsAbout(r, input) {}
  }

  /** A valid candidate is rejected for exactly the first objection, and accepted
      when there is none. */
  lemma JudgeExplained(checks: Checks, m: Manifest, input: Input)
    requires ValidManifest(checks, m)
    ensures match Objection(m, input)
      case Some(reason) => Judge(m, input) == Reject(reason)
      case None => Judge(m, input).Accept?
  {
    OlderExact(input.installed, m.version);
    ValidAssetsGood(checks, m);
    var hook := ValidRecordsGood(checks, m);
    AssetExplained(m.assets, input);
    RecordExplained(m.records, input, hook);
  }

  /** A candidate is applicable exactly when nothing is objected to. */
  lemma ApplicableExactly(checks: Checks, m: Manifest, input: Input)
    requires ValidManifest(checks, m)
    ensures Applicable(m, input) <==> Objection(m, input) == None
  {
    JudgeExplained(checks, m, input);
    JudgeExact(checks, m, input);
  }

  /** When nothing is applicable, the answer lists each candidate with the first
      objection to it, from the oldest version to the newest. */
  lemma NoApplicableExplained(checks: Checks, candidates: seq<Manifest>, input: Input)
    requires AllValid(checks, candidates) && Select(candidates, input).NoApplicable?
    ensures var list := Select(candidates, input).rejections;
      && (forall x :: x in list <==>
            exists m :: m in candidates && m.version == x.version && Objection(m, input) == Some(x.reason))
      && (forall m :: m in candidates ==> Objection(m, input).Some?)
      && forall i, j :: 0 <= i < j < |list| ==> Newer(list[j].version, list[i].version)
  {
    RefusedExactly(checks, candidates, input);
    var list, rejections := Select(candidates, input).rejections, Rejections(candidates, input);
    RejectionsMembers(candidates, input);
    RejectionKeysDistinct(candidates, input);
    SortStrict(REJECTION_KEY, rejections);
    forall m | m in candidates
      ensures Objection(m, input).Some? && Judge(m, input) == Reject(Objection(m, input).value)
    {
      SelectsGreatest(checks, candidates, input);
      JudgeExplained(checks, m, input);
      JudgeExact(checks, m, input);
    }
    forall i, j | 0 <= i < j < |list| ensures Newer(list[j].version, list[i].version) {
      assert list[i] in rejections && list[j] in rejections;
      RejectionOrder(candidates, input, list[i], list[j]);
    }
  }

  /** Distinct versions alone order the rejections. */
  lemma RejectionOrder(candidates: seq<Manifest>, input: Input, x: Rejection, y: Rejection)
    requires Less(REJECTION_KEY(x), REJECTION_KEY(y)) && DistinctBy(VERSION, candidates)
    requires RejectedFrom(candidates, input, x) && RejectedFrom(candidates, input, y)
    ensures Newer(y.version, x.version)
  {
    var m :| m in candidates && Judge(m, input) == Reject(x.reason) && m.version == x.version;
    var n :| n in candidates && Judge(n, input) == Reject(y.reason) && n.version == y.version;
    LessParts(x.version.Key(), [x.reason.Rank()], y.version.Key(), [y.reason.Rank()]);
    if x.version.Key() == y.version.Key() {
      VersionKeyInjective(x.version, y.version);
      LessTotal(REJECTION_KEY(x), REJECTION_KEY(x));
    }
    OlderExact(x.version, y.version);
  }

  // ----- A newer host runtime -----

  /** The same kind of runtime, not older. */
  predicate Raised(low: Runtime, high: Runtime) {
    && (low.WindowsRuntime? <==> high.WindowsRuntime?) && (low.GlibcRuntime? <==> high.GlibcRuntime?)
    && !Less(HostKey(high), HostKey(low))
  }

  /** Windows reports a half-year of 1 or 2. */
  predicate WellFormed(r: Runtime) {
    r.WindowsRuntime? ==> r.half in {1, 2}
  }

  lemma MeetsRaised(a: Asset, input: Input, high: Runtime)
    requires Meets(input)(a) && Raised(input.runtime, high) && WellFormed(high)
    ensures Meets(input.(runtime := high))(a)
  {
    LessMixed(ParseRuntimeMinimum(a).value.Key(), HostKey(input.runtime), HostKey(high));
  }

  lemma ApplicableRaised(m: Manifest, input: Input, high: Runtime)
    requires Applicable(m, input) && Raised(input.runtime, high) && WellFormed(high)
    ensures Applicable(m, input.(runtime := high))
  {
    var a :| a in m.assets && Meets(input)(a);
    MeetsRaised(a, input, high);
    var r :| r in m.records && Matching(input)(r) && Admits(r.eligibility, input.mode);
    assert Matching(input.(runtime := high))(r);
  }

  /** Raising the host runtime keeps a selection exactly when the raised runtime
      is well formed, and then never lowers the selected version. */
  lemma RaisingKeepsSelection(checks: Checks, candidates: seq<Manifest>, input: Input, high: Runtime)
    requires AllValid(checks, candidates) && Select(candidates, input).Selected? && Raised(input.runtime, high)
    ensures Select(candidates, input.(runtime := high)).Selected? <==> WellFormed(high)
    ensures WellFormed(high) ==>
              !Older(Select(candidates, input.(runtime := high)).release.manifest.version,
                     Select(candidates, input).release.manifest.version)
  {
    var raised := input.(runtime := high);
    RefusedExactly(checks, candidates, input);
    SelectsGreatest(checks, candidates, input);
    SelectsGreatest(checks, candidates, raised);
    var low := Select(candidates, input).release;
    if WellFormed(high) {
      ApplicableRaised(low.manifest, input, high);
      OlderTotal(low.manifest.version, Select(candidates, raised).release.manifest.version);
    } else {
      forall m | m in candidates ensures !Applicable(m, raised) {
        NothingMeets(m, raised);
      }
    }
  }

  lemma NothingMeets(m: Manifest, input: Input)
    requires !WellFormed(input.runtime)
    ensures !Applicable(m, input)
  {
  }

  // ----- A selection that a newer host loses ----------------------------

  /** The texts a publisher supplies. */
  datatype Texts = Texts(name: string, notes: Notes, details: string, evidence: string)

  /** Validation accepts these texts and the hook schema. */
  predicate Publishable(checks: Checks, texts: Texts) {
    && checks.name(texts.name) && checks.notes(texts.notes) && checks.details(texts.details)
    && checks.eligibility(Reviewed(texts.evidence)) && ValidHookTexts(checks.hook)
  }

  predicate ShortText(s: string) {
    s != "" && |s| <= 1000 && forall i :: 0 <= i < |s| ==> '-' <= s[i] <= 'z'
  }

  lemma ShortInput() ensures ShortText("command-string-v1") {}

  lemma ShortResponse() ensures ShortText("one-request-structured-allow") {}

  lemma ShortHookValid(h: HookSchema)
    requires ShortText(h.event) && ShortText(h.protocol) && ShortText(h.tool) && ShortText(h.inputSchema) && ShortText(h.response)
    ensures ValidHookTexts(h)
  {
  }

  /** The program's schema consists of valid texts. */
  lemma ExpectedHookValid(checks: Checks)
    requires checks.hook == EXPECTED_HOOK
    ensures ValidHookTexts(checks.hook)
  {
    ShortInput();
    ShortResponse();
    assert ShortText("Bash");
    ShortHookValid(checks.hook);
  }

  /** A valid asset that requires Windows 11 23H2. */
  lemma WindowsAsset(checks: Checks, texts: Texts) returns (a: Asset)
    requires Publishable(checks, texts)
    ensures ValidAsset(checks, a) && a.os == WindowsTarget
    ensures ParseRuntimeMinimum(a) == Some(WindowsMinimum(11, 23, 2))
  {
    var m := WindowsMinimum(11, 23, 2);
    a := Asset(texts.name, WindowsTarget, RequirementText(m), Option.None, Zip, 1, texts.details);
    assert Expressible(m);
    ValidAssetExactly(checks, a);
    RuntimeMinimumExactly(a, m);
  }

  lemma ReviewedRecord(checks: Checks, texts: Texts, codex: StableVersion, surface: CompatSurface) returns (r: CompatRecord)
    requires Publishable(checks, texts)
    ensures ValidRecord(checks, r) && r.eligibility.Reviewed?
    ensures r.tuple.codex == codex && r.tuple.os == WindowsOs && r.tuple.arch == X86 && r.tuple.surface == surface
  {
    r := CompatRecord(CompatTuple(codex, WindowsOs, X86, surface, checks.hook), Reviewed(texts.evidence));
  }

  lemma ReleaseApplies(m: Manifest, a: Asset, r: CompatRecord, input: Input)
    requires m.assets == [a] && m.records == [r] && Older(input.installed, m.version)
    requires a.os == input.os == WindowsTarget && ParseRuntimeMinimum(a) == Some(WindowsMinimum(11, 23, 2))
    requires TupleMatches(r.tuple, input) && r.eligibility.Reviewed?
    requires input.runtime == WindowsRuntime(11, 24, 2)
    ensures Applicable(m, input)
  {
    HostOrder(a, input);
    assert a in m.assets && Meets(input)(a);
    assert r in m.records && Matching(input)(r);
  }

  lemma HalfRaises(half: nat)
    requires half > 2
    ensures Raised(WindowsRuntime(11, 24, 2), WindowsRuntime(11, 24, half))
  {
    assert HostKey(WindowsRuntime(11, 24, half)) == [0] + [11, 24, half];
    assert HostKey(WindowsRuntime(11, 24, 2)) == [0] + [11, 24, 2];
    LessHead(0, [11, 24, half], 0, [11, 24, 2]);
    LessThree(11, 24, half, 11, 24, 2);
  }

  lemma LosesSelection(checks: Checks, m: Manifest, input: Input, high: Runtime)
    requires ValidManifest(checks, m) && Applicable(m, input) && Raised(input.runtime, high) && !WellFormed(high)
    ensures AllValid(checks, [m])
    ensures Select([m], input).Selected? && !Select([m], input.(runtime := high)).Selected?
  {
    forall n | n in [m] ensures ValidManifest(checks, n) {
      assert n == m;
    }
    assert m in [m];
    SelectsGreatest(checks, [m], input);
    RaisingKeepsSelection(checks, [m], input, high);
  }

  lemma SomeRelease(checks: Checks, texts: Texts, version: StableVersion, input: Input) returns (m: Manifest)
    requires Publishable(checks, texts) && Older(input.installed, version)
    requires input.os == WindowsTarget && input.runtime == WindowsRuntime(11, 24, 2)
    ensures ValidManifest(checks, m) && Applicable(m, input) && m.version == version
  {
    var a := WindowsAsset(checks, texts);
    var r := ReviewedRecord(checks, texts, input.codex, input.surface);
    m := Manifest(1, texts.name, version, texts.notes, [a], [r]);
    ReleaseApplies(m, a, r, input);
  }

  /** Whatever the field checks are, any texts they accept and any version newer
      than the installed one make a validated catalog that selects a release on
      Windows 11 24H2, and none on the same host once it reports a half of three
      or more. */
  lemma RaisingMayLoseSelection(checks: Checks, texts: Texts, version: StableVersion, input: Input, half: nat)
    returns (m: Manifest)
    requires Publishable(checks, texts) && Older(input.installed, version)
    requires input.os == WindowsTarget && input.runtime == WindowsRuntime(11, 24, 2) && half > 2
    ensures AllValid(checks, [m]) && m.version == version && Raised(input.runtime, WindowsRuntime(11, 24, half))
    ensures Select([m], input).Selected?
    ensures !Select([m], input.(runtime := WindowsRuntime(11, 24, half))).Selected?
  {
    m := SomeRelease(checks, texts, version, input);
    HalfRaises(half);
    LosesSelection(checks, m, input, WindowsRuntime(11, 24, half));
  }
}
