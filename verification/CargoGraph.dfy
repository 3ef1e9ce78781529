// The dependency closure that the software bill of materials lists
// (scripts/cargo_graph.py): a worklist over the resolved Cargo graph.
module CargoGraph {
  import opened Common

  type Key = (string, string)

  datatype Package = Package(id: string, name: string, version: string, source: Option<string>)

  /** What `kind` is in one entry of `dep_kinds`; `NoKey` is an object without it. */
  datatype DepKind = NotAnObject | NoKey | Normal | Build | Dev | OtherKind

  /** `kinds` is absent when `dep_kinds` is not a list. */
  datatype Dependency = Dependency(pkg: string, kinds: Option<seq<DepKind>>)

  datatype Node = Node(id: string, deps: seq<Dependency>)

  datatype Locked = Locked(name: string, version: string, source: Option<string>)

  /** `rootMatches` stands for the comparison with the checkout's Cargo.toml. */
  datatype Metadata = Metadata(
    root: string, members: seq<string>, packages: seq<Package>, nodes: seq<Node>, rootMatches: bool)

  datatype Error =
    | NoUniqueRoot | DuplicateIds | RootDiffers | AmbiguousLock | NotInMetadata | NotInLock
    | BadKind | KindMissing | TargetMissing | AmbiguousKeys

  datatype Selection = Selection(keys: set<Key>, relationships: set<(string, string)>, root: string)

  function PackageId(name: string, version: string): string {
    "SPDXRef-Package-" + name + "-" + version
  }

  // ----- Dictionaries by key --------------------------------------------

  /** `{key(x): x for x in items}`. */
  function Index<K(!new), T>(items: seq<T>, key: T -> K): (m: map<K, T>)
    ensures |m| <= |items|
  {
    if items == [] then map[]
    else
      var last := items[|items| - 1];
      Index(items[..|items| - 1], key)[key(last) := last]
  }

  lemma {:induction false} IndexKeys<K(!new), T>(items: seq<T>, key: T -> K, k: K)
    ensures k in Index(items, key) <==> exists i :: 0 <= i < |items| && key(items[i]) == k
    ensures k in Index(items, key) ==> Index(items, key)[k] in items && key(Index(items, key)[k]) == k
  {
    if items != [] {
      var rest, last := items[..|items| - 1], items[|items| - 1];
      IndexKeys(rest, key, k);
      if k in Index(rest, key) {
        var i :| 0 <= i < |rest| && key(rest[i]) == k;
        assert items[i] == rest[i];
      }
      if exists i :: 0 <= i < |items| && key(items[i]) == k {
        var i :| 0 <= i < |items| && key(items[i]) == k;
        if i < |rest| { assert rest[i] == items[i]; }
      }
    }
  }

  /** Comparing sizes finds exactly the lists in which some key repeats. */
  lemma {:induction false} IndexSize<K(!new), T>(items: seq<T>, key: T -> K)
    ensures |Index(items, key)| == |items| <==> DistinctBy(key, items)
  {
    if items != [] {
      var rest, last := items[..|items| - 1], items[|items| - 1];
      var m, k := Index(rest, key), key(last);
      IndexSize(rest, key);
      IndexKeys(rest, key, k);
      if k in m {
        assert m[k := last].Keys == m.Keys;
        var i :| 0 <= i < |rest| && key(rest[i]) == k;
        assert key(items[i]) == key(items[|items| - 1]);
      } else {
        assert m[k := last].Keys == m.Keys + {k};
        if DistinctBy(key, rest) {
          forall i, j | 0 <= i < j < |items| ensures key(items[i]) != key(items[j]) {
            assert items[i] == rest[i];
            if j < |rest| { assert items[j] == rest[j]; }
          }
        }
      }
      if DistinctBy(key, items) {
        forall i, j | 0 <= i < j < |rest| ensures key(rest[i]) != key(rest[j]) {
          assert rest[i] == items[i] && rest[j] == items[j];
        }
      }
    }
  }

  // ----- The graph ------------------------------------------------------

  datatype Graph = Graph(packages: map<string, Package>, nodes: map<string, Node>, locked: map<Key, Locked>)

  /** The short-circuiting test for a normal or build kind: it fails when it
      meets an entry without the key before it finds one. */
  function Chosen(kinds: seq<DepKind>): Option<bool> {
    if kinds == [] then Some(false)
    else match kinds[0]
      case Normal => Some(true)
      case Build => Some(true)
      case NoKey => None
      case _ => Chosen(kinds[1..])
  }

  predicate Live(kind: DepKind) { kind == Normal || kind == Build }

  /** A dependency is chosen exactly when some kind is normal or build, unless
      an entry has no `kind` at all. */
  lemma {:induction false} ChosenExactly(kinds: seq<DepKind>)
    requires NoKey !in kinds
    ensures Chosen(kinds) == Some(exists i :: 0 <= i < |kinds| && Live(kinds[i]))
  {
    if kinds != [] && !Live(kinds[0]) {
      ChosenExactly(kinds[1..]);
      if exists i :: 0 <= i < |kinds[1..]| && Live(kinds[1..][i]) {
        var i :| 0 <= i < |kinds[1..]| && Live(kinds[1..][i]);
        assert Live(kinds[i + 1]);
      }
      if exists i :: 0 <= i < |kinds| && Live(kinds[i]) {
        var i :| 0 <= i < |kinds| && Live(kinds[i]);
        assert Live(kinds[1..][i - 1]);
      }
    }
  }

  predicate KnownKinds(kinds: Option<seq<DepKind>>) {
    kinds.Some? && kinds.value != [] && NotAnObject !in kinds.value && OtherKind !in kinds.value
  }

  predicate Selected(dep: Dependency) {
    dep.kinds.Some? && Chosen(dep.kinds.value) == Some(true)
  }

  predicate DependencyFits(g: Graph, dep: Dependency) {
    KnownKinds(dep.kinds) && Chosen(dep.kinds.value).Some? && (Selected(dep) ==> dep.pkg in g.packages)
  }

  /** Everything the program demands of a package it reaches. */
  ghost predicate Fits(g: Graph, id: string) {
    && id in g.packages && id in g.nodes
    && InLock(g, g.packages[id])
    && forall k :: 0 <= k < |g.nodes[id].deps| ==> DependencyFits(g, g.nodes[id].deps[k])
  }

  predicate InLock(g: Graph, package: Package) {
    var key := (package.name, package.version);
    key in g.locked && package.source == g.locked[key].source
  }

  /** A normal or build dependency, possibly also a dev one. */
  ghost predicate Edge(g: Graph, a: string, b: string) {
    a in g.nodes && exists k :: 0 <= k < |g.nodes[a].deps| && Arc(g.nodes[a].deps[k], b)
  }

  predicate Arc(dep: Dependency, b: string) {
    Selected(dep) && dep.pkg == b
  }

  ghost predicate Path(g: Graph, path: seq<string>) {
    forall i :: 0 <= i < |path| - 1 ==> Edge(g, path[i], path[i + 1])
  }

  ghost predicate Leads(g: Graph, path: seq<string>, from: string, to: string) {
    path != [] && path[0] == from && path[|path| - 1] == to && Path(g, path)
  }

  ghost predicate Reaches(g: Graph, from: string, to: string) {
    exists path :: Leads(g, path, from, to)
  }

  lemma ReachesRoot(g: Graph, root: string)
    ensures Reaches(g, root, root)
  {
    assert Leads(g, [root], root, root);
  }

  lemma ReachesOn(g: Graph, root: string, a: string, b: string)
    requires Reaches(g, root, a) && Edge(g, a, b)
    ensures Reaches(g, root, b)
  {
    var path :| Leads(g, path, root, a);
    var longer := path + [b];
    forall i | 0 <= i < |longer| - 1 ensures Edge(g, longer[i], longer[i + 1]) {
      if i < |path| - 1 { assert longer[i] == path[i] && longer[i + 1] == path[i + 1]; }
    }
    assert Leads(g, longer, root, b);
  }

  /** A set that holds the start and every successor holds whatever a path reaches. */
  lemma {:induction false} ClosedHoldsPath(g: Graph, seen: set<string>, path: seq<string>, from: string, to: string)
    requires from in seen && Leads(g, path, from, to)
    requires forall a, b :: a in seen && Edge(g, a, b) ==> b in seen
    ensures to in seen
  {
    if |path| > 1 {
      assert Edge(g, path[0], path[1]);
      var rest := path[1..];
      forall i | 0 <= i < |rest| - 1 ensures Edge(g, rest[i], rest[i + 1]) {
        assert rest[i] == path[i + 1] && rest[i + 1] == path[i + 2];
      }
      ClosedHoldsPath(g, seen, rest, path[1], to);
    }
  }

  // ----- The worklist ---------------------------------------------------

  /** Each package seen has been checked and its edges are all recorded; each
      package waiting is reachable; nothing reachable has been lost. */
  ghost predicate Working(g: Graph, root: string, seen: set<string>, edges: set<(string, string)>, pending: seq<string>) {
    && (root in seen || root in pending)
    && (forall a :: a in seen || a in pending ==> Reaches(g, root, a))
    && (forall a :: a in seen ==> Fits(g, a))
    && (forall a, b :: a in seen && Edge(g, a, b) ==> b in seen || b in pending)
    && (forall a, b :: (a, b) in edges <==> a in seen && Edge(g, a, b))
  }

  lemma WorkDone(g: Graph, root: string, seen: set<string>, edges: set<(string, string)>)
    requires Working(g, root, seen, edges, [])
    ensures forall a :: a in seen <==> Reaches(g, root, a)
    ensures forall a :: Reaches(g, root, a) ==> Fits(g, a)
    ensures forall a, b :: (a, b) in edges <==> Reaches(g, root, a) && Edge(g, a, b)
  {
    forall a ensures a in seen <==> Reaches(g, root, a) {
      if Reaches(g, root, a) {
        var path :| Leads(g, path, root, a);
        ClosedHoldsPath(g, seen, path, root, a);
      }
    }
  }

  /** The dependencies of one package. */
  method Expand(g: Graph, current: string, edges: set<(string, string)>, pending: seq<string>)
    returns (error: Option<Error>, moreEdges: set<(string, string)>, morePending: seq<string>)
    requires current in g.nodes
    ensures error.Some? ==> !(forall k :: 0 <= k < |g.nodes[current].deps| ==> DependencyFits(g, g.nodes[current].deps[k]))
    ensures error.None? ==> forall k :: 0 <= k < |g.nodes[current].deps| ==> DependencyFits(g, g.nodes[current].deps[k])
    ensures error.None? ==> forall a, b :: (a, b) in moreEdges <==> (a, b) in edges || (a == current && Edge(g, a, b))
    ensures error.None? ==> forall b :: b in morePending <==> b in pending || Edge(g, current, b)
  {
    var deps := g.nodes[current].deps;
    error, moreEdges, morePending := None, edges, pending;
    for k := 0 to |deps|
      invariant error.None?
      invariant forall i :: 0 <= i < k ==> DependencyFits(g, deps[i])
      invariant forall a, b :: (a, b) in moreEdges <==>
        (a, b) in edges || (a == current && exists i :: 0 <= i < k && Arc(deps[i], b))
      invariant forall b :: b in morePending <==> b in pending || exists i :: 0 <= i < k && Arc(deps[i], b)
    {
      var dep := deps[k];
      if !KnownKinds(dep.kinds) { error := Some(BadKind); return; }
      var chosen := Chosen(dep.kinds.value);
      if chosen.None? { error := Some(KindMissing); return; }
      if chosen.value {
        if dep.pkg !in g.packages { error := Some(TargetMissing); return; }
        moreEdges := moreEdges + {(current, dep.pkg)};
        morePending := morePending + [dep.pkg];
      }
      assert forall b :: Arc(deps[k], b) <==> chosen.value && b == dep.pkg;
    }
  }

  /** The worklist. An identifier may wait many times; each time round either a
      package is seen for the first time or the list gets shorter. */
  method Closure(g: Graph, root: string) returns (r: Result<set<string>, Error>, edges: set<(string, string)>)
    ensures r.Ok? <==> forall a :: Reaches(g, root, a) ==> Fits(g, a)
    ensures r.Ok? ==> forall a :: a in r.value <==> Reaches(g, root, a)
    ensures r.Ok? ==> forall a, b :: (a, b) in edges <==> Reaches(g, root, a) && Edge(g, a, b)
  {
    var seen: set<string> := {};
    var pending := [root];
    edges := {};
    ReachesRoot(g, root);
    while pending != []
      invariant Working(g, root, seen, edges, pending)
      decreases g.packages.Keys - seen, |pending|
    {
      var current := pending[|pending| - 1];
      var rest := pending[..|pending| - 1];
      assert pending == rest + [current];
      if current in seen {
        pending := rest;
        continue;
      }
      if current !in g.packages || current !in g.nodes { return Err(NotInMetadata), edges; }
      if !InLock(g, g.packages[current]) { return Err(NotInLock), edges; }
      var error, moreEdges, morePending := Expand(g, current, edges, rest);
      if error.Some? { return Err(error.value), edges; }
      Grown(g, root, current, seen, edges, rest, moreEdges, morePending);
      seen, edges, pending := seen + {current}, moreEdges, morePending;
    }
    WorkDone(g, root, seen, edges);
    return Ok(seen), edges;
  }

  lemma Grown(g: Graph, root: string, current: string, seen: set<string>, edges: set<(string, string)>, rest: seq<string>,
              moreEdges: set<(string, string)>, morePending: seq<string>)
    requires Working(g, root, seen, edges, rest + [current]) && current !in seen
    requires Fits(g, current)
    requires forall a, b :: (a, b) in moreEdges <==> (a, b) in edges || (a == current && Edge(g, a, b))
    requires forall b :: b in morePending <==> b in rest || Edge(g, current, b)
    ensures Working(g, root, seen + {current}, moreEdges, morePending)
  {
    var pending := rest + [current];
    assert current in pending;
    forall a | a in morePending ensures Reaches(g, root, a) {
      if a in rest {
        assert a in pending;
      } else {
        ReachesOn(g, root, current, a);
      }
    }
    assert forall b :: b in pending <==> b in rest || b == current;
  }

  // ----- The whole selection --------------------------------------------

  const PACKAGE_ID: Package -> string := (p: Package) => p.id
  const NODE_ID: Node -> string := (n: Node) => n.id
  const LOCKED_KEY: Locked -> Key := (l: Locked) => (l.name, l.version)

  function GraphOf(m: Metadata, locked: seq<Locked>): Graph {
    Graph(Index(m.packages, PACKAGE_ID), Index(m.nodes, NODE_ID), Index(locked, LOCKED_KEY))
  }

  ghost predicate WellFormed(m: Metadata, locked: seq<Locked>) {
    && m.members == [m.root] && m.rootMatches
    && DistinctBy(PACKAGE_ID, m.packages)
    && DistinctBy(NODE_ID, m.nodes)
    && DistinctBy(LOCKED_KEY, locked)
    && var g := GraphOf(m, locked); m.root in g.packages && m.root in g.nodes
  }

  function KeyOf(g: Graph, id: string): Key
    requires id in g.packages
  {
    (g.packages[id].name, g.packages[id].version)
  }

  function SpdxOf(g: Graph, id: string): string
    requires id in g.packages
  {
    PackageId(g.packages[id].name, g.packages[id].version)
  }

  ghost predicate KeysApart(g: Graph, root: string) {
    forall a, b ::
      (Reaches(g, root, a) && Reaches(g, root, b) && a in g.packages && b in g.packages && KeyOf(g, a) == KeyOf(g, b))
      ==> a == b
  }

  /** Counting the keys finds exactly the collisions. */
  lemma {:induction false} KeyCount(g: Graph, s: set<string>)
    requires forall a :: a in s ==> a in g.packages
    ensures |set a | a in s :: KeyOf(g, a)| <= |s|
    ensures |set a | a in s :: KeyOf(g, a)| == |s| <==>
      forall a, b :: a in s && b in s && KeyOf(g, a) == KeyOf(g, b) ==> a == b
    decreases s
  {
    var all := set a | a in s :: KeyOf(g, a);
    if s == {} {
      assert all == {};
    } else {
      var x :| x in s;
      var rest := s - {x};
      var keys := set a | a in rest :: KeyOf(g, a);
      assert all == keys + {KeyOf(g, x)};
      KeyCount(g, rest);
      if KeyOf(g, x) in keys {
        var y :| y in rest && KeyOf(g, y) == KeyOf(g, x);
        assert all == keys;
      }
    }
  }

  /** The result holds the keys of the packages and the names of the edges. */
  ghost predicate Describes(g: Graph, root: string, s: Selection, seen: set<string>, edges: set<(string, string)>) {
    && (forall a :: a in seen ==> a in g.packages)
    && (forall a, b :: (a, b) in edges ==> a in g.packages && b in g.packages)
    && root in g.packages
    && s.keys == (set a | a in seen :: KeyOf(g, a))
    && s.relationships == (set e | e in edges :: (SpdxOf(g, e.0), SpdxOf(g, e.1)))
    && s.root == SpdxOf(g, root)
  }

  /** `seen` and `edges` are the part of the graph reachable from the root. */
  ghost predicate Reachable(g: Graph, root: string, seen: set<string>, edges: set<(string, string)>) {
    && (forall a :: a in seen <==> Reaches(g, root, a))
    && (forall a, b :: (a, b) in edges <==> Reaches(g, root, a) && Edge(g, a, b))
  }

  /** The closure and the check of its identities. */
  method SelectFrom(g: Graph, root: string)
    returns (r: Result<Selection, Error>, ghost seen: set<string>, ghost edges: set<(string, string)>)
    requires root in g.packages
    ensures r.Ok? <==> (forall a :: Reaches(g, root, a) ==> Fits(g, a)) && KeysApart(g, root)
    ensures r.Ok? ==> Reachable(g, root, seen, edges) && Describes(g, root, r.value, seen, edges)
  {
    var closure, arcs := Closure(g, root);
    seen, edges := {}, arcs;
    if closure.Err? { return Err(closure.error), seen, edges; }
    var found := closure.value;
    seen := found;
    forall a, b | (a, b) in arcs ensures a in g.packages && b in g.packages {
      ReachesOn(g, root, a, b);
      assert Fits(g, a) && Fits(g, b);
    }
    assert forall a :: a in found ==> Fits(g, a);
    KeyCount(g, found);
    var keys := set a | a in found :: KeyOf(g, a);
    if |keys| != |found| { return Err(AmbiguousKeys), seen, edges; }
    return Ok(Selection(keys, set e | e in arcs :: (SpdxOf(g, e.0), SpdxOf(g, e.1)), SpdxOf(g, root))), seen, edges;
  }

  /** What the program demands of its input. */
  ghost predicate Accepted(m: Metadata, locked: seq<Locked>) {
    var g := GraphOf(m, locked);
    WellFormed(m, locked) && (forall a :: Reaches(g, m.root, a) ==> Fits(g, a)) && KeysApart(g, m.root)
  }

  /** Exactly the packages reachable from the root through normal or build
      dependencies, and exactly the edges between them, or a refusal. */
  method SelectedGraph(m: Metadata, locked: seq<Locked>)
    returns (r: Result<Selection, Error>, ghost seen: set<string>, ghost edges: set<(string, string)>)
    ensures r.Ok? <==> Accepted(m, locked)
    ensures r.Ok? ==> var g := GraphOf(m, locked);
      Reachable(g, m.root, seen, edges) && Describes(g, m.root, r.value, seen, edges)
  {
    var g := GraphOf(m, locked);
    seen, edges := {}, {};
    IndexSize(m.packages, PACKAGE_ID);
    IndexSize(m.nodes, NODE_ID);
    IndexSize(locked, LOCKED_KEY);
    if m.members != [m.root] { return Err(NoUniqueRoot), seen, edges; }
    if |g.packages| != |m.packages| || |g.nodes| != |m.nodes| || m.root !in g.nodes || m.root !in g.packages {
      return Err(DuplicateIds), seen, edges;
    }
    if !m.rootMatches { return Err(RootDiffers), seen, edges; }
    if |g.locked| != |locked| { return Err(AmbiguousLock), seen, edges; }
    r, seen, edges := SelectFrom(g, m.root);
  }

  // ----- What is demanded, in the lists themselves ----------------------

  /** Some entry is a normal or build one. */
  predicate SomeLive(kinds: seq<DepKind>) {
    exists i :: 0 <= i < |kinds| && (kinds[i].Normal? || kinds[i].Build?)
  }

  /** The kinds are a non-empty list of known entries, and one without `kind` comes
      only after a normal or build one. */
  predicate ProperKinds(kinds: seq<DepKind>) {
    && kinds != []
    && (forall i :: 0 <= i < |kinds| ==> !kinds[i].NotAnObject? && !kinds[i].OtherKind?)
    && (forall i :: 0 <= i < |kinds| && kinds[i].NoKey? ==> SomeLive(kinds[..i]))
  }

  /** A dependency is well formed, and its package is listed if it counts. */
  ghost predicate ProperDependency(m: Metadata, dep: Dependency) {
    && dep.kinds.Some? && ProperKinds(dep.kinds.value)
    && (SomeLive(dep.kinds.value) ==> exists p :: p in m.packages && p.id == dep.pkg)
  }

  ghost predicate LockedAs(locked: seq<Locked>, p: Package) {
    exists l :: l in locked && l.name == p.name && l.version == p.version && l.source == p.source
  }

  /** The package is listed and locked from the same source, and its node is listed
      with proper dependencies. */
  ghost predicate Listed(m: Metadata, locked: seq<Locked>, id: string, p: Package, n: Node) {
    && p in m.packages && p.id == id && LockedAs(locked, p)
    && n in m.nodes && n.id == id && forall dep :: dep in n.deps ==> ProperDependency(m, dep)
  }

  lemma {:induction false} IndexFinds<K(!new), T>(items: seq<T>, key: T -> K, x: T)
    requires DistinctBy(key, items)
    ensures x in items <==> key(x) in Index(items, key) && Index(items, key)[key(x)] == x
  {
    IndexKeys(items, key, key(x));
    if x in items {
      var i :| 0 <= i < |items| && items[i] == x;
      var y := Index(items, key)[key(x)];
      var j :| 0 <= j < |items| && items[j] == y;
      assert i < j ==> key(items[i]) != key(items[j]);
      assert j < i ==> key(items[j]) != key(items[i]);
    }
  }

  /** The first `i` entries decide nothing, and the next one decides, if there is one. */
  ghost predicate DecidedAt(kinds: seq<DepKind>, i: nat) {
    && i <= |kinds| && (forall j :: 0 <= j < i ==> !Live(kinds[j]) && kinds[j] != NoKey)
    && (i < |kinds| ==> Live(kinds[i]) || kinds[i] == NoKey)
  }

  lemma {:induction false} ChosenAt(kinds: seq<DepKind>) returns (i: nat)
    ensures DecidedAt(kinds, i)
    ensures Chosen(kinds) == if i == |kinds| then Some(false) else if kinds[i] == NoKey then None else Some(true)
  {
    i := 0;
    if kinds != [] && !Live(kinds[0]) && kinds[0] != NoKey {
      var k := ChosenAt(kinds[1..]);
      i := k + 1;
      forall j | 0 <= j < i ensures !Live(kinds[j]) && kinds[j] != NoKey {
        if j > 0 { assert kinds[j] == kinds[1..][j - 1]; }
      }
    }
  }

  lemma LiveBefore(kinds: seq<DepKind>, i: nat, k: nat)
    requires DecidedAt(kinds, i) && k <= |kinds|
    ensures SomeLive(kinds[..k]) ==> i < k
    ensures i < k && Live(kinds[i]) ==> SomeLive(kinds[..k])
  {
    if i < k { assert kinds[..k][i] == kinds[i]; }
  }

  /** The two tests on the kinds accept exactly the proper lists, and choose the
      dependencies with a normal or build entry. */
  lemma KindsExactly(kinds: seq<DepKind>)
    ensures KnownKinds(Some(kinds)) && Chosen(kinds).Some? <==> ProperKinds(kinds)
    ensures ProperKinds(kinds) ==> (Chosen(kinds) == Some(true) <==> SomeLive(kinds))
  {
    var i := ChosenAt(kinds);
    forall k | 0 <= k <= |kinds|
      ensures SomeLive(kinds[..k]) ==> i < k
      ensures i < k && Live(kinds[i]) ==> SomeLive(kinds[..k])
    {
      LiveBefore(kinds, i, k);
    }
    assert kinds[..|kinds|] == kinds;
  }

  lemma DependencyExactly(m: Metadata, locked: seq<Locked>, dep: Dependency)
    ensures DependencyFits(GraphOf(m, locked), dep) <==> ProperDependency(m, dep)
    ensures ProperDependency(m, dep) ==> (Selected(dep) <==> SomeLive(dep.kinds.value))
  {
    if dep.kinds.Some? {
      KindsExactly(dep.kinds.value);
    }
    IndexKeys(m.packages, PACKAGE_ID, dep.pkg);
  }

  /** The dictionaries of a well-formed input hold what its lists hold. */
  lemma GraphHolds(m: Metadata, locked: seq<Locked>, p: Package, n: Node, l: Locked)
    requires WellFormed(m, locked)
    ensures var g := GraphOf(m, locked);
      && (p in m.packages <==> p.id in g.packages && g.packages[p.id] == p)
      && (n in m.nodes <==> n.id in g.nodes && g.nodes[n.id] == n)
      && (l in locked <==> (l.name, l.version) in g.locked && g.locked[(l.name, l.version)] == l)
  {
    IndexFinds(m.packages, PACKAGE_ID, p);
    IndexFinds(m.nodes, NODE_ID, n);
    IndexFinds(locked, LOCKED_KEY, l);
  }

  lemma GraphKeys(m: Metadata, locked: seq<Locked>, id: string, key: Key)
    ensures var g := GraphOf(m, locked);
      && (id in g.packages ==> g.packages[id].id == id)
      && (id in g.nodes ==> g.nodes[id].id == id)
      && (key in g.locked ==> (g.locked[key].name, g.locked[key].version) == key)
  {
    IndexKeys(m.packages, PACKAGE_ID, id);
    IndexKeys(m.nodes, NODE_ID, id);
    IndexKeys(locked, LOCKED_KEY, key);
  }

  lemma InLockExactly(m: Metadata, locked: seq<Locked>, p: Package)
    requires WellFormed(m, locked)
    ensures InLock(GraphOf(m, locked), p) <==> LockedAs(locked, p)
  {
    var l := Locked(p.name, p.version, p.source);
    GraphHolds(m, locked, p, Node("", []), l);
    GraphKeys(m, locked, "", (p.name, p.version));
    if LockedAs(locked, p) {
      var x :| x in locked && x.name == p.name && x.version == p.version && x.source == p.source;
      assert x == l;
    }
  }

  lemma DependenciesExactly(m: Metadata, locked: seq<Locked>, n: Node)
    ensures (forall k :: 0 <= k < |n.deps| ==> DependencyFits(GraphOf(m, locked), n.deps[k]))
        <==> (forall dep :: dep in n.deps ==> ProperDependency(m, dep))
  {
    forall k | 0 <= k < |n.deps| ensures DependencyFits(GraphOf(m, locked), n.deps[k]) <==> ProperDependency(m, n.deps[k]) {
      DependencyExactly(m, locked, n.deps[k]);
    }
  }

  /** A package fits exactly when the lists say so. */
  lemma FitsExactly(m: Metadata, locked: seq<Locked>, id: string)
    requires WellFormed(m, locked)
    ensures Fits(GraphOf(m, locked), id) <==> exists p, n :: Listed(m, locked, id, p, n)
  {
    var g := GraphOf(m, locked);
    GraphKeys(m, locked, id, ("", ""));
    if id in g.packages && id in g.nodes {
      var p, n := g.packages[id], g.nodes[id];
      GraphHolds(m, locked, p, n, Locked("", "", None));
      InLockExactly(m, locked, p);
      DependenciesExactly(m, locked, n);
      assert Fits(g, id) ==> Listed(m, locked, id, p, n);
    }
    if p, n :| Listed(m, locked, id, p, n) {
      GraphHolds(m, locked, p, n, Locked("", "", None));
      InLockExactly(m, locked, p);
      DependenciesExactly(m, locked, n);
    }
  }

  /** The node of `a` lists `b` with a normal or build kind. */
  ghost predicate DependsOn(m: Metadata, a: string, b: string) {
    exists n, dep :: n in m.nodes && n.id == a && dep in n.deps && dep.pkg == b && dep.kinds.Some? && SomeLive(dep.kinds.value)
  }

  /** The edges of a package that fits are its listed normal and build dependencies. */
  lemma EdgeExactly(m: Metadata, locked: seq<Locked>, a: string, b: string)
    requires WellFormed(m, locked) && Fits(GraphOf(m, locked), a)
    ensures Edge(GraphOf(m, locked), a, b) <==> DependsOn(m, a, b)
  {
    var g := GraphOf(m, locked);
    var node := g.nodes[a];
    GraphKeys(m, locked, a, ("", ""));
    GraphHolds(m, locked, g.packages[a], node, Locked("", "", None));
    forall dep | dep in node.deps ensures dep.kinds.Some? && (Selected(dep) <==> SomeLive(dep.kinds.value)) {
      var k :| 0 <= k < |node.deps| && node.deps[k] == dep;
      assert DependencyFits(g, node.deps[k]);
      DependencyExactly(m, locked, dep);
    }
    if n, dep :| n in m.nodes && n.id == a && dep in n.deps && dep.pkg == b && dep.kinds.Some? && SomeLive(dep.kinds.value) {
      GraphHolds(m, locked, g.packages[a], n, Locked("", "", None));
      var k :| 0 <= k < |node.deps| && node.deps[k] == dep;
      assert Arc(node.deps[k], b);
    }
    if Edge(g, a, b) {
      var k :| 0 <= k < |node.deps| && Arc(node.deps[k], b);
      assert node.deps[k] in node.deps;
    }
  }

  // ----- Names in the bill of materials ---------------------------------

  /** The hyphen between name and version can be read further left: `x` ends the
      longer name and begins the longer version. */
  ghost predicate Shifts(name: string, version: string, longer: string, shorter: string) {
    exists x: string :: longer == name + "-" + x && version == x + "-" + shorter
  }

  ghost predicate Shifted(a: Key, b: Key) {
    Shifts(a.0, a.1, b.0, b.1) || Shifts(b.0, b.1, a.0, a.1)
  }

  /** Exactly the shifted keys share a name in the bill of materials. */
  lemma SpdxNamesExactly(a: Key, b: Key)
    ensures PackageId(a.0, a.1) == PackageId(b.0, b.1) && a != b <==> Shifted(a, b)
  {
    var s, t := a.0 + "-" + a.1, b.0 + "-" + b.1;
    DropPrefix("SPDXRef-Package-", s, t);
    Regroup("SPDXRef-Package-", a.0, a.1);
    Regroup("SPDXRef-Package-", b.0, b.1);
    if s == t && a != b {
      NotSameLength(a, b);
      if |a.0| < |b.0| {
        ShiftFrom(a, b);
      } else {
        ShiftFrom(b, a);
      }
    }
    if Shifted(a, b) {
      if Shifts(a.0, a.1, b.0, b.1) { ShiftMeans(a, b); } else { ShiftMeans(b, a); }
    }
  }

  lemma DropPrefix(prefix: string, s: string, t: string)
    ensures prefix + s == prefix + t <==> s == t
  {
    assert (prefix + s)[|prefix|..] == s && (prefix + t)[|prefix|..] == t;
  }

  lemma Regroup(prefix: string, name: string, version: string)
    ensures prefix + name + "-" + version == prefix + (name + "-" + version)
  {
  }

  lemma NotSameLength(a: Key, b: Key)
    requires a.0 + "-" + a.1 == b.0 + "-" + b.1 && a != b
    ensures |a.0| != |b.0|
  {
    var s, t := a.0 + "-" + a.1, b.0 + "-" + b.1;
    assert a.0 == s[..|a.0|] && b.0 == t[..|b.0|];
    assert a.1 == s[|a.0| + 1..] && b.1 == t[|b.0| + 1..];
  }

  lemma ShiftFrom(a: Key, b: Key)
    requires a.0 + "-" + a.1 == b.0 + "-" + b.1 && |a.0| < |b.0|
    ensures Shifts(a.0, a.1, b.0, b.1)
  {
    var s, n, m := a.0 + "-" + a.1, |a.0|, |b.0|;
    assert s == b.0 + "-" + b.1;
    var x := s[n + 1..m];
    assert s[..m] == b.0 && s[..n] == a.0 && s[n] == '-' && s[m] == '-';
    assert s[n + 1..] == a.1 && s[m + 1..] == b.1;
    assert b.0 == a.0 + "-" + x && a.1 == x + "-" + b.1;
  }

  lemma ShiftMeans(a: Key, b: Key)
    requires Shifts(a.0, a.1, b.0, b.1)
    ensures a.0 + "-" + a.1 == b.0 + "-" + b.1 && a != b
  {
    var x: string :| b.0 == a.0 + "-" + x && a.1 == x + "-" + b.1;
    assert a.0 + "-" + (x + "-" + b.1) == (a.0 + "-" + x) + "-" + b.1;
    assert |b.0| > |a.0|;
  }

  /** As Cargo has it: no dot in a name, and only digits before a version's first dot. */
  predicate CargoNamed(key: Key, dot: nat) {
    && '.' !in key.0
    && dot < |key.1| && key.1[dot] == '.'
    && forall i :: 0 <= i < dot ==> '0' <= key.1[i] <= '9'
  }

  /** The keys Cargo allows are never shifted, so they never share a name. */
  lemma SpdxNamesApart(a: Key, aDot: nat, b: Key, bDot: nat)
    requires CargoNamed(a, aDot) && CargoNamed(b, bDot)
    ensures PackageId(a.0, a.1) == PackageId(b.0, b.1) ==> a == b
  {
    NotShifted(a, aDot, b);
    NotShifted(b, bDot, a);
    SpdxNamesExactly(a, b);
  }

  /** The shift would put a hyphen among the digits, or the dot into the name. */
  lemma NotShifted(a: Key, dot: nat, b: Key)
    requires CargoNamed(a, dot) && '.' !in b.0
    ensures !Shifts(a.0, a.1, b.0, b.1)
  {
    forall x: string | a.1 == x + "-" + b.1 ensures '.' in a.0 + "-" + x {
      DotBeforeHyphen(a, dot, x, b.1);
      assert (a.0 + "-" + x)[|a.0| + 1 + dot] == x[dot];
    }
  }

  lemma DotBeforeHyphen(a: Key, dot: nat, x: string, rest: string)
    requires CargoNamed(a, dot) && a.1 == x + "-" + rest
    ensures dot < |x| && x[dot] == '.'
  {
    assert a.1[|x|] == '-';
  }

  /** Selected packages have names of their own exactly when no two selected
      keys are shifted. */
  lemma SelectedNamesApart(m: Metadata, locked: seq<Locked>, seen: set<string>, edges: set<(string, string)>)
    requires Accepted(m, locked) && Reachable(GraphOf(m, locked), m.root, seen, edges)
    ensures var g := GraphOf(m, locked); forall a :: a in seen ==> a in g.packages
    ensures var g := GraphOf(m, locked);
      ((forall a, b :: a in seen && b in seen && SpdxOf(g, a) == SpdxOf(g, b) ==> a == b)
       <==> (forall a, b :: a in seen && b in seen ==> !Shifted(KeyOf(g, a), KeyOf(g, b))))
  {
    NamesApart(GraphOf(m, locked), m.root, seen);
  }

  lemma NamesApart(g: Graph, root: string, seen: set<string>)
    requires forall a :: a in seen <==> Reaches(g, root, a)
    requires KeysApart(g, root) && forall a :: Reaches(g, root, a) ==> a in g.packages
    ensures (forall a, b :: a in seen && b in seen && SpdxOf(g, a) == SpdxOf(g, b) ==> a == b)
        <==> (forall a, b :: a in seen && b in seen ==> !Shifted(KeyOf(g, a), KeyOf(g, b)))
  {
    forall a, b | a in seen && b in seen
      ensures (SpdxOf(g, a) == SpdxOf(g, b) && a != b) <==> Shifted(KeyOf(g, a), KeyOf(g, b))
    {
      SpdxNamesExactly(KeyOf(g, a), KeyOf(g, b));
      assert KeyOf(g, a) == KeyOf(g, b) ==> a == b;
    }
  }

  /** One relationship stands for two edges exactly when the ends of one are
      those of the other, or shifted from them. */
  lemma EdgesShareRelationship(g: Graph, root: string, e: (string, string), f: (string, string))
    requires KeysApart(g, root)
    requires forall a :: a in {e.0, e.1, f.0, f.1} ==> Reaches(g, root, a) && a in g.packages
    ensures (SpdxOf(g, e.0), SpdxOf(g, e.1)) == (SpdxOf(g, f.0), SpdxOf(g, f.1)) <==>
      && (e.0 == f.0 || Shifted(KeyOf(g, e.0), KeyOf(g, f.0)))
      && (e.1 == f.1 || Shifted(KeyOf(g, e.1), KeyOf(g, f.1)))
  {
    SpdxNamesExactly(KeyOf(g, e.0), KeyOf(g, f.0));
    SpdxNamesExactly(KeyOf(g, e.1), KeyOf(g, f.1));
  }

  // ----- Accepted graphs with such names --------------------------------

  function PackageOf(id: string, key: Key): Package { Package(id, key.0, key.1, None) }

  function LockedOf(key: Key): Locked { Locked(key.0, key.1, None) }

  /** A root with two dependencies, under any identifiers and keys. */
  function TwoDependencies(r: string, x: string, y: string, root: Key, a: Key, b: Key): (Metadata, seq<Locked>) {
    var deps := [Dependency(x, Some([Normal])), Dependency(y, Some([Normal]))];
    (Metadata(r, [r], [PackageOf(r, root), PackageOf(x, a), PackageOf(y, b)],
              [Node(r, deps), Node(x, []), Node(y, [])], true),
     [LockedOf(root), LockedOf(a), LockedOf(b)])
  }

  lemma IndexOfThree<K(!new), T>(a: T, b: T, c: T, key: T -> K)
    ensures Index([a, b, c], key) == map[key(a) := a][key(b) := b][key(c) := c]
  {
    assert [a, b, c][..2] == [a, b] && [a, b][..1] == [a] && [a][..0] == [];
    assert Index([], key) == map[];
    assert Index([a], key) == map[key(a) := a];
    assert Index([a, b], key) == map[key(a) := a][key(b) := b];
  }

  lemma ThreeDistinct<K(!new), T>(a: T, b: T, c: T, key: T -> K)
    requires key(a) != key(b) && key(a) != key(c) && key(b) != key(c)
    ensures DistinctBy(key, [a, b, c])
    ensures Index([a, b, c], key) == map[key(a) := a, key(b) := b, key(c) := c]
  {
    IndexOfThree(a, b, c, key);
  }

  ghost predicate TwoLeaves(g: Graph, r: string, x: string, y: string, root: Key, a: Key, b: Key) {
    && r != x && r != y && x != y && root != a && root != b && a != b
    && g.packages == map[r := PackageOf(r, root), x := PackageOf(x, a), y := PackageOf(y, b)]
    && g.nodes.Keys == {r, x, y} && g.nodes[x].deps == [] && g.nodes[y].deps == []
    && g.nodes[r].deps == [Dependency(x, Some([Normal])), Dependency(y, Some([Normal]))]
    && g.locked == map[root := LockedOf(root), a := LockedOf(a), b := LockedOf(b)]
  }

  lemma TwoDependenciesGraph(r: string, x: string, y: string, root: Key, a: Key, b: Key)
    requires r != x && r != y && x != y && root != a && root != b && a != b
    ensures var (m, locked) := TwoDependencies(r, x, y, root, a, b);
      WellFormed(m, locked) && TwoLeaves(GraphOf(m, locked), r, x, y, root, a, b)
  {
    var (m, locked) := TwoDependencies(r, x, y, root, a, b);
    ThreeDistinct(m.packages[0], m.packages[1], m.packages[2], PACKAGE_ID);
    ThreeDistinct(m.nodes[0], m.nodes[1], m.nodes[2], NODE_ID);
    ThreeDistinct(locked[0], locked[1], locked[2], LOCKED_KEY);
  }

  /** `r` depends on `x` and `y`, and there are no other edges. */
  ghost predicate Fork(g: Graph, r: string, x: string, y: string) {
    forall a, b :: Edge(g, a, b) <==> a == r && (b == x || b == y)
  }

  lemma ForkReaches(g: Graph, r: string, x: string, y: string)
    requires Fork(g, r, x, y)
    ensures forall a :: Reaches(g, r, a) <==> a in {r, x, y}
  {
    assert Edge(g, r, x) && Edge(g, r, y);
    ReachesRoot(g, r);
    ReachesOn(g, r, r, x);
    ReachesOn(g, r, r, y);
    forall a | Reaches(g, r, a) ensures a in {r, x, y} {
      var path :| Leads(g, path, r, a);
      ClosedHoldsPath(g, {r, x, y}, path, r, a);
    }
  }

  lemma ForkSelection(g: Graph, r: string, x: string, y: string, s: Selection, seen: set<string>, edges: set<(string, string)>)
    requires Fork(g, r, x, y) && Reachable(g, r, seen, edges) && Describes(g, r, s, seen, edges)
    requires {r, x, y} <= g.packages.Keys && SpdxOf(g, x) == SpdxOf(g, y)
    ensures seen == {r, x, y} && edges == {(r, x), (r, y)}
    ensures s.keys == {KeyOf(g, r), KeyOf(g, x), KeyOf(g, y)}
    ensures s.relationships == {(SpdxOf(g, r), SpdxOf(g, x))}
  {
    ForkReaches(g, r, x, y);
    assert seen == {r, x, y};
    forall e | e in edges ensures e == (r, x) || e == (r, y) {
      assert Edge(g, e.0, e.1);
    }
    assert Edge(g, r, x) && Edge(g, r, y);
  }

  lemma TwoLeavesFork(g: Graph, r: string, x: string, y: string, root: Key, a: Key, b: Key)
    requires TwoLeaves(g, r, x, y, root, a, b)
    ensures Fork(g, r, x, y)
  {
    var deps := g.nodes[r].deps;
    assert Arc(deps[0], x) && Arc(deps[1], y);
  }

  lemma TwoLeavesFit(g: Graph, r: string, x: string, y: string, root: Key, a: Key, b: Key)
    requires TwoLeaves(g, r, x, y, root, a, b)
    ensures forall id :: Reaches(g, r, id) ==> Fits(g, id)
    ensures KeysApart(g, r)
  {
    TwoLeavesFork(g, r, x, y, root, a, b);
    ForkReaches(g, r, x, y);
    assert InLock(g, g.packages[r]) && InLock(g, g.packages[x]) && InLock(g, g.packages[y]);
    assert KeyOf(g, r) == root && KeyOf(g, x) == a && KeyOf(g, y) == b;
  }

  /** Every pair of shifted keys occurs in a graph the program accepts, where two
      edges, to two packages, become one relationship. */
  lemma SpdxNamesMayCollide(r: string, x: string, y: string, root: Key, a: Key, b: Key)
    requires r != x && r != y && x != y && root != a && root != b && Shifted(a, b)
    ensures var (m, locked) := TwoDependencies(r, x, y, root, a, b);
      Accepted(m, locked) && Merges(GraphOf(m, locked), r)
  {
    SpdxNamesExactly(a, b);
    var (m, locked) := TwoDependencies(r, x, y, root, a, b);
    TwoDependenciesGraph(r, x, y, root, a, b);
    TwoLeavesFit(GraphOf(m, locked), r, x, y, root, a, b);
    TwoLeavesMerge(GraphOf(m, locked), r, x, y, root, a, b);
  }

  /** Whatever the program returns for this graph has fewer relationships than edges. */
  ghost predicate Merges(g: Graph, root: string) {
    forall s, seen, edges :: Reachable(g, root, seen, edges) && Describes(g, root, s, seen, edges) ==>
      |seen| == |s.keys| == 3 && |edges| == 2 && |s.relationships| == 1
  }

  lemma TwoLeavesMerge(g: Graph, r: string, x: string, y: string, root: Key, a: Key, b: Key)
    requires TwoLeaves(g, r, x, y, root, a, b) && PackageId(a.0, a.1) == PackageId(b.0, b.1)
    ensures Merges(g, r)
  {
    TwoLeavesFork(g, r, x, y, root, a, b);
    assert KeyOf(g, r) == root && KeyOf(g, x) == a && KeyOf(g, y) == b;
    forall s, seen, edges | Reachable(g, r, seen, edges) && Describes(g, r, s, seen, edges)
      ensures |seen| == |s.keys| == 3 && |edges| == 2 && |s.relationships| == 1
    {
      ForkSelection(g, r, x, y, s, seen, edges);
    }
  }

  /** Such keys exist. */
  lemma ShiftedExample()
    ensures Shifted(("a", "1-2"), ("a-1", "2"))
  {
    assert "a" + "-" + "1" == "a-1" && "1-2" == "1" + "-" + "2";
    assert Shifts("a", "1-2", "a-1", "2");
  }
}
