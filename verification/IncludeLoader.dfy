/** `load_recursive`: the depth-first include loader with its `loaded` and `loading` sets. */
module IncludeLoader {
  import opened Bytes
  import opened IncludeGraph
  import opened Ordering

  datatype Config = Config(nodeId: Option<string>, nodeKey: Option<string>,
                           definitions: seq<string>, globals: seq<string>)

  const EMPTY := Config(None, None, [], [])

  datatype LoadError =
    | TooDeep
    | NotFound(path: Path)
    | Cycle(path: Path)
    | CannotRead(path: Path)
    | CannotParse(path: Path)
    | BadPattern(path: Path)
    | NoMatch(path: Path)
    | Forbidden(path: Path)
    | DuplicateNodeId
    | DuplicateNodeKey

  datatype Result<+T> = Ok(value: T) | Err(error: LoadError)

  // ---- what the mutable state means

  datatype Progress = Progress(loaded: set<Path>, loading: set<Path>, sources: seq<Path>, done: seq<Path>)

  /** `sources` is the source map: every file touched, once, in the order of first visit.
      `done` is the order of completion. */
  ghost predicate Consistent(tree: Tree, g: Progress) {
    && g.loaded !! g.loading
    && g.loading <= tree.files.Keys
    && NoDup(g.sources) && Elements(g.sources) == g.loaded + g.loading
    && NoDup(g.done) && Elements(g.done) == g.loaded
    && Topological(tree, g.done)
    && (forall p :: p in g.loaded ==> SoundFile(tree, p))
  }

  ghost predicate Grown(tree: Tree, root: Path, g: Progress, h: Progress) {
    && h.loading == g.loading
    && g.loaded <= h.loaded
    && g.sources <= h.sources
    && g.done <= h.done
    && (forall i :: |g.sources| <= i < |h.sources| ==> Within(tree, root, h.sources[i]))
    && (forall i :: |g.done| <= i < |h.done| ==> InTime(tree, root, h.done[i]))
  }

  /** The file was first come to within the depth cap, its own includes counted. */
  ghost predicate InTime(tree: Tree, root: Path, p: Path) {
    exists r :: FirstRoute(tree, root, r, p) && Depth(tree, r, p) <= MAX_INCLUDE_DEPTH
  }

  /** The configuration is made of exactly the files from `start` on, in this order. */
  ghost predicate Collected(tree: Tree, files: seq<Path>, start: nat, c: Config)
    requires start <= |files|
  {
    forall field {:trigger Part(c, field)} :: Part(c, field) == Gather(tree, field, files, start, |files|)
  }

  ghost function Part(c: Config, field: Field): seq<string> {
    match field
    case Definitions => c.definitions
    case Globals => c.globals
    case NodeId => AsSeq(c.nodeId)
    case NodeKey => AsSeq(c.nodeKey)
  }

  ghost predicate Clash(tree: Tree, root: Path, field: Field) {
    !Unique(tree, root, field)
  }

  /** What each error proves about the graph below `root`. */
  ghost predicate Justified(tree: Tree, root: Path, e: LoadError) {
    match e
    case TooDeep => !EntriesWithinCap(tree, root)
    case NotFound(p) => Reachable(tree, root, p) && p !in tree.files
    case Cycle(p) => Cyclic(tree, root, p)
    case CannotRead(p) => Reachable(tree, root, p) && p in tree.files && tree.files[p].Unreadable?
    case CannotParse(p) => Reachable(tree, root, p) && p in tree.files && tree.files[p].Malformed?
    case BadPattern(p) => Reachable(tree, root, p) && Parsed(tree, p) && Rejected in tree.files[p].includes
    case NoMatch(p) => Reachable(tree, root, p) && Parsed(tree, p) && Matches([]) in tree.files[p].includes
    case Forbidden(q) => q !in tree.permitted && exists p :: Reachable(tree, root, p) && Edge(tree, p, q)
    case DuplicateNodeId => Clash(tree, root, NodeId)
    case DuplicateNodeKey => Clash(tree, root, NodeKey)
  }

  /** An error other than the depth cap means that the graph is not loadable. */
  lemma JustifiedRefutes(tree: Tree, root: Path, e: LoadError)
    requires Justified(tree, root, e) && !e.TooDeep?
    ensures !Loadable(tree, root)
  {
    match e
    case Cycle(p) =>
      var c, i :| ChainTo(tree, c, root, p) && 0 <= i < |c| - 1 && c[i] == p;
      assert Reachable(tree, root, p);
    case Forbidden(q) =>
      var p :| Reachable(tree, root, p) && Edge(tree, p, q);
      assert !SoundFile(tree, p);
    case BadPattern(p) => assert !SoundFile(tree, p);
    case NoMatch(p) => assert !SoundFile(tree, p);
    case _ =>
  }

  lemma GrownTransitive(tree: Tree, root: Path, a: Progress, b: Progress, c: Progress)
    requires Grown(tree, root, a, b) && Grown(tree, root, b, c)
    ensures Grown(tree, root, a, c)
  {
    forall i | |a.sources| <= i < |c.sources| ensures Within(tree, root, c.sources[i]) {
      if i < |b.sources| {
        assert c.sources[i] == b.sources[i];
      }
    }
    forall i | |a.done| <= i < |c.done| ensures InTime(tree, root, c.done[i]) {
      if i < |b.done| {
        assert c.done[i] == b.done[i];
      }
    }
  }

  /** Files collected before and after a point make one collection, unless identities clash. */
  lemma CollectedConcat(tree: Tree, s: seq<Path>, t: seq<Path>, start: nat, ca: Config, cb: Config)
    requires start <= |s| && s <= t && Collected(tree, s, start, ca) && Collected(tree, t, |s|, cb)
    requires !(ca.nodeId.Some? && cb.nodeId.Some?) && !(ca.nodeKey.Some? && cb.nodeKey.Some?)
    ensures Collected(tree, t, start, Merged(ca, cb))
  {
    forall field ensures Part(Merged(ca, cb), field) == Gather(tree, field, t, start, |t|) {
      GatherConcat(tree, field, s, t, start, |s|);
      assert Part(Merged(ca, cb), field) == Part(ca, field) + Part(cb, field);
    }
  }

  ghost function Merged(a: Config, b: Config): Config {
    Config(if b.nodeId.Some? then b.nodeId else a.nodeId, if b.nodeKey.Some? then b.nodeKey else a.nodeKey,
           a.definitions + b.definitions, a.globals + b.globals)
  }

  lemma WithinIsReachable(tree: Tree, root: Path, p: Path)
    requires Within(tree, root, p)
    ensures Reachable(tree, root, p)
  {
  }

  /** Two files of one source map that both declare a field are two different files. */
  lemma ClashFound(tree: Tree, root: Path, field: Field, s: seq<Path>, t: seq<Path>, start: nat)
    requires start <= |s| && s <= t && NoDup(t)
    requires forall i :: start <= i < |t| ==> Within(tree, root, t[i])
    requires Gather(tree, field, s, start, |s|) != [] && Gather(tree, field, t, |s|, |t|) != []
    ensures Clash(tree, root, field)
  {
    var i := GatherWitness(tree, field, s, start, |s|);
    var j := GatherWitness(tree, field, t, |s|, |t|);
    assert t[i] == s[i] && t[i] != t[j];
    WithinIsReachable(tree, root, t[i]);
    WithinIsReachable(tree, root, t[j]);
  }

  lemma GatherLast(tree: Tree, field: Field, s: seq<Path>)
    requires s != []
    ensures Gather(tree, field, s, |s| - 1, |s|) == Own(tree, field, s[|s| - 1])
  {
    assert Own(tree, field, s[|s| - 1]) + [] == Own(tree, field, s[|s| - 1]);
  }

  // ---- state changes

  ghost function Entered(g: Progress, p: Path): Progress {
    g.(loading := g.loading + {p}, sources := g.sources + [p])
  }

  ghost function Left(g: Progress, p: Path): Progress {
    g.(loading := g.loading - {p}, loaded := g.loaded + {p}, done := g.done + [p])
  }

  lemma EnterConsistent(tree: Tree, g: Progress, p: Path)
    requires Consistent(tree, g) && p in tree.files && p !in g.loaded && p !in g.loading
    ensures Consistent(tree, Entered(g, p))
  {
    var h := Entered(g, p);
    assert p !in g.sources;
    assert Elements(h.sources) == Elements(g.sources) + {p};
  }

  lemma LeaveConsistent(tree: Tree, g: Progress, p: Path)
    requires Consistent(tree, g) && p in g.loading && SoundFile(tree, p)
    requires forall q :: Edge(tree, p, q) ==> q in g.loaded
    ensures Consistent(tree, Left(g, p))
  {
    var h := Left(g, p);
    assert p !in g.done;
    assert Elements(h.done) == Elements(g.done) + {p};
    forall i, q | 0 <= i < |h.done| && Edge(tree, h.done[i], q) ensures q in h.done[..i] {
      if i == |g.done| {
        assert h.done[..i] == g.done;
      } else {
        assert h.done[i] == g.done[i] && h.done[..i] == g.done[..i];
      }
    }
  }

  ghost predicate Satisfied(tree: Tree, pattern: Include, loaded: set<Path>) {
    pattern.Matches? && pattern.targets != [] &&
    forall q :: q in pattern.targets ==> q in loaded && q in tree.permitted
  }

  lemma AllSatisfied(tree: Tree, p: Path, loaded: set<Path>)
    requires Parsed(tree, p)
    requires forall i :: 0 <= i < |tree.files[p].includes| ==> Satisfied(tree, tree.files[p].includes[i], loaded)
    ensures SoundFile(tree, p)
    ensures forall q :: Edge(tree, p, q) ==> q in loaded
  {
  }

  // ---- the route taken

  /** `route` leads along `trail`, and wherever a sooner step leads is already loaded. */
  ghost predicate Followed(tree: Tree, route: Route, trail: seq<Path>, loaded: set<Path>) {
    && |trail| == |route| + 1
    && (forall i :: 0 <= i < |trail| ==> Walk(tree, trail[0], route[..i]) == Some(trail[i]))
    && (forall i, s :: 0 <= i < |route| && HasStep(tree, trail[i], s) && Sooner(s, route[i]) ==>
          Target(tree, trail[i], s) in loaded)
  }

  lemma FollowedGrows(tree: Tree, route: Route, trail: seq<Path>, loaded: set<Path>, more: set<Path>)
    requires Followed(tree, route, trail, loaded) && loaded <= more
    ensures Followed(tree, route, trail, more)
  {
  }

  lemma FollowStep(tree: Tree, route: Route, trail: seq<Path>, loaded: set<Path>, step: Step)
    requires Followed(tree, route, trail, loaded) && HasStep(tree, Last(trail), step)
    requires forall s :: HasStep(tree, Last(trail), s) && Sooner(s, step) ==> Target(tree, Last(trail), s) in loaded
    ensures Followed(tree, route + [step], trail + [Target(tree, Last(trail), step)], loaded)
  {
    var r, t := route + [step], trail + [Target(tree, Last(trail), step)];
    forall i | 0 <= i < |t| ensures Walk(tree, t[0], r[..i]) == Some(t[i]) {
      if i < |trail| {
        assert r[..i] == route[..i];
      } else {
        assert r[..i] == r && r[..|r| - 1] == route == route[..|route|];
        assert Walk(tree, trail[0], route[..|route|]) == Some(trail[|route|]);
      }
    }
  }

  /** A file that is neither loaded nor loading is now come to for the first time. */
  lemma EntryIsFirst(tree: Tree, g: Progress, route: Route, trail: seq<Path>)
    requires Consistent(tree, g) && Followed(tree, route, trail, g.loaded)
    requires Last(trail) !in g.loaded && Last(trail) !in trail[..|trail| - 1]
    ensures FirstRoute(tree, trail[0], route, Last(trail))
  {
    var root, p := trail[0], Last(trail);
    assert route[..|route|] == route && Walk(tree, root, route[..|route|]) == Some(trail[|route|]);
    forall s | Precedes(s, route) ensures Walk(tree, root, s) != Some(p) {
      var i :| Diverges(s, route, i);
      SoonerIsElsewhere(tree, g, route, trail, s, i);
    }
  }

  lemma SoonerIsElsewhere(tree: Tree, g: Progress, route: Route, trail: seq<Path>, s: Route, i: int)
    requires Consistent(tree, g) && Followed(tree, route, trail, g.loaded) && Diverges(s, route, i)
    ensures Walk(tree, trail[0], s).Some? ==>
              Walk(tree, trail[0], s).value in g.loaded || Walk(tree, trail[0], s).value in trail[..|trail| - 1]
  {
    var root := trail[0];
    assert Walk(tree, root, route[..i]) == Some(trail[i]);
    if i == |s| {
      assert s[..i] == s && trail[..|trail| - 1][i] == trail[i];
    } else if Walk(tree, root, s).Some? {
      var t := s[..i + 1];
      assert t[..i] == s[..i] == route[..i] && t[i] == s[i];
      if Walk(tree, root, t).Some? {
        assert HasStep(tree, trail[i], s[i]);
        assert Walk(tree, root, t).value in Elements(g.done);
      }
      RouteStaysIn(tree, g.done, root, s, i + 1);
      assert Walk(tree, root, s).value in Elements(g.done);
    }
  }

  /** Everything before this match of this pattern is loaded. */
  lemma SoonerLoaded(tree: Tree, p: Path, pattern: nat, i: nat, loaded: set<Path>)
    requires HasStep(tree, p, Step(pattern, i))
    requires forall k :: 0 <= k < pattern ==> Satisfied(tree, tree.files[p].includes[k], loaded)
    requires forall k :: 0 <= k < i ==> tree.files[p].includes[pattern].targets[k] in loaded
    ensures forall s :: HasStep(tree, p, s) && Sooner(s, Step(pattern, i)) ==> Target(tree, p, s) in loaded
  {
    forall s | HasStep(tree, p, s) && Sooner(s, Step(pattern, i)) ensures Target(tree, p, s) in loaded {
      if s.pattern < pattern {
        assert Satisfied(tree, tree.files[p].includes[s.pattern], loaded);
      }
    }
  }

  /** Inside `path`, at the end of `trail`, whose own entry in the source map is at `start`. */
  ghost predicate Inside(tree: Tree, g: Progress, trail: seq<Path>, start: nat, config: Config) {
    && Consistent(tree, g)
    && Chain(tree, trail) && |trail| - 1 <= MAX_INCLUDE_DEPTH
    && g.loading == Elements(trail)
    && Parsed(tree, Last(trail))
    && start < |g.sources| && Collected(tree, g.sources, start, config)
    && (forall i :: start <= i < |g.sources| ==> Within(tree, trail[0], g.sources[i]))
  }

  ghost function Last(s: seq<Path>): Path
    requires s != []
  {
    s[|s| - 1]
  }

  function OwnConfig(source: Source): Config
    requires source.Text?
  {
    Config(source.nodeId, source.nodeKey, source.definitions, source.globals)
  }

  lemma EnterInside(tree: Tree, g: Progress, trail: seq<Path>)
    requires Consistent(tree, g) && Chain(tree, trail) && |trail| - 1 <= MAX_INCLUDE_DEPTH
    requires g.loading == Elements(trail[..|trail| - 1])
    requires Last(trail) !in g.loaded && Last(trail) !in g.loading && Parsed(tree, Last(trail))
    ensures Inside(tree, Entered(g, Last(trail)), trail, |g.sources|, OwnConfig(tree.files[Last(trail)]))
  {
    var p := Last(trail);
    var h := Entered(g, p);
    EnterConsistent(tree, g, p);
    assert trail == trail[..|trail| - 1] + [p];
    assert ChainTo(tree, trail, trail[0], p);
    forall field ensures Part(OwnConfig(tree.files[p]), field) == Gather(tree, field, h.sources, |g.sources|, |h.sources|) {
      GatherLast(tree, field, h.sources);
    }
  }

  lemma LeaveInside(tree: Tree, g: Progress, trail: seq<Path>, h: Progress, config: Config)
    requires trail != [] && g.loading == Elements(trail[..|trail| - 1])
    requires Inside(tree, h, trail, |g.sources|, config) && Last(trail) !in g.loading
    requires Grown(tree, trail[0], Entered(g, Last(trail)), h)
    requires SoundFile(tree, Last(trail)) && forall q :: Edge(tree, Last(trail), q) ==> q in h.loaded
    requires InTime(tree, trail[0], Last(trail))
    ensures Consistent(tree, Left(h, Last(trail)))
    ensures Grown(tree, trail[0], g, Left(h, Last(trail)))
  {
    var p := Last(trail);
    assert trail == trail[..|trail| - 1] + [p];
    LeaveConsistent(tree, h, p);
    var k := Left(h, p);
    assert g.sources <= Entered(g, p).sources <= k.sources;
  }

  /** A nested load turns the collection so far into a longer one, if the identities agree. */
  lemma NestedMerged(tree: Tree, g: Progress, trail: seq<Path>, start: nat, own: Config, h: Progress, nested: Config)
    requires Inside(tree, g, trail, start, own) && Consistent(tree, h) && Grown(tree, trail[0], g, h)
    requires Collected(tree, h.sources, |g.sources|, nested)
    requires !(own.nodeId.Some? && nested.nodeId.Some?) && !(own.nodeKey.Some? && nested.nodeKey.Some?)
    ensures Inside(tree, h, trail, start, Merged(own, nested))
  {
    CollectedConcat(tree, g.sources, h.sources, start, own, nested);
    forall i | start <= i < |h.sources| ensures Within(tree, trail[0], h.sources[i]) {
      if i < |g.sources| {
        assert h.sources[i] == g.sources[i];
      }
    }
  }

  lemma NestedClash(tree: Tree, g: Progress, trail: seq<Path>, start: nat, own: Config, h: Progress, nested: Config, field: Field)
    requires Inside(tree, g, trail, start, own) && Consistent(tree, h) && Grown(tree, trail[0], g, h)
    requires Collected(tree, h.sources, |g.sources|, nested)
    requires field == NodeId ==> own.nodeId.Some? && nested.nodeId.Some?
    requires field == NodeKey ==> own.nodeKey.Some? && nested.nodeKey.Some?
    requires field in {NodeId, NodeKey}
    ensures Clash(tree, trail[0], field)
  {
    forall i | start <= i < |h.sources| ensures Within(tree, trail[0], h.sources[i]) {
      if i < |g.sources| {
        assert h.sources[i] == g.sources[i];
      }
    }
    assert Part(own, field) != [] && Part(nested, field) != [];
    ClashFound(tree, trail[0], field, g.sources, h.sources, start);
  }

  class IncludeState {
    const tree: Tree
    var loaded: set<Path>
    var loading: set<Path>
    var sources: seq<Path>
    ghost var done: seq<Path>

    constructor (tree: Tree)
      ensures this.tree == tree && Now() == Progress({}, {}, [], [])
    {
      this.tree := tree;
      loaded, loading, sources, done := {}, {}, [], [];
    }

    ghost function Now(): Progress
      reads this
    {
      Progress(loaded, loading, sources, done)
    }

    /** `trail` is the chain of files from the top-level one to the one asked for, and `route`
        the includes that lead along it. Recursion is bounded by cycle detection alone: every
        nested call has more files loading. */
    method LoadRecursive(path: Path, depth: nat, ghost trail: seq<Path>, ghost route: Route) returns (r: Result<Config>)
      requires Chain(tree, trail) && |trail| == depth + 1 && Last(trail) == path
      requires Followed(tree, route, trail, loaded)
      requires depth > 0 ==> FirstRoute(tree, trail[0], route[..depth - 1], trail[depth - 1])
      requires Consistent(tree, Now()) && loading == Elements(trail[..depth])
      modifies this
      ensures r.Ok? ==> Consistent(tree, Now()) && Grown(tree, trail[0], old(Now()), Now())
      ensures r.Ok? ==> path in loaded && Collected(tree, sources, |old(sources)|, r.value)
      ensures r.Ok? ==> depth <= MAX_INCLUDE_DEPTH
      ensures r.Err? ==> Justified(tree, trail[0], r.error)
      decreases tree.files.Keys - loading, 1
    {
      ghost var root := trail[0];
      assert ChainTo(tree, trail, root, path);
      assert Reachable(tree, root, path);
      if depth > MAX_INCLUDE_DEPTH {
        assert Edge(tree, trail[depth - 1], trail[depth]);
        return Err(TooDeep);
      }
      if path !in tree.files {
        return Err(NotFound(path));
      }
      if path in loading {
        ghost var i :| 0 <= i < depth && trail[i] == path;
        return Err(Cycle(path));
      }
      if path in loaded {
        return Ok(EMPTY);
      }
      loading := loading + {path};
      match tree.files[path]
      case Unreadable => return Err(CannotRead(path));
      case Malformed => return Err(CannotParse(path));
      case Text(_, _, _, _, _) =>
        EntryIsFirst(tree, old(Now()), route, trail);
        r := LoadText(path, depth, trail, route, old(Now()));
    }

    /** The file has been read and parsed, and is known to be loading; `g` is how things were before. */
    method LoadText(path: Path, depth: nat, ghost trail: seq<Path>, ghost route: Route, ghost g: Progress) returns (r: Result<Config>)
      requires Chain(tree, trail) && |trail| == depth + 1 && Last(trail) == path && depth <= MAX_INCLUDE_DEPTH
      requires Consistent(tree, g) && g.loading == Elements(trail[..depth]) && path !in g.loaded && path !in g.loading
      requires Now() == g.(loading := g.loading + {path}) && Parsed(tree, path)
      requires OnRoute(route, trail)
      modifies this
      ensures r.Ok? ==> Consistent(tree, Now()) && Grown(tree, trail[0], g, Now())
      ensures r.Ok? ==> path in loaded && Collected(tree, sources, |g.sources|, r.value)
      ensures r.Err? ==> Justified(tree, trail[0], r.error)
      decreases tree.files.Keys - loading, 5
    {
      EnterInside(tree, g, trail);
      sources := sources + [path];
      r := LoadPatterns(path, tree.files[path].includes, depth, trail, route, |g.sources|, Now(), OwnConfig(tree.files[path]));
      if r.Err? {
        return;
      }
      assert Depth(tree, route, path) <= MAX_INCLUDE_DEPTH;
      LeaveInside(tree, g, trail, Now(), r.value);
      loading := loading - {path};
      loaded := loaded + {path};
      done := done + [path];
    }

    ghost predicate OnRoute(route: Route, trail: seq<Path>)
      reads this
    {
      trail != [] && Followed(tree, route, trail, loaded) && FirstRoute(tree, trail[0], route, Last(trail))
    }

    method LoadPatterns(path: Path, includes: seq<Include>, depth: nat, ghost trail: seq<Path>, ghost route: Route, ghost start: nat,
                        ghost from: Progress, own: Config)
      returns (r: Result<Config>)
      requires Inside(tree, Now(), trail, start, own) && |trail| == depth + 1 && Last(trail) == path
      requires OnRoute(route, trail)
      requires includes == tree.files[path].includes
      requires Grown(tree, trail[0], from, Now())
      modifies this
      ensures r.Ok? ==> Inside(tree, Now(), trail, start, r.value) && Grown(tree, trail[0], from, Now())
      ensures r.Ok? ==> old(loaded) <= loaded && loading == old(loading)
      ensures r.Ok? ==> SoundFile(tree, path) && (forall q :: Edge(tree, path, q) ==> q in loaded)
      ensures r.Ok? && Includes(tree, path) ==> depth < MAX_INCLUDE_DEPTH
      ensures r.Err? ==> Justified(tree, trail[0], r.error)
      decreases tree.files.Keys - loading, 4
    {
      assert ChainTo(tree, trail, trail[0], path);
      r := Ok(own);
      var i := 0;
      while i < |includes| && r.Ok?
        invariant i <= |includes|
        invariant r.Ok? ==> Inside(tree, Now(), trail, start, r.value) && Grown(tree, trail[0], from, Now())
        invariant r.Ok? ==> old(loaded) <= loaded && loading == old(loading)
        invariant r.Ok? ==> forall k :: 0 <= k < i ==> Satisfied(tree, includes[k], loaded)
        invariant r.Ok? && i > 0 ==> depth < MAX_INCLUDE_DEPTH
        invariant r.Err? ==> Justified(tree, trail[0], r.error)
        decreases |includes| - i
      {
        if includes[i].Rejected? {
          r := Err(BadPattern(path));
        } else if includes[i].targets == [] {
          r := Err(NoMatch(path));
        } else {
          FollowedGrows(tree, route, trail, old(loaded), loaded);
          r := LoadTargets(path, i, depth, trail, route, start, from, r.value);
        }
        i := i + 1;
      }
      if r.Ok? {
        AllSatisfied(tree, path, loaded);
      }
    }

    method LoadTargets(path: Path, pattern: nat, depth: nat, ghost trail: seq<Path>, ghost route: Route, ghost start: nat,
                        ghost from: Progress, own: Config)
      returns (r: Result<Config>)
      requires Inside(tree, Now(), trail, start, own) && |trail| == depth + 1 && Last(trail) == path
      requires OnRoute(route, trail)
      requires pattern < |tree.files[path].includes| && tree.files[path].includes[pattern].Matches?
      requires tree.files[path].includes[pattern].targets != []
      requires forall k :: 0 <= k < pattern ==> Satisfied(tree, tree.files[path].includes[k], loaded)
      requires Grown(tree, trail[0], from, Now())
      modifies this
      ensures r.Ok? ==> Inside(tree, Now(), trail, start, r.value) && Grown(tree, trail[0], from, Now())
      ensures r.Ok? ==> old(loaded) <= loaded && loading == old(loading)
      ensures r.Ok? ==> Satisfied(tree, tree.files[path].includes[pattern], loaded)
      ensures r.Ok? ==> depth < MAX_INCLUDE_DEPTH
      ensures r.Err? ==> Justified(tree, trail[0], r.error)
      decreases tree.files.Keys - loading, 3
    {
      var targets := tree.files[path].includes[pattern].targets;
      r := Ok(own);
      var i := 0;
      while i < |targets| && r.Ok?
        invariant i <= |targets|
        invariant r.Ok? ==> Inside(tree, Now(), trail, start, r.value) && Grown(tree, trail[0], from, Now())
        invariant r.Ok? ==> old(loaded) <= loaded && loading == old(loading)
        invariant r.Ok? ==> forall k :: 0 <= k < i ==> targets[k] in loaded && targets[k] in tree.permitted
        invariant r.Ok? && i > 0 ==> depth < MAX_INCLUDE_DEPTH
        invariant r.Err? ==> Justified(tree, trail[0], r.error)
        decreases |targets| - i
      {
        assert Edge(tree, path, targets[i]);
        FollowedGrows(tree, route, trail, old(loaded), loaded);
        SoonerLoaded(tree, path, pattern, i, loaded);
        r := LoadTarget(path, targets[i], depth, trail, route, Step(pattern, i), start, from, r.value);
        i := i + 1;
      }
    }

    method LoadTarget(path: Path, target: Path, depth: nat, ghost trail: seq<Path>, ghost route: Route, ghost step: Step,
                      ghost start: nat, ghost from: Progress, own: Config)
      returns (r: Result<Config>)
      requires Inside(tree, Now(), trail, start, own) && |trail| == depth + 1 && Last(trail) == path
      requires OnRoute(route, trail) && HasStep(tree, path, step) && Target(tree, path, step) == target
      requires forall s :: HasStep(tree, path, s) && Sooner(s, step) ==> Target(tree, path, s) in loaded
      requires Grown(tree, trail[0], from, Now())
      modifies this
      ensures r.Ok? ==> Inside(tree, Now(), trail, start, r.value) && Grown(tree, trail[0], from, Now())
      ensures r.Ok? ==> old(loaded) <= loaded && loading == old(loading)
      ensures r.Ok? ==> target in loaded && target in tree.permitted
      ensures r.Ok? ==> depth < MAX_INCLUDE_DEPTH
      ensures r.Err? ==> Justified(tree, trail[0], r.error)
      decreases tree.files.Keys - loading, 2
    {
      ghost var root := trail[0];
      assert ChainTo(tree, trail, root, path);
      ReachableEdge(tree, root, path, target);
      if target !in tree.files {
        return Err(NotFound(target));
      }
      if target !in tree.permitted {
        return Err(Forbidden(target));
      }
      ExtendChain(tree, trail, target);
      assert (trail + [target])[..depth + 1] == trail;
      FollowStep(tree, route, trail, loaded, step);
      assert (route + [step])[..depth] == route;
      var included := LoadRecursive(target, depth + 1, trail + [target], route + [step]);
      if included.Err? {
        return included;
      }
      GrownTransitive(tree, root, from, old(Now()), Now());
      r := Merge(own, included.value);
      if r.Ok? {
        NestedMerged(tree, old(Now()), trail, start, own, Now(), included.value);
      } else {
        NestedClash(tree, old(Now()), trail, start, own, Now(), included.value,
                    if r.error.DuplicateNodeId? then NodeId else NodeKey);
      }
    }
  }

  method Merge(own: Config, included: Config) returns (r: Result<Config>)
    ensures r.Ok? <==> !(own.nodeId.Some? && included.nodeId.Some?) && !(own.nodeKey.Some? && included.nodeKey.Some?)
    ensures r.Ok? ==> r.value == Merged(own, included)
    ensures r.Err? ==> r.error == if own.nodeId.Some? && included.nodeId.Some? then DuplicateNodeId else DuplicateNodeKey
  {
    var config := own;
    if included.nodeId.Some? {
      config := config.(nodeId := included.nodeId);
      if own.nodeId.Some? {
        return Err(DuplicateNodeId);
      }
    }
    if included.nodeKey.Some? {
      config := config.(nodeKey := included.nodeKey);
      if own.nodeKey.Some? {
        return Err(DuplicateNodeKey);
      }
    }
    config := config.(definitions := config.definitions + included.definitions, globals := config.globals + included.globals);
    return Ok(config);
  }

  /** A gathered identity field of length at most one has at most one declarer. */
  lemma OneDeclarer(tree: Tree, root: Path, field: Field, files: seq<Path>)
    requires |Gather(tree, field, files, 0, |files|)| <= 1
    requires forall p :: Reachable(tree, root, p) ==> p in files
    ensures Unique(tree, root, field)
  {
    forall p, q | Reachable(tree, root, p) && Reachable(tree, root, q)
                  && Own(tree, field, p) != [] && Own(tree, field, q) != []
      ensures p == q
    {
      var i :| 0 <= i < |files| && files[i] == p;
      var j :| 0 <= j < |files| && files[j] == q;
      if i < j {
        GatherTwo(tree, field, files, 0, i, j);
      } else if j < i {
        GatherTwo(tree, field, files, 0, j, i);
      }
    }
  }

  lemma EnteredInTime(tree: Tree, root: Path, order: seq<Path>)
    requires Topological(tree, order) && root in order && forall i :: 0 <= i < |order| ==> InTime(tree, root, order[i])
    ensures EntriesWithinCap(tree, root)
  {
    forall r, p | FirstRoute(tree, root, r, p) ensures Depth(tree, r, p) <= MAX_INCLUDE_DEPTH {
      var c := RouteIsChain(tree, root, r);
      ReachableIsOrdered(tree, order, root, p);
      assert InTime(tree, root, p);
      var s :| FirstRoute(tree, root, s, p) && Depth(tree, s, p) <= MAX_INCLUDE_DEPTH;
      FirstRouteUnique(tree, root, r, s, p);
    }
  }

  lemma CompletedOnce(tree: Tree, g: Progress)
    requires Consistent(tree, g) && g.loading == {}
    ensures multiset(g.done) == multiset(g.sources)
    ensures forall p :: p in g.sources <==> p in g.done
  {
    assert forall p :: p in g.sources <==> p in Elements(g.sources);
    assert forall p :: p in g.done <==> p in Elements(g.done);
    SameElements(g.done, g.sources);
  }

  lemma SourcesAreReachable(tree: Tree, root: Path, g: Progress)
    requires Consistent(tree, g) && g.loading == {} && root in g.loaded
    requires forall i :: 0 <= i < |g.sources| ==> Within(tree, root, g.sources[i])
    ensures forall p :: p in g.sources ==> Within(tree, root, p)
    ensures forall p :: p in g.sources <==> Reachable(tree, root, p)
  {
    CompletedOnce(tree, g);
    assert root in Elements(g.done);
    forall p | Reachable(tree, root, p) ensures p in g.sources {
      ReachableIsOrdered(tree, g.done, root, p);
    }
    forall p | p in g.sources ensures Within(tree, root, p) && Reachable(tree, root, p) {
      var i :| 0 <= i < |g.sources| && g.sources[i] == p;
      WithinIsReachable(tree, root, p);
    }
  }

  lemma CollectedIsLoadable(tree: Tree, root: Path, g: Progress, config: Config)
    requires Consistent(tree, g) && root in g.loaded && Collected(tree, g.sources, 0, config)
    requires forall p :: p in g.sources <==> Reachable(tree, root, p)
    ensures Loadable(tree, root)
  {
    assert root in Elements(g.done);
    forall p | Reachable(tree, root, p) ensures SoundFile(tree, p) && !Cyclic(tree, root, p) {
      ReachableIsOrdered(tree, g.done, root, p);
      assert p in Elements(g.done);
      TopologicalIsAcyclic(tree, g.done, root, p);
    }
    assert |Part(config, NodeId)| <= 1 && |Part(config, NodeKey)| <= 1;
    OneDeclarer(tree, root, NodeId, g.sources);
    OneDeclarer(tree, root, NodeKey, g.sources);
  }

  /** `load_config_with_source_map`. It succeeds exactly for loadable graphs whose files are all
      come to within the cap, and then collects every reachable file exactly once. */
  method LoadConfig(tree: Tree, root: Path) returns (r: Result<(Config, seq<Path>)>, ghost order: seq<Path>)
    ensures r.Ok? ==> Loadable(tree, root)
    ensures r.Ok? ==> NoDup(r.value.1) && forall p :: p in r.value.1 <==> Reachable(tree, root, p)
    ensures r.Ok? ==> forall p :: p in r.value.1 ==> Within(tree, root, p)
    ensures r.Ok? ==> Collected(tree, r.value.1, 0, r.value.0)
    ensures r.Ok? ==> Topological(tree, order) && NoDup(order) && multiset(order) == multiset(r.value.1)
    ensures r.Err? ==> Justified(tree, root, r.error)
    ensures r.Ok? <==> Loadable(tree, root) && EntriesWithinCap(tree, root)
    ensures !TooLong(tree, root) ==> (r.Ok? <==> Loadable(tree, root))
  {
    var state := new IncludeState(tree);
    order := [];
    assert [root][..0] == [];
    if !TooLong(tree, root) {
      ShortChainsSuffice(tree, root);
    }
    var loaded := state.LoadRecursive(root, 0, [root], []);
    if loaded.Err? {
      if !loaded.error.TooDeep? {
        JustifiedRefutes(tree, root, loaded.error);
      }
      return Err(loaded.error), order;
    }
    order := state.done;
    var sources := state.sources;
    CompletedOnce(tree, state.Now());
    SourcesAreReachable(tree, root, state.Now());
    CollectedIsLoadable(tree, root, state.Now(), loaded.value);
    EnteredInTime(tree, root, order);
    return Ok((loaded.value, sources)), order;
  }
}
