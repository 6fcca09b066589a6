/** The include graph of a configuration: files keyed by canonical path, the chains of
    includes through them, and what it means for a whole graph to be loadable. */
module IncludeGraph {
  import opened Bytes
  import opened Ordering

  type Path = string

  const MAX_INCLUDE_DEPTH: nat := 8

  /** What an include pattern resolves to, in glob order. `Rejected` is a pattern that is
      absolute outside the snippet tree, not UTF-8, or not a readable glob. */
  datatype Include = Rejected | Matches(targets: seq<Path>)

  datatype Source =
    | Unreadable
    | Malformed
    | Text(nodeId: Option<string>, nodeKey: Option<string>,
           definitions: seq<string>, globals: seq<string>, includes: seq<Include>)

  /** Every canonical path that exists, and those inside the config root or the snippet tree. */
  datatype Tree = Tree(files: map<Path, Source>, permitted: set<Path>)

  ghost predicate Parsed(tree: Tree, p: Path) {
    p in tree.files && tree.files[p].Text?
  }

  ghost predicate Edge(tree: Tree, p: Path, q: Path) {
    Parsed(tree, p) &&
    exists i :: 0 <= i < |tree.files[p].includes| && tree.files[p].includes[i].Matches? && q in tree.files[p].includes[i].targets
  }

  ghost predicate Chain(tree: Tree, c: seq<Path>) {
    c != [] && forall i, j :: 0 <= i < |c| - 1 && j == i + 1 ==> Edge(tree, c[i], c[j])
  }

  ghost predicate ChainTo(tree: Tree, c: seq<Path>, root: Path, p: Path) {
    Chain(tree, c) && c[0] == root && c[|c| - 1] == p
  }

  ghost predicate Reachable(tree: Tree, root: Path, p: Path) {
    exists c :: ChainTo(tree, c, root, p)
  }

  /** Reachable by a chain that respects the depth cap. */
  ghost predicate Within(tree: Tree, root: Path, p: Path) {
    exists c :: ChainTo(tree, c, root, p) && |c| - 1 <= MAX_INCLUDE_DEPTH
  }

  ghost predicate Cyclic(tree: Tree, root: Path, p: Path) {
    exists c, i :: ChainTo(tree, c, root, p) && 0 <= i < |c| - 1 && c[i] == p
  }

  ghost predicate TooLong(tree: Tree, root: Path) {
    exists c :: Chain(tree, c) && c[0] == root && |c| - 1 > MAX_INCLUDE_DEPTH
  }

  // ---- routes: which include of which file leads on

  /** One match of one pattern. Steps are taken pattern by pattern, match by match. */
  datatype Step = Step(pattern: nat, target: nat)

  type Route = seq<Step>

  ghost predicate Sooner(s: Step, t: Step) {
    s.pattern < t.pattern || (s.pattern == t.pattern && s.target < t.target)
  }

  ghost predicate HasStep(tree: Tree, p: Path, s: Step) {
    && Parsed(tree, p) && s.pattern < |tree.files[p].includes|
    && tree.files[p].includes[s.pattern].Matches? && s.target < |tree.files[p].includes[s.pattern].targets|
  }

  ghost function Target(tree: Tree, p: Path, s: Step): (q: Path)
    requires HasStep(tree, p, s)
    ensures Edge(tree, p, q)
  {
    tree.files[p].includes[s.pattern].targets[s.target]
  }

  /** Where a route from `root` ends, if there is such a route. */
  ghost function Walk(tree: Tree, root: Path, r: Route): Option<Path>
    decreases |r|
  {
    if r == [] then Some(root)
    else
      var p := Walk(tree, root, r[..|r| - 1]);
      if p.Some? && HasStep(tree, p.value, r[|r| - 1]) then Some(Target(tree, p.value, r[|r| - 1])) else None
  }

  ghost predicate Diverges(s: Route, r: Route, i: int) {
    0 <= i <= |s| && i < |r| && s[..i] == r[..i] && (i == |s| || Sooner(s[i], r[i]))
  }

  /** Include order: lexicographic, a route before its continuations. */
  ghost predicate Precedes(s: Route, r: Route) {
    exists i :: Diverges(s, r, i)
  }

  ghost predicate FirstRoute(tree: Tree, root: Path, r: Route, p: Path) {
    Walk(tree, root, r) == Some(p) && forall s :: Precedes(s, r) ==> Walk(tree, root, s) != Some(p)
  }

  ghost predicate Includes(tree: Tree, p: Path) {
    exists q :: Edge(tree, p, q)
  }

  /** The depth a file needs when it is come to by this route: its own includes count. */
  ghost function Depth(tree: Tree, r: Route, p: Path): nat {
    |r| + if Includes(tree, p) then 1 else 0
  }

  /** Every file is first come to, in include order, early enough for the cap. */
  ghost predicate EntriesWithinCap(tree: Tree, root: Path) {
    forall r, p :: FirstRoute(tree, root, r, p) ==> Depth(tree, r, p) <= MAX_INCLUDE_DEPTH
  }

  // ---- what a file and a graph must be

  /** The file parses and every one of its patterns matches something, all of it permitted. */
  ghost predicate SoundFile(tree: Tree, p: Path) {
    && Parsed(tree, p)
    && (forall i :: 0 <= i < |tree.files[p].includes| ==>
          tree.files[p].includes[i].Matches? && tree.files[p].includes[i].targets != [])
    && (forall q :: Edge(tree, p, q) ==> q in tree.permitted)
  }

  datatype Field = Definitions | Globals | NodeId | NodeKey

  ghost function Own(tree: Tree, field: Field, p: Path): seq<string> {
    if !Parsed(tree, p) then []
    else match field
      case Definitions => tree.files[p].definitions
      case Globals => tree.files[p].globals
      case NodeId => AsSeq(tree.files[p].nodeId)
      case NodeKey => AsSeq(tree.files[p].nodeKey)
  }

  /** A field of the files at `lo..hi`, in turn. */
  ghost function Gather(tree: Tree, field: Field, files: seq<Path>, lo: nat, hi: nat): seq<string>
    requires lo <= hi <= |files|
    decreases hi - lo
  {
    if lo == hi then [] else Own(tree, field, files[lo]) + Gather(tree, field, files, lo + 1, hi)
  }

  ghost predicate Unique(tree: Tree, root: Path, field: Field) {
    forall p, q | Reachable(tree, root, p) && Reachable(tree, root, q) ::
      Own(tree, field, p) != [] && Own(tree, field, q) != [] ==> p == q
  }

  /** Nothing but the depth cap can stop this graph from loading. */
  ghost predicate Loadable(tree: Tree, root: Path) {
    && (forall p :: Reachable(tree, root, p) ==> SoundFile(tree, p) && !Cyclic(tree, root, p))
    && Unique(tree, root, NodeId) && Unique(tree, root, NodeKey)
  }

  // ---- lemmas

  lemma ExtendChain(tree: Tree, c: seq<Path>, q: Path)
    requires Chain(tree, c) && Edge(tree, c[|c| - 1], q)
    ensures Chain(tree, c + [q])
  {
    var d := c + [q];
    forall i, j | 0 <= i < |d| - 1 && j == i + 1 ensures Edge(tree, d[i], d[j]) {
      if j < |c| {
        assert Edge(tree, c[i], c[j]);
      }
    }
  }

  lemma ReachableEdge(tree: Tree, root: Path, p: Path, q: Path)
    requires Reachable(tree, root, p) && Edge(tree, p, q)
    ensures Reachable(tree, root, q)
  {
    var c :| ChainTo(tree, c, root, p);
    ExtendChain(tree, c, q);
    assert ChainTo(tree, c + [q], root, q);
  }

  // ---- routes

  lemma {:induction false} OneDiverges(r: Route, s: Route, i: nat)
    requires i <= |r| && i <= |s| && r[..i] == s[..i] && r != s
    ensures Precedes(r, s) || Precedes(s, r)
    decreases |r| - i
  {
    if i == |r| || i == |s| {
      assert i == |r| ==> Diverges(r, s, i);
      assert i == |s| ==> Diverges(s, r, i);
    } else if r[i] == s[i] {
      assert r[..i + 1] == r[..i] + [r[i]] && s[..i + 1] == s[..i] + [s[i]];
      OneDiverges(r, s, i + 1);
    } else {
      assert Diverges(r, s, i) || Diverges(s, r, i);
    }
  }

  lemma FirstRouteUnique(tree: Tree, root: Path, r: Route, s: Route, p: Path)
    requires FirstRoute(tree, root, r, p) && FirstRoute(tree, root, s, p)
    ensures r == s
  {
    if r != s {
      OneDiverges(r, s, 0);
    }
  }

  /** A route is a chain with as many edges as it has steps. */
  lemma {:induction false} RouteIsChain(tree: Tree, root: Path, r: Route) returns (c: seq<Path>)
    requires Walk(tree, root, r).Some?
    ensures ChainTo(tree, c, root, Walk(tree, root, r).value) && |c| == |r| + 1
    decreases |r|
  {
    if r == [] {
      c := [root];
    } else {
      c := RouteIsChain(tree, root, r[..|r| - 1]);
      var q := Walk(tree, root, r).value;
      ExtendChain(tree, c, q);
      c := c + [q];
    }
  }

  /** Without chains above the cap every entry is within it. */
  lemma ShortChainsSuffice(tree: Tree, root: Path)
    requires !TooLong(tree, root)
    ensures EntriesWithinCap(tree, root)
  {
    forall r, p | FirstRoute(tree, root, r, p) ensures Depth(tree, r, p) <= MAX_INCLUDE_DEPTH {
      var c := RouteIsChain(tree, root, r);
      if Includes(tree, p) {
        var q :| Edge(tree, p, q);
        ExtendChain(tree, c, q);
        assert (c + [q])[0] == root;
      }
    }
  }

  /** Whatever follows a file of a topological order is in it too. */
  lemma {:induction false} RouteStaysIn(tree: Tree, order: seq<Path>, root: Path, r: Route, i: nat)
    requires Topological(tree, order) && i <= |r| && Walk(tree, root, r).Some?
    requires Walk(tree, root, r[..i]).Some? ==> Walk(tree, root, r[..i]).value in order
    ensures Walk(tree, root, r).value in order
    decreases |r|
  {
    if i == |r| {
      assert r[..i] == r;
    } else {
      var s := r[..|r| - 1];
      assert s[..i] == r[..i];
      RouteStaysIn(tree, order, root, s, i);
      var p := Walk(tree, root, s).value;
      var k :| 0 <= k < |order| && order[k] == p;
      assert Edge(tree, order[k], Walk(tree, root, r).value);
    }
  }

  /** Files gathered up to a point and then from there on; longer lists gather the same. */
  lemma {:induction false} GatherConcat(tree: Tree, field: Field, s: seq<Path>, t: seq<Path>, lo: nat, mid: nat)
    requires lo <= mid <= |s| && s <= t
    ensures Gather(tree, field, t, lo, |t|) == Gather(tree, field, s, lo, mid) + Gather(tree, field, t, mid, |t|)
    decreases mid - lo
  {
    if lo < mid {
      GatherConcat(tree, field, s, t, lo + 1, mid);
    }
  }

  lemma {:induction false} GatherWitness(tree: Tree, field: Field, files: seq<Path>, lo: nat, hi: nat) returns (i: nat)
    requires lo <= hi <= |files| && Gather(tree, field, files, lo, hi) != []
    ensures lo <= i < hi && Own(tree, field, files[i]) != []
    decreases hi - lo
  {
    if Own(tree, field, files[lo]) != [] {
      return lo;
    }
    i := GatherWitness(tree, field, files, lo + 1, hi);
  }

  lemma {:induction false} GatherHas(tree: Tree, field: Field, files: seq<Path>, lo: nat, i: nat)
    requires lo <= i < |files| && Own(tree, field, files[i]) != []
    ensures |Gather(tree, field, files, lo, |files|)| >= 1
    decreases i - lo
  {
    if lo < i {
      GatherHas(tree, field, files, lo + 1, i);
    }
  }

  lemma {:induction false} GatherTwo(tree: Tree, field: Field, files: seq<Path>, lo: nat, i: nat, j: nat)
    requires lo <= i < j < |files| && Own(tree, field, files[i]) != [] && Own(tree, field, files[j]) != []
    ensures |Gather(tree, field, files, lo, |files|)| >= 2
    decreases i - lo
  {
    if lo < i {
      GatherTwo(tree, field, files, lo + 1, i, j);
    } else {
      GatherHas(tree, field, files, lo + 1, j);
    }
  }

  // ---- topological order

  /** Every file comes after everything it includes. */
  ghost predicate Topological(tree: Tree, order: seq<Path>) {
    forall i, q :: 0 <= i < |order| && Edge(tree, order[i], q) ==> q in order[..i]
  }

  /** A chain can only descend a topological order, one place at least per edge. */
  lemma {:induction false} ChainDescends(tree: Tree, order: seq<Path>, n: nat, c: seq<Path>)
    requires Topological(tree, order) && n <= |order| && Chain(tree, c) && c[0] in order[..n]
    ensures |c| <= n
    ensures c[|c| - 1] in order[..n - |c| + 1]
    decreases |c|
  {
    if |c| > 1 {
      var i :| 0 <= i < n && order[i] == c[0];
      assert Edge(tree, c[0], c[1]);
      var rest := c[1..];
      forall k, l | 0 <= k < |rest| - 1 && l == k + 1 ensures Edge(tree, rest[k], rest[l]) {
        assert Edge(tree, c[k + 1], c[l + 1]);
      }
      ChainDescends(tree, order, i, rest);
      assert order[..i - |rest| + 1] <= order[..n - |c| + 1];
    }
  }

  lemma TopologicalIsAcyclic(tree: Tree, order: seq<Path>, root: Path, p: Path)
    requires Topological(tree, order) && NoDup(order) && root in order
    ensures !Cyclic(tree, root, p)
  {
    if Cyclic(tree, root, p) {
      var c, i :| ChainTo(tree, c, root, p) && 0 <= i < |c| - 1 && c[i] == p;
      SubChain(tree, c, 0, i);
      ChainDescends(tree, order, |order|, c[..i + 1]);
      var k :| 0 <= k < |order| && order[k] == p;
      SubChain(tree, c, i, |c| - 1);
      var loop := c[i..];
      ChainDescends(tree, order, k + 1, loop);
      assert false;
    }
  }

  lemma SubChain(tree: Tree, c: seq<Path>, i: nat, j: nat)
    requires Chain(tree, c) && i <= j < |c|
    ensures Chain(tree, c[i..j + 1])
    ensures j == |c| - 1 ==> Chain(tree, c[i..])
  {
    var d := c[i..j + 1];
    forall k, l | 0 <= k < |d| - 1 && l == k + 1 ensures Edge(tree, d[k], d[l]) {
      assert Edge(tree, c[i + k], c[i + l]);
    }
    assert j == |c| - 1 ==> d == c[i..];
  }

  /** Everything reachable from a member of a topological order is in it. */
  lemma ReachableIsOrdered(tree: Tree, order: seq<Path>, root: Path, p: Path)
    requires Topological(tree, order) && root in order && Reachable(tree, root, p)
    ensures p in order
  {
    var c :| ChainTo(tree, c, root, p);
    assert order[..|order|] == order;
    ChainDescends(tree, order, |order|, c);
  }
}
