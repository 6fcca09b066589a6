/** The depth cap depends on the order of includes: the same files, with the same includes, load
    in one order and fail in another. */
module IncludeOrder {
  import opened Bytes
  import opened Ordering
  import opened IncludeGraph
  import opened IncludeLoader

  function Name(i: nat): (p: Path)
    ensures |p| == i + 1
  {
    seq(i + 1, _ => 'f')
  }

  function Rungs(n: nat): set<Path> {
    set i | 0 <= i <= n :: Name(i)
  }

  /** The top-level file includes files `1..n` one by one, downwards or upwards; each of those
      includes the next. */
  function LadderIncludes(n: nat, down: bool, i: nat): seq<Include> {
    if i == 0 then seq(n, k requires 0 <= k < n => Matches([Name(if down then n - k else k + 1)]))
    else if i < n then [Matches([Name(i + 1)])]
    else []
  }

  function Rung(n: nat, down: bool, i: nat): Source {
    Text(None, None, [], [], LadderIncludes(n, down, i))
  }

  function Ladder(n: nat, down: bool): Tree {
    Tree(map p | p in Rungs(n) && p != [] :: Rung(n, down, |p| - 1), Rungs(n))
  }

  const TOP: Path := Name(0)

  ghost predicate IsLadder(tree: Tree, n: nat, down: bool) {
    && tree.files.Keys == tree.permitted == Rungs(n)
    && forall i {:trigger tree.files[Name(i)]} :: 0 <= i <= n ==> Name(i) in tree.files && tree.files[Name(i)] == Rung(n, down, i)
  }

  lemma LadderIs(n: nat, down: bool)
    ensures IsLadder(Ladder(n, down), n, down)
  {
  }

  lemma InRungs(n: nat, p: Path) returns (i: nat)
    requires p in Rungs(n)
    ensures i <= n && p == Name(i)
  {
    i :| 0 <= i <= n && Name(i) == p;
  }

  ghost function StepTo(n: nat, down: bool, i: nat, s: Step): int {
    if i > 0 then i + 1 else if down then n - s.pattern else s.pattern + 1
  }

  /** Everything from the top, otherwise just the next rung. */
  lemma LadderStep(tree: Tree, n: nat, down: bool, i: nat, s: Step)
    requires IsLadder(tree, n, down) && i <= n
    ensures HasStep(tree, Name(i), s) <==> s.target == 0 && (if i == 0 then s.pattern < n else s.pattern == 0 && i < n)
    ensures HasStep(tree, Name(i), s) ==>
              i < StepTo(n, down, i, s) <= n && Target(tree, Name(i), s) == Name(StepTo(n, down, i, s))
  {
    assert tree.files[Name(i)] == Rung(n, down, i);
  }

  lemma EdgeRises(tree: Tree, n: nat, down: bool, p: Path, q: Path) returns (i: nat, j: nat)
    requires IsLadder(tree, n, down) && Edge(tree, p, q)
    ensures p == Name(i) && q == Name(j) && i < j <= n && (i == 0 || j == i + 1)
  {
    i := InRungs(n, p);
    var k :| 0 <= k < |tree.files[p].includes| && tree.files[p].includes[k].Matches? && q in tree.files[p].includes[k].targets;
    var t :| 0 <= t < |tree.files[p].includes[k].targets| && tree.files[p].includes[k].targets[t] == q;
    LadderStep(tree, n, down, i, Step(k, t));
    j := StepTo(n, down, i, Step(k, t));
  }

  lemma RisesByEdge(tree: Tree, n: nat, down: bool, i: nat, j: nat)
    requires IsLadder(tree, n, down) && i < j <= n && (i == 0 || j == i + 1)
    ensures Edge(tree, Name(i), Name(j))
  {
    var s := Step(if i > 0 then 0 else if down then n - j else j - 1, 0);
    LadderStep(tree, n, down, i, s);
    assert Edge(tree, Name(i), Target(tree, Name(i), s));
  }

  lemma {:induction false} ChainRises(tree: Tree, n: nat, down: bool, c: seq<Path>, i: nat, j: nat)
    requires IsLadder(tree, n, down) && Chain(tree, c) && c[0] in Rungs(n) && i <= j < |c|
    ensures c[j] in Rungs(n) && |c[i]| + j - i <= |c[j]|
    decreases j
  {
    if j > 0 {
      var a, b := EdgeRises(tree, n, down, c[j - 1], c[j]);
      ChainRises(tree, n, down, c, if i < j then i else 0, j - 1);
    }
  }

  lemma RungIsSound(tree: Tree, n: nat, down: bool, p: Path)
    requires IsLadder(tree, n, down) && p in Rungs(n)
    ensures SoundFile(tree, p) && Own(tree, NodeId, p) == Own(tree, NodeKey, p) == []
  {
    var k := InRungs(n, p);
    assert tree.files[Name(k)] == Rung(n, down, k);
    forall q | Edge(tree, p, q) ensures q in tree.permitted {
      var i, j := EdgeRises(tree, n, down, p, q);
    }
  }

  lemma NoCycle(tree: Tree, n: nat, down: bool, p: Path)
    requires IsLadder(tree, n, down)
    ensures !Cyclic(tree, TOP, p)
  {
    if Cyclic(tree, TOP, p) {
      var c, i :| ChainTo(tree, c, TOP, p) && 0 <= i < |c| - 1 && c[i] == p;
      ChainRises(tree, n, down, c, i, |c| - 1);
    }
  }

  /** Apart from its depth, nothing is wrong with a ladder. */
  lemma LadderIsLoadable(tree: Tree, n: nat, down: bool)
    requires IsLadder(tree, n, down)
    ensures Loadable(tree, TOP)
  {
    forall p | Reachable(tree, TOP, p)
      ensures SoundFile(tree, p) && !Cyclic(tree, TOP, p) && Own(tree, NodeId, p) == Own(tree, NodeKey, p) == []
    {
      var c :| ChainTo(tree, c, TOP, p);
      ChainRises(tree, n, down, c, 0, |c| - 1);
      RungIsSound(tree, n, down, p);
      NoCycle(tree, n, down, p);
    }
  }

  lemma LadderIsLong(tree: Tree, n: nat, down: bool)
    requires IsLadder(tree, n, down) && n > MAX_INCLUDE_DEPTH
    ensures TooLong(tree, TOP)
  {
    var c := seq(n + 1, i requires 0 <= i <= n => Name(i));
    forall i, j | 0 <= i < |c| - 1 && j == i + 1 ensures Edge(tree, c[i], c[j]) {
      RisesByEdge(tree, n, down, i, j);
    }
    assert Chain(tree, c) && c[0] == TOP;
  }

  // ---- downwards: the last rung first

  lemma {:induction false} DownWalk(tree: Tree, n: nat, r: Route, i: nat)
    requires IsLadder(tree, n, true) && r != [] && Walk(tree, TOP, r) == Some(Name(i))
    ensures i <= n && r[0].pattern + i == n + |r| - 1
    decreases |r|
  {
    var s := r[..|r| - 1];
    var p := Walk(tree, TOP, s).value;
    if |r| == 1 {
      StepFrom(tree, n, 0, r[0], i);
    } else {
      var k := WalkIsRung(tree, n, s);
      DownWalk(tree, n, s, k);
      StepFrom(tree, n, k, r[|r| - 1], i);
    }
  }

  lemma StepFrom(tree: Tree, n: nat, k: nat, s: Step, i: nat)
    requires IsLadder(tree, n, true) && k <= n && HasStep(tree, Name(k), s) && Target(tree, Name(k), s) == Name(i)
    ensures k < i <= n && i == if k > 0 then k + 1 else n - s.pattern
  {
    LadderStep(tree, n, true, k, s);
    assert |Name(i)| == i + 1;
  }

  lemma {:induction false} WalkIsRung(tree: Tree, n: nat, r: Route) returns (i: nat)
    requires IsLadder(tree, n, true) && Walk(tree, TOP, r).Some?
    ensures i <= n && Walk(tree, TOP, r).value == Name(i) && (r != [] ==> i > 0)
    decreases |r|
  {
    if r == [] {
      return 0;
    }
    var s := r[..|r| - 1];
    var k := WalkIsRung(tree, n, s);
    LadderStep(tree, n, true, k, r[|r| - 1]);
    i := StepTo(n, true, k, r[|r| - 1]);
  }

  lemma DirectRoute(tree: Tree, n: nat, i: nat)
    requires IsLadder(tree, n, true) && 0 < i <= n
    ensures Walk(tree, TOP, [Step(n - i, 0)]) == Some(Name(i))
  {
    var s := Step(n - i, 0);
    LadderStep(tree, n, true, 0, s);
    assert [s][..0] == [] && Walk(tree, TOP, [s][..0]) == Some(TOP);
  }

  /** The direct include of a rung comes before every longer way to it. */
  lemma DirectIsSooner(tree: Tree, n: nat, r: Route, p: Path)
    requires IsLadder(tree, n, true) && FirstRoute(tree, TOP, r, p)
    ensures |r| <= 1
  {
    if |r| > 1 {
      var i := WalkIsRung(tree, n, r);
      DownWalk(tree, n, r, i);
      DirectRoute(tree, n, i);
      assert Diverges([Step(n - i, 0)], r, 0);
    }
  }

  lemma DownEntries(tree: Tree, n: nat)
    requires IsLadder(tree, n, true)
    ensures EntriesWithinCap(tree, TOP)
  {
    forall r: Route, p | FirstRoute(tree, TOP, r, p) ensures Depth(tree, r, p) <= MAX_INCLUDE_DEPTH {
      DirectIsSooner(tree, n, r, p);
    }
  }

  // ---- upwards: the first rung first

  function Climb(i: nat): Route {
    seq(i, _ => Step(0, 0))
  }

  lemma {:induction false} UpWalk(tree: Tree, n: nat, i: nat)
    requires IsLadder(tree, n, false) && i <= n
    ensures Walk(tree, TOP, Climb(i)) == Some(Name(i))
    decreases i
  {
    if i > 0 {
      UpWalk(tree, n, i - 1);
      assert Climb(i)[..i - 1] == Climb(i - 1);
      LadderStep(tree, n, false, i - 1, Step(0, 0));
    }
  }

  lemma UpFirst(tree: Tree, n: nat, i: nat)
    requires IsLadder(tree, n, false) && i <= n
    ensures FirstRoute(tree, TOP, Climb(i), Name(i))
  {
    UpWalk(tree, n, i);
    forall s | Precedes(s, Climb(i)) ensures Walk(tree, TOP, s) != Some(Name(i)) {
      var k :| Diverges(s, Climb(i), k);
      assert s == s[..k] == Climb(i)[..k] == Climb(k);
      UpWalk(tree, n, k);
    }
  }

  lemma UpOverruns(tree: Tree, n: nat)
    requires IsLadder(tree, n, false) && n > MAX_INCLUDE_DEPTH
    ensures !EntriesWithinCap(tree, TOP)
  {
    var i := MAX_INCLUDE_DEPTH;
    UpFirst(tree, n, i);
    RisesByEdge(tree, n, false, i, i + 1);
    assert Depth(tree, Climb(i), Name(i)) == i + 1;
  }

  lemma SameEdges(a: Tree, b: Tree, n: nat, down: bool, p: Path, q: Path)
    requires IsLadder(a, n, down) && IsLadder(b, n, !down) && Edge(a, p, q)
    ensures Edge(b, p, q)
  {
    var i, j := EdgeRises(a, n, down, p, q);
    RisesByEdge(b, n, !down, i, j);
  }

  /** Two trees with the same include edges and chains above the cap: one loads, the other is too
      deep. */
  method LoadLadders(n: nat, a: Tree, b: Tree) returns (down: Result<(Config, seq<Path>)>, up: Result<(Config, seq<Path>)>)
    requires n > MAX_INCLUDE_DEPTH && a == Ladder(n, true) && b == Ladder(n, false)
    ensures forall p, q :: Edge(a, p, q) <==> Edge(b, p, q)
    ensures TooLong(a, TOP) && TooLong(b, TOP)
    ensures down.Ok? && up == Err(TooDeep)
  {
    LadderIs(n, true);
    LadderIs(n, false);
    forall p, q ensures Edge(a, p, q) <==> Edge(b, p, q) {
      if Edge(a, p, q) {
        SameEdges(a, b, n, true, p, q);
      } else if Edge(b, p, q) {
        SameEdges(b, a, n, false, p, q);
      }
    }
    LadderIsLong(a, n, true);
    LadderIsLong(b, n, false);
    LadderIsLoadable(a, n, true);
    LadderIsLoadable(b, n, false);
    DownEntries(a, n);
    UpOverruns(b, n);
    ghost var order;
    down, order := LoadConfig(a, TOP);
    up, order := LoadConfig(b, TOP);
    if !up.error.TooDeep? {
      JustifiedRefutes(b, TOP, up.error);
      assert false;
    }
  }
}
