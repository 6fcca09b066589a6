/** The derived "own drops" family: each node's drops minus those of its direct children. */
module OwnDrops {
  import opened Bytes
  import opened Ordering
  import opened MetricsSchema
  import opened Exposition
  import opened ProcessPaths

  const EVENTS_DROPPED_TOTAL: string := "limpid_events_dropped_total"
  const EVENTS_DROPPED_OWN_TOTAL: string := "limpid_events_dropped_own_total"
  const LABEL_PIPELINE: string := "pipeline"
  const LABEL_PATH: string := "process_path"
  const LABEL_NAME: string := "process_name"
  const DROPPED_OWN_HELP: string :=
    "Total events dropped directly at this processing node, excluding direct child drops."

  function LabelValue(labels: Labels, name: string): Option<string> {
    if labels == [] then None
    else if labels[0].name == name then Some(labels[0].value)
    else LabelValue(labels[1..], name)
  }

  /** Every label that is not the position in the process tree. */
  function Dimensions(labels: Labels): Labels {
    if labels == [] then []
    else if labels[0].name != LABEL_PATH && labels[0].name != LABEL_NAME then [labels[0]] + Dimensions(labels[1..])
    else Dimensions(labels[1..])
  }

  // ---- the hierarchy

  datatype Key = RootKey(pipeline: string) | NodeKey(dimensions: Labels, path: string)

  function KeyAt(labels: Labels, path: string): Option<Key> {
    if path != ROOT then Some(NodeKey(Dimensions(labels), path))
    else match LabelValue(labels, LABEL_PIPELINE)
      case None => None
      case Some(pipeline) => Some(RootKey(pipeline))
  }

  function OwnKey(labels: Labels): Option<Key> {
    match LabelValue(labels, LABEL_PATH)
    case None => None
    case Some(path) => KeyAt(labels, path)
  }

  function ParentKey(labels: Labels): Option<Key> {
    match LabelValue(labels, LABEL_PATH)
    case None => None
    case Some(path) =>
      match Parent(path)
      case None => None
      case Some(parent) => KeyAt(labels, parent)
  }

  ghost predicate AllValues(s: seq<Series>) {
    forall i :: 0 <= i < |s| ==> s[i].Value?
  }

  /** The last of the first `n` series that occupies `key`. */
  function Holder(s: seq<Series>, key: Key, n: nat): (r: Option<nat>)
    requires n <= |s|
    ensures r.Some? ==> r.value < n && OwnKey(s[r.value].labels) == Some(key)
  {
    if n == 0 then None
    else if OwnKey(s[n - 1].labels) == Some(key) then Some(n - 1)
    else Holder(s, key, n - 1)
  }

  function ParentIndex(s: seq<Series>, j: nat): (r: Option<nat>)
    requires j < |s|
    ensures r.Some? ==> r.value < |s|
  {
    match ParentKey(s[j].labels)
    case None => None
    case Some(key) => Holder(s, key, |s|)
  }

  /** The totals of the direct children of series `i` among the first `n`. */
  function ChildTotal(s: seq<Series>, i: nat, n: nat): nat
    requires AllValues(s) && n <= |s|
  {
    if n == 0 then 0
    else ChildTotal(s, i, n - 1) + if ParentIndex(s, n - 1) == Some(i) then s[n - 1].value else 0
  }

  function SaturatingSub(a: nat, b: nat): (r: nat)
    ensures r <= a
  {
    if b <= a then a - b else 0
  }

  function OwnValue(s: seq<Series>, i: nat): u64
    requires AllValues(s) && i < |s|
  {
    SaturatingSub(s[i].value, ChildTotal(s, i, |s|))
  }

  /** `s` with every total replaced by the drops of its own node. */
  function OwnSeries(s: seq<Series>): (r: seq<Series>)
    requires AllValues(s)
    ensures |r| == |s|
    ensures forall i :: 0 <= i < |s| ==> r[i] == Value(s[i].labels, OwnValue(s, i))
  {
    seq(|s|, i requires 0 <= i < |s| => Value(s[i].labels, OwnValue(s, i)))
  }

  function OwnFamily(source: Family): Option<Family> {
    if source.kind != CounterKind || exists i :: 0 <= i < |source.series| && !source.series[i].Value? then None
    else Some(Family(EVENTS_DROPPED_OWN_TOTAL, CounterKind, DROPPED_OWN_HELP, OwnSeries(source.series)))
  }

  ghost predicate IsSource(families: seq<Family>, i: int) {
    0 <= i < |families| && families[i].name == EVENTS_DROPPED_TOTAL &&
    forall k :: 0 <= k < i ==> families[k].name != EVENTS_DROPPED_TOTAL
  }

  // ---- the code

  function Lookup<K, V>(m: map<K, V>, k: K): Option<V> {
    if k in m then Some(m[k]) else None
  }

  /** The two index maps of `derive_dropped_own`; a later series takes over an occupied key. */
  method IndexHolders(s: seq<Series>) returns (roots: map<string, nat>, nodes: map<(Labels, string), nat>)
    ensures forall p :: Lookup(roots, p) == Holder(s, RootKey(p), |s|)
    ensures forall d, p :: p != ROOT ==> Lookup(nodes, (d, p)) == Holder(s, NodeKey(d, p), |s|)
  {
    roots, nodes := map[], map[];
    for i := 0 to |s|
      invariant forall p :: Lookup(roots, p) == Holder(s, RootKey(p), i)
      invariant forall d, p :: p != ROOT ==> Lookup(nodes, (d, p)) == Holder(s, NodeKey(d, p), i)
    {
      var labels := s[i].labels;
      match LabelValue(labels, LABEL_PATH)
      case None =>
      case Some(path) =>
        if path == ROOT {
          match LabelValue(labels, LABEL_PIPELINE)
          case None =>
          case Some(pipeline) => roots := roots[pipeline := i];
        } else {
          nodes := nodes[(Dimensions(labels), path) := i];
        }
    }
  }

  /** The series that the totals of series `j` are subtracted from, if there is one. */
  method FindParent(s: seq<Series>, j: nat, roots: map<string, nat>, nodes: map<(Labels, string), nat>) returns (parent: Option<nat>)
    requires j < |s|
    requires forall p :: Lookup(roots, p) == Holder(s, RootKey(p), |s|)
    requires forall d, p :: p != ROOT ==> Lookup(nodes, (d, p)) == Holder(s, NodeKey(d, p), |s|)
    ensures parent == ParentIndex(s, j)
  {
    var labels := s[j].labels;
    var path := LabelValue(labels, LABEL_PATH);
    var parentPath := if path.None? then None else Parent(path.value);
    if parentPath.None? {
      return None;
    }
    if parentPath.value == ROOT {
      var pipeline := LabelValue(labels, LABEL_PIPELINE);
      return if pipeline.None? then None else Lookup(roots, pipeline.value);
    }
    return Lookup(nodes, (Dimensions(labels), parentPath.value));
  }

  /** Series `i` once the first `n` series have been subtracted from their parents. */
  ghost function Remaining(s: seq<Series>, i: nat, n: nat): Series
    requires AllValues(s) && i < |s| && n <= |s|
  {
    Value(s[i].labels, SaturatingSub(s[i].value, ChildTotal(s, i, n)))
  }

  ghost function Charged(s: seq<Series>, i: nat, j: nat): Series
    requires AllValues(s) && i < |s| && j < |s|
  {
    var r := Remaining(s, i, j);
    if ParentIndex(s, j) == Some(i) then Value(r.labels, SaturatingSub(r.value, s[j].value)) else r
  }

  lemma OneMoreCharge(s: seq<Series>, i: nat, j: nat)
    requires AllValues(s) && i < |s| && j < |s|
    ensures Remaining(s, i, j + 1) == Charged(s, i, j)
  {
  }

  method DeriveOwn(source: seq<Series>) returns (series: seq<Series>)
    requires AllValues(source)
    ensures series == OwnSeries(source)
  {
    var roots, nodes := IndexHolders(source);
    series := source;
    for j := 0 to |source|
      invariant |series| == |source|
      invariant forall i :: 0 <= i < |source| ==> series[i] == Remaining(source, i, j)
    {
      forall i | 0 <= i < |source| ensures Remaining(source, i, j + 1) == Charged(source, i, j) {
        OneMoreCharge(source, i, j);
      }
      var parent := FindParent(source, j, roots, nodes);
      if parent.Some? {
        var own := series[parent.value];
        series := series[parent.value := Value(own.labels, SaturatingSub(own.value, source[j].value))];
      }
    }
  }

  method DeriveDroppedOwn(families: seq<Family>) returns (derived: Option<Family>)
    ensures (forall i :: !IsSource(families, i)) ==> derived == None
    ensures forall i :: IsSource(families, i) ==> derived == OwnFamily(families[i])
  {
    var i := 0;
    while i < |families| && families[i].name != EVENTS_DROPPED_TOTAL
      invariant i <= |families|
      invariant forall k :: 0 <= k < i ==> families[k].name != EVENTS_DROPPED_TOTAL
    {
      i := i + 1;
    }
    if i == |families| {
      return None;
    }
    assert IsSource(families, i);
    var source := families[i];
    if source.kind != CounterKind || exists k :: 0 <= k < |source.series| && !source.series[k].Value? {
      return None;
    }
    var series := DeriveOwn(source.series);
    return Some(Family(EVENTS_DROPPED_OWN_TOTAL, CounterKind, DROPPED_OWN_HELP, series));
  }

  // ---- the tree behind the labels, stated on the labels themselves

  /** The same labels, but for the position in the process tree. */
  ghost predicate AgreeElsewhere(a: Labels, b: Labels) {
    forall l: Label :: l.name != LABEL_PATH && l.name != LABEL_NAME ==> (l in a <==> l in b)
  }

  ghost predicate SamePipeline(a: Labels, b: Labels) {
    exists pipeline :: Label(LABEL_PIPELINE, pipeline) in a && Label(LABEL_PIPELINE, pipeline) in b
  }

  /** The root of a pipeline is known by the pipeline, every other node by all its labels. */
  ghost predicate SameScope(path: string, a: Labels, b: Labels) {
    if path == ROOT then SamePipeline(a, b) else AgreeElsewhere(a, b)
  }

  ghost predicate OnePartMore(p: string, q: string) {
    exists parts, leaf :: AreParts(parts) && IsPart(leaf) && p == PathOf(parts) && q == PathOf(parts + [leaf])
  }

  ghost predicate At(labels: Labels, path: string) {
    Label(LABEL_PATH, path) in labels
  }

  /** `b` is a direct child of `a`: one path part more, in the same scope. */
  ghost predicate ChildOf(a: Labels, b: Labels) {
    exists p, q :: At(a, p) && At(b, q) && OnePartMore(p, q) && SameScope(p, a, b)
  }

  ghost predicate SamePlace(a: Labels, b: Labels) {
    exists p :: At(a, p) && At(b, p) && SameScope(p, a, b)
  }

  lemma {:induction false} LabelValueIs(labels: Labels, name: string, value: string)
    requires Ascending(labels)
    ensures LabelValue(labels, name) == Some(value) <==> Label(name, value) in labels
    decreases |labels|
  {
    if labels != [] {
      LabelValueIs(labels[1..], name, value);
      assert labels == [labels[0]] + labels[1..];
    }
  }

  lemma {:induction false} DimensionsKeep(labels: Labels, l: Label)
    ensures l in Dimensions(labels) <==> l in labels && l.name != LABEL_PATH && l.name != LABEL_NAME
    decreases |labels|
  {
    if labels != [] {
      DimensionsKeep(labels[1..], l);
      assert labels == [labels[0]] + labels[1..];
    }
  }

  lemma {:induction false} DimensionsAscend(labels: Labels)
    requires Ascending(labels)
    ensures Ascending(Dimensions(labels))
    decreases |labels|
  {
    if labels != [] {
      var d := Dimensions(labels[1..]);
      DimensionsAscend(labels[1..]);
      forall i | 0 <= i < |d| ensures labels[0].name != d[i].name && StrLe(labels[0].name, d[i].name) {
        DimensionsKeep(labels[1..], d[i]);
        var k :| 1 <= k < |labels| && labels[k] == d[i];
      }
    }
  }

  /** What the dimensions of two series say: whether they agree elsewhere. */
  lemma DimensionsAgree(a: Labels, b: Labels)
    requires Ascending(a) && Ascending(b)
    ensures Dimensions(a) == Dimensions(b) <==> AgreeElsewhere(a, b)
  {
    var da, db := Dimensions(a), Dimensions(b);
    if da == db {
      forall l: Label | l.name != LABEL_PATH && l.name != LABEL_NAME ensures l in a <==> l in b {
        DimensionsKeep(a, l);
        DimensionsKeep(b, l);
      }
    }
    if AgreeElsewhere(a, b) {
      forall l ensures l in Elements(da) <==> l in Elements(db) {
        DimensionsKeep(a, l);
        DimensionsKeep(b, l);
      }
      DimensionsAscend(a);
      DimensionsAscend(b);
      AscendingUnique(da, db);
    }
  }

  lemma PipelinesAgree(a: Labels, b: Labels)
    requires Ascending(a) && Ascending(b)
    ensures SamePipeline(a, b) <==>
            LabelValue(a, LABEL_PIPELINE).Some? && LabelValue(a, LABEL_PIPELINE) == LabelValue(b, LABEL_PIPELINE)
  {
    if SamePipeline(a, b) {
      var pipeline :| Label(LABEL_PIPELINE, pipeline) in a && Label(LABEL_PIPELINE, pipeline) in b;
      LabelValueIs(a, LABEL_PIPELINE, pipeline);
      LabelValueIs(b, LABEL_PIPELINE, pipeline);
    }
    if LabelValue(a, LABEL_PIPELINE).Some? && LabelValue(a, LABEL_PIPELINE) == LabelValue(b, LABEL_PIPELINE) {
      LabelValueIs(a, LABEL_PIPELINE, LabelValue(a, LABEL_PIPELINE).value);
      LabelValueIs(b, LABEL_PIPELINE, LabelValue(a, LABEL_PIPELINE).value);
    }
  }

  /** Two keys for one path agree exactly for one scope. */
  lemma KeysAgree(a: Labels, b: Labels, p: string)
    requires Ascending(a) && Ascending(b)
    ensures KeyAt(a, p).Some? && KeyAt(a, p) == KeyAt(b, p) <==> SameScope(p, a, b)
  {
    PipelinesAgree(a, b);
    DimensionsAgree(a, b);
  }

  lemma KeyPath(a: Labels, b: Labels, p: string, q: string)
    requires KeyAt(a, p).Some? && KeyAt(a, p) == KeyAt(b, q)
    ensures p == q
  {
  }

  lemma ParentPath(p: string, q: string)
    ensures OnePartMore(p, q) <==> Parent(q) == Some(p)
  {
    DirectChildIsOnePartMore(p, q);
    if Parent(q) == Some(p) {
      ParentIsPath(q);
    }
  }

  /** Keys match exactly for direct children. */
  lemma KeysAreTheTree(a: Labels, b: Labels)
    requires Ascending(a) && Ascending(b)
    ensures OwnKey(a).Some? && OwnKey(a) == ParentKey(b) <==> ChildOf(a, b)
  {
    if OwnKey(a).Some? && OwnKey(a) == ParentKey(b) {
      var p, q := LabelValue(a, LABEL_PATH).value, LabelValue(b, LABEL_PATH).value;
      LabelValueIs(a, LABEL_PATH, p);
      LabelValueIs(b, LABEL_PATH, q);
      KeyPath(a, b, p, Parent(q).value);
      ParentPath(p, q);
      KeysAgree(a, b, p);
    }
    if ChildOf(a, b) {
      var p, q :| At(a, p) && At(b, q) && OnePartMore(p, q) && SameScope(p, a, b);
      LabelValueIs(a, LABEL_PATH, p);
      LabelValueIs(b, LABEL_PATH, q);
      ParentPath(p, q);
      KeysAgree(a, b, p);
    }
  }

  lemma ParentIsPath(path: string)
    requires Parent(path).Some?
    ensures IsProcessPath(Parent(path).value)
  {
    var all := PartsOfPath(path);
    var parts, leaf := all[..|all| - 1], all[|all| - 1];
    assert all == parts + [leaf];
    ParentOfPath(parts, leaf);
    PathOfParts(parts);
  }

  lemma {:induction false} HolderIsLast(s: seq<Series>, key: Key, n: nat)
    requires n <= |s|
    ensures Holder(s, key, n).None? ==> forall i :: 0 <= i < n ==> OwnKey(s[i].labels) != Some(key)
    ensures Holder(s, key, n).Some? ==> forall i :: Holder(s, key, n).value < i < n ==> OwnKey(s[i].labels) != Some(key)
    decreases n
  {
    if n > 0 {
      HolderIsLast(s, key, n - 1);
    }
  }

  ghost predicate IsChild(s: seq<Series>, i: int, j: int)
    requires 0 <= i < |s| && 0 <= j < |s|
  {
    ChildOf(s[i].labels, s[j].labels)
  }

  /** A total is subtracted from the last listed of the series it is a direct child of. */
  lemma ParentIndexIsParent(s: seq<Series>, j: nat)
    requires j < |s|
    ensures ParentIndex(s, j).None? ==> forall i :: 0 <= i < |s| ==> !IsChild(s, i, j)
    ensures ParentIndex(s, j).Some? ==>
              var p := ParentIndex(s, j).value;
              IsChild(s, p, j) && forall i :: p < i < |s| ==> !IsChild(s, i, j)
  {
    forall i | 0 <= i < |s| ensures IsChild(s, i, j) <==> OwnKey(s[i].labels).Some? && OwnKey(s[i].labels) == ParentKey(s[j].labels) {
      KeysAreTheTree(s[i].labels, s[j].labels);
    }
    if ParentKey(s[j].labels).Some? {
      HolderIsLast(s, ParentKey(s[j].labels).value, |s|);
    }
  }

  /** No two series are at the same place of the tree. */
  ghost predicate OnePerPlace(s: seq<Series>) {
    forall i, j :: 0 <= i < j < |s| ==> !SamePlace(s[i].labels, s[j].labels)
  }

  lemma ParentsShareAPlace(a: Labels, b: Labels, child: Labels)
    requires Ascending(a) && Ascending(b) && Ascending(child) && ChildOf(a, child) && ChildOf(b, child)
    ensures SamePlace(a, b)
  {
    KeysAreTheTree(a, child);
    KeysAreTheTree(b, child);
    var p, q := LabelValue(a, LABEL_PATH).value, LabelValue(b, LABEL_PATH).value;
    LabelValueIs(a, LABEL_PATH, p);
    LabelValueIs(b, LABEL_PATH, q);
    KeyPath(a, b, p, q);
    KeysAgree(a, b, p);
  }

  /** What a series adds to the children of the node that carries `labels`. */
  ghost function ChildWeight(labels: Labels): Series -> nat {
    (t: Series) => if t.Value? && ChildOf(labels, t.labels) then t.value else 0
  }

  /** The totals of the direct children of the node that carries `labels`. */
  ghost function ChildrenSum(s: seq<Series>, labels: Labels): nat {
    Total(ChildWeight(labels), s)
  }

  lemma {:induction false} ChildTotalIs(s: seq<Series>, i: nat, n: nat)
    requires AllValues(s) && OnePerPlace(s) && i < |s| && n <= |s|
    ensures ChildTotal(s, i, n) == ChildrenSum(s[..n], s[i].labels)
    decreases n
  {
    if n > 0 {
      ChildTotalIs(s, i, n - 1);
      OnlyParent(s, i, n - 1);
      assert s[..n][..n - 1] == s[..n - 1];
    }
  }

  lemma OnlyParent(s: seq<Series>, i: nat, j: nat)
    requires OnePerPlace(s) && i < |s| && j < |s|
    ensures ParentIndex(s, j) == Some(i) <==> IsChild(s, i, j)
  {
    ParentIndexIsParent(s, j);
    if IsChild(s, i, j) && ParentIndex(s, j) != Some(i) {
      var p := ParentIndex(s, j).value;
      ParentsShareAPlace(s[i].labels, s[p].labels, s[j].labels);
      assert false;
    }
  }

  ghost function Less(total: nat, children: nat): nat {
    if children <= total then total - children else 0
  }

  /** With one series per place, the own drops of a node are its total less the totals of its
      direct children, not below zero. */
  lemma OwnIsTotalLessChildren(s: seq<Series>, i: nat)
    requires AllValues(s) && OnePerPlace(s) && i < |s|
    ensures OwnSeries(s)[i].labels == s[i].labels
    ensures OwnSeries(s)[i].value == Less(s[i].value, ChildrenSum(s, s[i].labels))
  {
    ChildTotalIs(s, i, |s|);
    assert s[..|s|] == s;
  }

  // ---- conservation

  function Clamp(s: seq<Series>, i: nat): nat
    requires AllValues(s) && i < |s|
  {
    SaturatingSub(ChildTotal(s, i, |s|), s[i].value)
  }

  function SumOwn(s: seq<Series>, m: nat): nat
    requires AllValues(s) && m <= |s|
  {
    if m == 0 then 0 else SumOwn(s, m - 1) + OwnValue(s, m - 1)
  }

  function SumClamped(s: seq<Series>, m: nat): nat
    requires AllValues(s) && m <= |s|
  {
    if m == 0 then 0 else SumClamped(s, m - 1) + Clamp(s, m - 1)
  }

  /** The totals of the series that have no parent among the series. */
  ghost function SumOrphans(s: seq<Series>, m: nat): nat
    requires AllValues(s) && m <= |s|
  {
    if m == 0 then 0 else SumOrphans(s, m - 1) + if Orphan(s, m - 1) then s[m - 1].value else 0
  }

  ghost predicate Orphan(s: seq<Series>, j: int)
    requires 0 <= j < |s|
  {
    forall i :: 0 <= i < |s| ==> !IsChild(s, i, j)
  }

  function SumTotals(s: seq<Series>, m: nat): nat
    requires AllValues(s) && m <= |s|
  {
    if m == 0 then 0 else SumTotals(s, m - 1) + s[m - 1].value
  }

  /** Over the first `m` parents, the totals of their children among the first `n`. */
  function SumChildren(s: seq<Series>, m: nat, n: nat): nat
    requires AllValues(s) && m <= |s| && n <= |s|
  {
    if m == 0 then 0 else SumChildren(s, m - 1, n) + ChildTotal(s, m - 1, n)
  }

  lemma {:induction false} OneMoreChild(s: seq<Series>, m: nat, n: nat)
    requires AllValues(s) && m <= |s| && 0 < n <= |s|
    ensures var p := ParentIndex(s, n - 1);
            SumChildren(s, m, n) == SumChildren(s, m, n - 1) + if p.Some? && p.value < m then s[n - 1].value else 0
    decreases m
  {
    if m > 0 {
      OneMoreChild(s, m - 1, n);
    }
  }

  /** Every child is subtracted from one parent, or from none. */
  lemma {:induction false} ChildrenCountedOnce(s: seq<Series>, n: nat)
    requires AllValues(s) && n <= |s|
    ensures SumChildren(s, |s|, n) + SumOrphans(s, n) == SumTotals(s, n)
    decreases n
  {
    if n == 0 {
      NoChildren(s, |s|);
    } else {
      ChildrenCountedOnce(s, n - 1);
      OneMoreChild(s, |s|, n);
      ParentIndexIsParent(s, n - 1);
    }
  }

  lemma {:induction false} NoChildren(s: seq<Series>, m: nat)
    requires AllValues(s) && m <= |s|
    ensures SumChildren(s, m, 0) == 0
    decreases m
  {
    if m > 0 {
      NoChildren(s, m - 1);
    }
  }

  lemma {:induction false} OwnPlusChildren(s: seq<Series>, m: nat)
    requires AllValues(s) && m <= |s|
    ensures SumOwn(s, m) + SumChildren(s, m, |s|) == SumTotals(s, m) + SumClamped(s, m)
    decreases m
  {
    if m > 0 {
      OwnPlusChildren(s, m - 1);
    }
  }

  /** Own drops add up to the drops of the parentless nodes, plus whatever was clamped away. */
  lemma Conservation(s: seq<Series>)
    requires AllValues(s)
    ensures SumOwn(s, |s|) == SumOrphans(s, |s|) + SumClamped(s, |s|)
  {
    OwnPlusChildren(s, |s|);
    ChildrenCountedOnce(s, |s|);
  }

  lemma {:induction false} NothingClamped(s: seq<Series>, m: nat)
    requires AllValues(s) && m <= |s|
    ensures SumClamped(s, m) == 0 <==> forall i :: 0 <= i < m ==> ChildTotal(s, i, |s|) <= s[i].value
    decreases m
  {
    if m > 0 {
      NothingClamped(s, m - 1);
    }
  }

  /** The sum is conserved exactly when no node's children report more than the node itself. */
  lemma ConservedIffUnclamped(s: seq<Series>)
    requires AllValues(s)
    ensures SumOwn(s, |s|) == SumOrphans(s, |s|) <==>
            forall i :: 0 <= i < |s| ==> ChildTotal(s, i, |s|) <= s[i].value
  {
    Conservation(s);
    NothingClamped(s, |s|);
  }
}
