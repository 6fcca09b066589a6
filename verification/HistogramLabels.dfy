/** The `le` chain: how histogram labels make room for the bucket bound. */
module HistogramLabels {
  import opened Ordering
  import opened MetricsSchema

  const LE: string := "le"

  predicate IsLeChain(name: string) {
    name == LE ||
    (LE <= name && name[2..] != [] && forall i :: 2 <= i < |name| ==> name[i] == '_')
  }

  function ShiftName(name: string): string {
    if IsLeChain(name) then name + "_" else name
  }

  function ShiftLabel(l: Label): Label {
    Label(ShiftName(l.name), l.value)
  }

  predicate HasLe(labels: Labels) {
    exists i :: 0 <= i < |labels| && labels[i].name == LE
  }

  /** `map_histogram_labels` */
  function MapHistogramLabels(labels: Labels): Labels {
    if !HasLe(labels) then labels else SortLabels(Map(ShiftLabel, labels))
  }

  /** `with_bucket_bound` */
  function WithBucketBound(labels: Labels, bound: string): Labels {
    SortLabels(labels + [Label(LE, bound)])
  }

  lemma ShiftInjective(a: string, b: string)
    ensures ShiftName(a) == ShiftName(b) ==> a == b
    ensures ShiftName(a) != LE
  {
    ShiftedIsLongChain(a);
    ShiftedIsLongChain(b);
    if ShiftName(a) == ShiftName(b) && IsLeChain(a) {
      assert (a + "_")[..|a|] == a && (b + "_")[..|b|] == b;
    }
  }

  /** The shift moves the chain into itself and leaves every other name alone. */
  lemma ShiftedIsLongChain(a: string)
    ensures IsLeChain(ShiftName(a)) <==> IsLeChain(a)
    ensures |a| <= |ShiftName(a)| && ShiftName(a) != LE
  {
    if IsLeChain(a) {
      var b := a + "_";
      assert b[..2] == a[..2] == LE;
    }
  }

  lemma ShiftKeepsDistinct(labels: Labels)
    requires Distinct(NameOf, labels)
    ensures Distinct(NameOf, Map(ShiftLabel, labels))
  {
    var m := Map(ShiftLabel, labels);
    forall i, j | 0 <= i < j < |m| ensures NameOf(m[i]) != NameOf(m[j]) {
      ShiftInjective(labels[i].name, labels[j].name);
      assert NameOf(labels[i]) != NameOf(labels[j]);
    }
  }

  /** The mapped labels are again a map, and the name `le` is free in it. */
  lemma MappedFreesLe(labels: Labels)
    requires Ascending(labels)
    ensures Ascending(MapHistogramLabels(labels)) && !HasLe(MapHistogramLabels(labels))
  {
    if HasLe(labels) {
      AscendingDistinct(labels);
      ShiftKeepsDistinct(labels);
      var m := Map(ShiftLabel, labels);
      SortLabelsAscends(m);
      SameLength(SortLabels(m), m);
      forall i | 0 <= i < |SortLabels(m)| ensures SortLabels(m)[i].name != LE {
        assert SortLabels(m)[i] in m;
        var j :| 0 <= j < |m| && m[j] == SortLabels(m)[i];
        ShiftInjective(labels[j].name, labels[j].name);
      }
    }
  }

  // ---- what the labels become, said of the labels

  /** `le` followed by any number of underscores. */
  ghost predicate InChain(name: string) {
    exists n: nat :: name == LE + Underscores(n)
  }

  function Underscores(n: nat): string {
    seq(n, _ => '_')
  }

  lemma ChainIs(name: string)
    ensures IsLeChain(name) <==> InChain(name)
  {
    if IsLeChain(name) {
      var n := |name| - 2;
      if name == LE {
        assert name == LE + Underscores(0);
      } else {
        assert name == LE + name[2..];
        assert name == LE + Underscores(n);
      }
    }
    if InChain(name) {
      var n: nat :| name == LE + Underscores(n);
      if n > 0 {
        assert name[2..] == Underscores(n);
        assert forall i :: 2 <= i < |name| ==> name[i] == Underscores(n)[i - 2];
      } else {
        assert name == LE;
      }
    }
  }

  /** `l` is what the label `k` becomes if `le` is taken: one more underscore within the chain. */
  ghost predicate Renamed(k: Label, l: Label) {
    l.value == k.value && l.name == if InChain(k.name) then k.name + "_" else k.name
  }

  /** `out` lists the labels under their new names; without `le` there are none. */
  ghost predicate Relabelled(labels: Labels, out: Labels) {
    && Ascending(out)
    && forall l :: l in out <==> if HasLe(labels) then exists k :: k in labels && Renamed(k, l) else l in labels
  }

  /** `out` lists the labels and the bound. */
  ghost predicate Bounded(labels: Labels, bound: string, out: Labels) {
    Ascending(out) && forall l :: l in out <==> l in labels || l == Label(LE, bound)
  }

  lemma MappedIsRelabelled(labels: Labels)
    requires Ascending(labels)
    ensures Relabelled(labels, MapHistogramLabels(labels))
  {
    MappedFreesLe(labels);
    if HasLe(labels) {
      var m := Map(ShiftLabel, labels);
      SortKeeps(LabelLe, Whole, m);
      SameLength(SortLabels(m), m);
      SameLength(m, SortLabels(m));
      forall l ensures l in m <==> exists k :: k in labels && Renamed(k, l) {
        ShiftIsRenaming(labels, l);
      }
    }
  }

  lemma ShiftIsRenaming(labels: Labels, l: Label)
    ensures l in Map(ShiftLabel, labels) <==> exists k :: k in labels && Renamed(k, l)
  {
    var m := Map(ShiftLabel, labels);
    if l in m {
      var i :| 0 <= i < |m| && m[i] == l;
      ChainIs(labels[i].name);
      assert labels[i] in labels && Renamed(labels[i], l);
    }
    if k :| k in labels && Renamed(k, l) {
      var i :| 0 <= i < |labels| && labels[i] == k;
      ChainIs(k.name);
      assert m[i] == l;
    }
  }

  lemma BoundIsAdded(labels: Labels, bound: string)
    requires Ascending(labels) && !HasLe(labels)
    ensures Bounded(labels, bound, WithBucketBound(labels, bound))
  {
    BoundAscends(labels, bound);
    var out := WithBucketBound(labels, bound);
    forall l ensures l in out <==> l in labels || l == Label(LE, bound) {
      assert l in out <==> l in multiset(out);
      assert l in labels <==> l in multiset(labels);
    }
  }

  lemma SameNamesSameLe(a: Labels, b: Labels)
    requires Names(a) == Names(b)
    ensures HasLe(a) <==> HasLe(b)
  {
    assert forall i :: 0 <= i < |a| ==> Names(a)[i] == a[i].name;
    assert forall i :: 0 <= i < |b| ==> Names(b)[i] == b[i].name;
    assert |Names(a)| == |a| && |Names(b)| == |b|;
  }

  /** Within one label-name set the mapping never merges two label sets. */
  lemma MappedInjective(a: Labels, b: Labels)
    requires Ascending(a) && Ascending(b) && Names(a) == Names(b)
    requires MapHistogramLabels(a) == MapHistogramLabels(b)
    ensures a == b
  {
    SameNamesSameLe(a, b);
    if HasLe(a) {
      var ma, mb := Map(ShiftLabel, a), Map(ShiftLabel, b);
      SortKeeps(LabelLe, Whole, ma);
      SortKeeps(LabelLe, Whole, mb);
      SameLength(ma, mb);
      assert |Names(a)| == |a| && |Names(b)| == |b|;
      forall i | 0 <= i < |a| ensures a[i] == b[i] {
        assert ma[i] in mb;
        var j :| 0 <= j < |mb| && mb[j] == ma[i];
        ShiftInjective(a[i].name, b[j].name);
        assert Names(a)[j] == a[j].name && Names(b)[j] == b[j].name;
        assert a[i].name == a[j].name;
        if i != j {
          assert false;
        }
      }
    }
  }

  lemma BoundAscends(labels: Labels, bound: string)
    requires Ascending(labels) && !HasLe(labels)
    ensures Ascending(WithBucketBound(labels, bound))
    ensures multiset(WithBucketBound(labels, bound)) == multiset(labels) + multiset{Label(LE, bound)}
  {
    SortLabelsAscends(labels + [Label(LE, bound)]);
  }

  /** The bound and the labels can be read back from a bucket's labels. */
  lemma BoundInjective(a: Labels, b: Labels, boundA: string, boundB: string)
    requires Ascending(a) && Ascending(b) && !HasLe(a) && !HasLe(b)
    requires WithBucketBound(a, boundA) == WithBucketBound(b, boundB)
    ensures a == b && boundA == boundB
  {
    BoundAscends(a, boundA);
    BoundAscends(b, boundB);
    var x, y := Label(LE, boundA), Label(LE, boundB);
    assert x !in multiset(b) && y !in multiset(a);
    assert x in multiset(b) + multiset{y};
    assert x == y;
    Cancel(multiset(a), multiset(b), x);
    AscendingDistinct(a);
    LabelOrder();
    assert Distinct(Whole, a);
    SortForgets(LabelLe, Whole, a, b);
    SortAscending(a);
    SortAscending(b);
  }
}
