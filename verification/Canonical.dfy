/** Exposition is canonical: it forgets the order of families and of series. */
module Canonical {
  import opened Bytes
  import opened Ordering
  import opened MetricsSchema
  import opened Exposition
  import opened Exporter
  import OwnDrops

  /** The same family with its series in another order. */
  ghost predicate SameFamily(f: MetricFamily, g: MetricFamily) {
    && KindOf(f) == KindOf(g) && f.name == g.name && f.help == g.help
    && (if f.Histogram? then multiset(f.histograms) == multiset(g.histograms) else multiset(f.series) == multiset(g.series))
  }

  /** Families in another order, each with its series in another order. */
  ghost predicate Rearranged(a: MetricsSnapshot, b: MetricsSnapshot, via: seq<MetricFamily>) {
    && a.schema == b.schema
    && multiset(a.metrics) == multiset(via)
    && |via| == |b.metrics| && forall i :: 0 <= i < |via| ==> SameFamily(via[i], b.metrics[i])
  }

  lemma SameFamilySymmetric(f: MetricFamily, g: MetricFamily)
    requires SameFamily(f, g)
    ensures SameFamily(g, f)
  {
  }

  lemma SameLabelsets(f: MetricFamily, g: MetricFamily)
    requires SameFamily(f, g)
    ensures multiset(Labelsets(f)) == multiset(Labelsets(g))
  {
    if f.Histogram? {
      MapPermutation(HistogramLabelsOf, f.histograms, g.histograms);
    } else {
      MapPermutation(ValueLabels, f.series, g.series);
    }
  }

  lemma SameFamilyGood(f: MetricFamily, g: MetricFamily)
    requires SameFamily(f, g) && GoodFamily(f)
    ensures GoodFamily(g)
  {
    SameLabelsets(f, g);
    SameLength(Labelsets(g), Labelsets(f));
    NoDupPermutation(Labelsets(f), Labelsets(g));
    if g.Histogram? {
      SameLength(g.histograms, f.histograms);
    }
  }

  lemma NoDupPermutation<T>(s: seq<T>, t: seq<T>)
    requires NoDup(s) && multiset(s) == multiset(t)
    ensures NoDup(t)
  {
    assert Distinct(Whole, s);
    DistinctPermutation(Whole, s, t);
    forall i, j | 0 <= i < j < |t| ensures t[i] != t[j] {
      assert Whole(t[i]) != Whole(t[j]);
    }
  }

  lemma DistinctSeries(f: MetricFamily)
    requires NoDup(Labelsets(f))
    ensures Distinct(SeriesLabels, ExposeSeries(f))
  {
    ExposeKeepsLabels(f);
    var s := ExposeSeries(f);
    forall i, j | 0 <= i < j < |s| ensures SeriesLabels(s[i]) != SeriesLabels(s[j]) {
      assert Labelsets(f)[i] != Labelsets(f)[j];
    }
  }

  lemma SameFamilyExpose(f: MetricFamily, g: MetricFamily)
    requires SameFamily(f, g) && GoodFamily(f)
    ensures Expose(f) == Expose(g)
  {
    if f.Histogram? {
      MapPermutation(ExposeHistogram, f.histograms, g.histograms);
    } else {
      MapPermutation(ExposeValue, f.series, g.series);
    }
    DistinctSeries(f);
    LabelsOrder();
    SortForgets(LabelsLe, SeriesLabels, ExposeSeries(f), ExposeSeries(g));
  }

  lemma AcceptableRearranged(a: MetricsSnapshot, b: MetricsSnapshot, via: seq<MetricFamily>)
    requires Rearranged(a, b, via) && Acceptable(a)
    ensures Acceptable(b)
    ensures forall f :: f in via ==> GoodFamily(f)
  {
    SameLength(via, a.metrics);
    DistinctPermutation(WireName, a.metrics, via);
    forall i, j | 0 <= i < j < |b.metrics| ensures WireName(b.metrics[i]) != WireName(b.metrics[j]) {
      assert WireName(via[i]) != WireName(via[j]);
    }
    forall f | f in b.metrics ensures GoodFamily(f) {
      var i :| 0 <= i < |via| && b.metrics[i] == f;
      assert via[i] in a.metrics;
      SameFamilyGood(via[i], f);
    }
    forall f, g, suffix | f in b.metrics && g in b.metrics && f.Histogram? && suffix in SUFFIXES
      ensures f.name + suffix != g.name
    {
      var i :| 0 <= i < |via| && b.metrics[i] == f;
      var j :| 0 <= j < |via| && b.metrics[j] == g;
      assert via[i] in a.metrics && via[j] in a.metrics;
    }
  }

  lemma {:induction false} UndoRearrangement(a: MetricsSnapshot, b: MetricsSnapshot, via: seq<MetricFamily>)
    returns (back: seq<MetricFamily>)
    requires Rearranged(a, b, via)
    ensures Rearranged(b, a, back)
  {
    back := PullBack(a.metrics, via, b.metrics);
  }

  /** Carry `t`, which matches `via` place by place, to the order of `s`. */
  lemma {:induction false} PullBack(s: seq<MetricFamily>, via: seq<MetricFamily>, t: seq<MetricFamily>)
    returns (back: seq<MetricFamily>)
    requires multiset(s) == multiset(via)
    requires |via| == |t| && forall i :: 0 <= i < |via| ==> SameFamily(via[i], t[i])
    ensures multiset(back) == multiset(t)
    ensures |back| == |s| && forall i :: 0 <= i < |s| ==> SameFamily(back[i], s[i])
    decreases |s|
  {
    if s == [] {
      SameLength(s, via);
      return [];
    }
    var k := TakeOut(s, via);
    var rest := PullBack(s[1..], via[..k] + via[k + 1..], t[..k] + t[k + 1..]);
    back := [t[k]] + rest;
    Without(t, k);
    SameFamilySymmetric(via[k], t[k]);
    forall i | 0 <= i < |s| ensures SameFamily(back[i], s[i]) {
      if i > 0 {
        assert SameFamily(rest[i - 1], s[1..][i - 1]);
      }
    }
  }

  lemma DerivedPermuted(m: seq<MetricFamily>, n: seq<MetricFamily>, d: Option<Family>)
    requires multiset(m) == multiset(n) && DerivedFrom(m, d)
    ensures DerivedFrom(n, d)
  {
    SameLength(m, n);
    SameLength(n, m);
  }

  lemma DerivedPointwise(m: seq<MetricFamily>, n: seq<MetricFamily>, d: Option<Family>, e: Option<Family>)
    requires DerivedFrom(m, d) && DerivedFrom(n, e)
    requires |m| == |n| && forall i :: 0 <= i < |m| ==> m[i].name == n[i].name && Expose(m[i]) == Expose(n[i])
    ensures d == e
  {
    if i :| 0 <= i < |m| && m[i].name == OwnDrops.EVENTS_DROPPED_TOTAL {
      assert m[i] in m && n[i] in n;
    } else {
      forall f | f in n ensures f.name != OwnDrops.EVENTS_DROPPED_TOTAL {
        var i :| 0 <= i < |n| && n[i] == f;
      }
    }
  }

  lemma RearrangedExposes(a: MetricsSnapshot, b: MetricsSnapshot, via: seq<MetricFamily>, i: int)
    requires Rearranged(a, b, via) && Acceptable(a) && 0 <= i < |via|
    ensures via[i].name == b.metrics[i].name && Expose(via[i]) == Expose(b.metrics[i])
  {
    SameLength(via, a.metrics);
    assert via[i] in a.metrics;
    SameFamilyExpose(via[i], b.metrics[i]);
  }

  lemma ExposedRearranged(a: MetricsSnapshot, b: MetricsSnapshot, via: seq<MetricFamily>, x: seq<Family>, y: seq<Family>)
    requires Rearranged(a, b, via) && Acceptable(a) && Exposed(a, x) && Exposed(b, y)
    ensures x == y
  {
    var d :| DerivedFrom(a.metrics, d) && x == SortFamilies(Map(Expose, a.metrics) + AsSeq(d));
    var e :| DerivedFrom(b.metrics, e) && y == SortFamilies(Map(Expose, b.metrics) + AsSeq(e));
    forall i | 0 <= i < |via|
      ensures via[i].name == b.metrics[i].name && Expose(via[i]) == Expose(b.metrics[i])
    {
      RearrangedExposes(a, b, via, i);
    }
    assert Map(Expose, via) == Map(Expose, b.metrics);
    DerivedPermuted(a.metrics, via, d);
    DerivedPointwise(via, b.metrics, d, e);
    SortedListsAgree(a.metrics, via, d);
  }

  /** The derived family comes last into a stable sort, so it does not disturb the others. */
  lemma SortedListsAgree(m: seq<MetricFamily>, n: seq<MetricFamily>, d: Option<Family>)
    requires Distinct(WireName, m) && multiset(m) == multiset(n)
    ensures SortFamilies(Map(Expose, m) + AsSeq(d)) == SortFamilies(Map(Expose, n) + AsSeq(d))
  {
    var s, t := Map(Expose, m), Map(Expose, n);
    forall i, j | 0 <= i < j < |s| ensures FamilyName(s[i]) != FamilyName(s[j]) {
      assert WireName(m[i]) != WireName(m[j]);
    }
    MapPermutation(Expose, m, n);
    StrOrder();
    SortForgets(StrLe, FamilyName, s, t);
    if d.Some? {
      assert (s + AsSeq(d))[..|s|] == s && (t + AsSeq(d))[..|t|] == t;
    } else {
      assert s + AsSeq(d) == s && t + AsSeq(d) == t;
    }
  }

  /** Acceptance and result are the same for every rearrangement. */
  lemma CanonicalExposition(a: MetricsSnapshot, b: MetricsSnapshot, via: seq<MetricFamily>, x: seq<Family>, y: seq<Family>)
    requires Rearranged(a, b, via)
    ensures Acceptable(a) <==> Acceptable(b)
    ensures Acceptable(a) && Exposed(a, x) && Exposed(b, y) ==> x == y
  {
    if Acceptable(a) {
      AcceptableRearranged(a, b, via);
      if Exposed(a, x) && Exposed(b, y) {
        ExposedRearranged(a, b, via, x, y);
      }
    }
    if Acceptable(b) {
      var back := UndoRearrangement(a, b, via);
      AcceptableRearranged(b, a, back);
    }
  }
}
