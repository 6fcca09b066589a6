/** What a scraper's readings say about the snapshot, in terms of the snapshot's own series. */
module Readings {
  import opened Bytes
  import opened Ordering
  import opened MetricsSchema
  import opened Exposition
  import opened HistogramLabels
  import opened Exporter
  import opened Samples
  import opened TextFormat
  import OwnDrops

  // ---- which reading stands for what

  ghost predicate IsValue(f: MetricFamily, s: ValueSeries, r: Reading) {
    r == Reading(f.name, s.labels, Decimal(s.value))
  }

  ghost predicate IsBucket(show: real -> string, name: string, mapped: Labels, b: (Float, u64), r: Reading) {
    b.0.Finite? && r.name == name + "_bucket" && Bounded(mapped, show(b.0.value), r.labels) && r.value == Decimal(b.1)
  }

  ghost predicate IsInfinite(name: string, mapped: Labels, count: u64, r: Reading) {
    r.name == name + "_bucket" && Bounded(mapped, "+Inf", r.labels) && r.value == Decimal(count)
  }

  ghost predicate IsSum(show: real -> string, name: string, mapped: Labels, sum: Float, r: Reading) {
    sum.Finite? && r == Reading(name + "_sum", mapped, show(sum.value))
  }

  ghost predicate IsCount(name: string, mapped: Labels, count: u64, r: Reading) {
    r == Reading(name + "_count", mapped, Decimal(count))
  }

  /** One reading per bucket, with its own bound and count, one for `+Inf`, the sum and the count. */
  ghost predicate HistogramReads(show: real -> string, name: string, s: HistogramSeries, mapped: Labels, rs: seq<Reading>) {
    && (forall b :: b in s.buckets ==> exists r :: r in rs && IsBucket(show, name, mapped, b, r))
    && (exists r :: r in rs && IsInfinite(name, mapped, s.count, r))
    && (exists r :: r in rs && IsSum(show, name, mapped, s.sum, r))
    && (exists r :: r in rs && IsCount(name, mapped, s.count, r))
  }

  ghost predicate FromHistogram(show: real -> string, name: string, s: HistogramSeries, mapped: Labels, r: Reading) {
    || (exists b :: b in s.buckets && IsBucket(show, name, mapped, b, r))
    || IsInfinite(name, mapped, s.count, r)
    || IsSum(show, name, mapped, s.sum, r)
    || IsCount(name, mapped, s.count, r)
  }

  // ---- own drops, of the series as the snapshot lists them

  ghost predicate OnePerPlace(series: seq<ValueSeries>) {
    forall s, t :: s in series && t in series && s.labels != t.labels ==> !OwnDrops.SamePlace(s.labels, t.labels)
  }

  ghost function ChildWeight(labels: Labels): ValueSeries -> nat {
    (t: ValueSeries) => if OwnDrops.ChildOf(labels, t.labels) then t.value else 0
  }

  /** The reading of a node's own drops: its total less those of its direct children. */
  ghost predicate IsOwn(f: MetricFamily, s: ValueSeries, r: Reading)
    requires f.Counter?
  {
    && r.name == "limpid_events_dropped_own_total" && r.labels == s.labels
    && (OnePerPlace(f.series) ==> r.value == Decimal(OwnDrops.Less(s.value, Total(ChildWeight(s.labels), f.series))))
  }

  ghost predicate IsHierarchy(f: MetricFamily) {
    f.Counter? && f.name == "limpid_events_dropped_total"
  }

  // ---- everything is read, and nothing else

  ghost predicate ValuesRead(metrics: seq<MetricFamily>, rs: seq<Reading>) {
    forall f, s :: f in metrics && !f.Histogram? && s in f.series ==> exists r :: r in rs && IsValue(f, s, r)
  }

  ghost predicate HistogramsRead(show: real -> string, metrics: seq<MetricFamily>, rs: seq<Reading>) {
    forall f, s :: f in metrics && f.Histogram? && s in f.histograms ==>
      exists mapped :: Relabelled(s.labels, mapped) && HistogramReads(show, f.name, s, mapped, rs)
  }

  ghost predicate OwnRead(metrics: seq<MetricFamily>, rs: seq<Reading>) {
    forall f, s :: f in metrics && IsHierarchy(f) && s in f.series ==> exists r :: r in rs && IsOwn(f, s, r)
  }

  ghost predicate Accounted(show: real -> string, metrics: seq<MetricFamily>, r: Reading) {
    || (exists f, s :: f in metrics && !f.Histogram? && s in f.series && IsValue(f, s, r))
    || (exists f, s, mapped :: f in metrics && f.Histogram? && s in f.histograms && Relabelled(s.labels, mapped)
                               && FromHistogram(show, f.name, s, mapped, r))
    || (exists f, s :: f in metrics && IsHierarchy(f) && s in f.series && IsOwn(f, s, r))
  }

  /** Each number of the snapshot is read under its own name and labels, and every reading is
      accounted for. */
  ghost predicate Complete(show: real -> string, metrics: seq<MetricFamily>, rs: seq<Reading>) {
    && ValuesRead(metrics, rs) && HistogramsRead(show, metrics, rs) && OwnRead(metrics, rs)
    && forall r :: r in rs ==> Accounted(show, metrics, r)
  }

  ghost function AllReadings(show: real -> string, families: seq<Family>): seq<Reading> {
    Map(ReadingOf(show), AllSamples(show, families))
  }

  // ---- where readings come from

  /** An exposed family is declared by the snapshot, or derived from one that is. */
  lemma FamilyOrigin(root: MetricsSnapshot, families: seq<Family>, f: Family) returns (source: MetricFamily)
    requires Exposed(root, families) && f in families
    ensures source in root.metrics
    ensures f == Expose(source) || (source.name == OwnDrops.EVENTS_DROPPED_TOTAL && OwnDrops.OwnFamily(Expose(source)) == Some(f))
  {
    var derived :| DerivedFrom(root.metrics, derived)
                   && families == SortFamilies(Map(Expose, root.metrics) + AsSeq(derived));
    SortedFrom(Map(Expose, root.metrics) + AsSeq(derived), f);
    source := UnsortedOrigin(root.metrics, derived, f);
  }

  lemma SortedFrom(families: seq<Family>, f: Family)
    requires f in SortFamilies(families)
    ensures f in families
  {
    SortKeeps(StrLe, FamilyName, families);
    SameLength(SortFamilies(families), families);
  }

  lemma UnsortedOrigin(metrics: seq<MetricFamily>, derived: Option<Family>, f: Family) returns (source: MetricFamily)
    requires DerivedFrom(metrics, derived) && f in Map(Expose, metrics) + AsSeq(derived)
    ensures source in metrics
    ensures f == Expose(source) || (source.name == OwnDrops.EVENTS_DROPPED_TOTAL && OwnDrops.OwnFamily(Expose(source)) == Some(f))
  {
    if f in Map(Expose, metrics) {
      var i :| 0 <= i < |metrics| && Map(Expose, metrics)[i] == f;
      source := metrics[i];
    } else {
      source := FindSource(metrics, derived);
    }
  }

  lemma FamilyIsExposed(root: MetricsSnapshot, families: seq<Family>, f: MetricFamily)
    requires Exposed(root, families) && f in root.metrics
    ensures Expose(f) in families
    ensures f.name == OwnDrops.EVENTS_DROPPED_TOTAL && OwnDrops.OwnFamily(Expose(f)).Some? ==>
              OwnDrops.OwnFamily(Expose(f)).value in families
  {
    var derived :| DerivedFrom(root.metrics, derived)
                   && families == SortFamilies(Map(Expose, root.metrics) + AsSeq(derived));
    var unsorted := Map(Expose, root.metrics) + AsSeq(derived);
    SortedHas(unsorted, Expose(f));
    if derived.Some? {
      SortedHas(unsorted, derived.value);
    }
  }

  lemma SortedHas(families: seq<Family>, f: Family)
    ensures f in families ==> f in SortFamilies(families)
  {
    SortKeeps(StrLe, FamilyName, families);
    SameLength(families, SortFamilies(families));
  }

  lemma SampleIsRead(show: real -> string, families: seq<Family>, f: Family, i: int, x: Sample)
    requires f in families && 0 <= i < |f.series| && x in SeriesSamples(show, f.name, f.series[i])
    ensures ReadingOf(show)(x) in AllReadings(show, families)
  {
    FlattenHas(SeriesParts(show, f), i, x);
    var k :| 0 <= k < |families| && families[k] == f;
    FlattenHas(Map(FamilySamples(show), families), k, x);
    var all := AllSamples(show, families);
    var j :| 0 <= j < |all| && all[j] == x;
    assert AllReadings(show, families)[j] == ReadingOf(show)(x);
  }

  lemma ReadingIsSampled(show: real -> string, families: seq<Family>, r: Reading) returns (f: Family, i: int, x: Sample)
    requires r in AllReadings(show, families)
    ensures f in families && 0 <= i < |f.series| && x in SeriesSamples(show, f.name, f.series[i]) && r == ReadingOf(show)(x)
  {
    var all := AllSamples(show, families);
    var j :| 0 <= j < |all| && AllReadings(show, families)[j] == r;
    x := all[j];
    var k := InFlatten(Map(FamilySamples(show), families), x);
    f := families[k];
    i := InFlatten(SeriesParts(show, f), x);
  }

  /** Every series of the snapshot has its place in the exposed family. */
  lemma SeriesTarget(f: MetricFamily, k: int) returns (i: int)
    requires 0 <= k < |ExposeSeries(f)|
    ensures 0 <= i < |Expose(f).series| && Expose(f).series[i] == ExposeSeries(f)[k]
  {
    var s, t := ExposeSeries(f), Expose(f).series;
    SortKeeps(LabelsLe, SeriesLabels, s);
    SameLength(s, t);
    assert s[k] in t;
    i :| 0 <= i < |t| && t[i] == s[k];
  }

  // ---- plain values

  lemma ValueIsRead(show: real -> string, root: MetricsSnapshot, families: seq<Family>, f: MetricFamily, s: ValueSeries)
    requires Exposed(root, families) && f in root.metrics && !f.Histogram? && s in f.series
    ensures Reading(f.name, s.labels, Decimal(s.value)) in AllReadings(show, families)
  {
    FamilyIsExposed(root, families, f);
    var k :| 0 <= k < |f.series| && f.series[k] == s;
    var i := SeriesTarget(f, k);
    SampleIsRead(show, families, Expose(f), i, Sample(f.name, s.labels, Count(s.value)));
  }

  // ---- histograms

  lemma HistogramIsRead(show: real -> string, root: MetricsSnapshot, families: seq<Family>, f: MetricFamily, s: HistogramSeries)
    requires Exposed(root, families) && f in root.metrics && f.Histogram? && s in f.histograms && GoodHistogram(s)
    ensures HistogramReads(show, f.name, s, MapHistogramLabels(s.labels), AllReadings(show, families))
  {
    FamilyIsExposed(root, families, f);
    var k :| 0 <= k < |f.histograms| && f.histograms[k] == s;
    var i := SeriesTarget(f, k);
    var mapped := MapHistogramLabels(s.labels);
    MappedFreesLe(s.labels);
    forall b | b in s.buckets
      ensures exists r :: r in AllReadings(show, families) && IsBucket(show, f.name, mapped, b, r)
    {
      BucketIsRead(show, families, f, s, i, b);
    }
    TotalsAreRead(show, families, f, s, i);
  }

  lemma BucketIsRead(show: real -> string, families: seq<Family>, f: MetricFamily, s: HistogramSeries, i: int, b: (Float, u64))
    requires Expose(f) in families && 0 <= i < |Expose(f).series| && Expose(f).series[i] == ExposeHistogram(s)
    requires b in s.buckets && GoodHistogram(s)
    ensures exists r :: r in AllReadings(show, families) && IsBucket(show, f.name, MapHistogramLabels(s.labels), b, r)
  {
    var mapped := MapHistogramLabels(s.labels);
    var j :| 0 <= j < |s.buckets| && s.buckets[j] == b;
    var x := BucketSample(show, f.name, mapped, Bucket(b));
    assert BucketSamples(show, f.name, mapped, Map(Bucket, s.buckets))[j] == x;
    SampleIsRead(show, families, Expose(f), i, x);
    MappedFreesLe(s.labels);
    BoundIsAdded(mapped, show(b.0.value));
    assert IsBucket(show, f.name, mapped, b, ReadingOf(show)(x));
  }

  lemma TotalsAreRead(show: real -> string, families: seq<Family>, f: MetricFamily, s: HistogramSeries, i: int)
    requires Expose(f) in families && 0 <= i < |Expose(f).series| && Expose(f).series[i] == ExposeHistogram(s)
    requires GoodHistogram(s)
    ensures var rs, mapped := AllReadings(show, families), MapHistogramLabels(s.labels);
            && (exists r :: r in rs && IsInfinite(f.name, mapped, s.count, r))
            && (exists r :: r in rs && IsSum(show, f.name, mapped, s.sum, r))
            && (exists r :: r in rs && IsCount(f.name, mapped, s.count, r))
  {
    var mapped := MapHistogramLabels(s.labels);
    var totals := TotalSamples(f.name, mapped, s.sum.value, s.count);
    assert totals[0] in totals && totals[1] in totals && totals[2] in totals;
    SampleIsRead(show, families, Expose(f), i, totals[0]);
    SampleIsRead(show, families, Expose(f), i, totals[1]);
    SampleIsRead(show, families, Expose(f), i, totals[2]);
    MappedFreesLe(s.labels);
    BoundIsAdded(mapped, "+Inf");
    assert IsInfinite(f.name, mapped, s.count, ReadingOf(show)(totals[0]));
    assert IsSum(show, f.name, mapped, s.sum, ReadingOf(show)(totals[1]));
    assert IsCount(f.name, mapped, s.count, ReadingOf(show)(totals[2]));
  }

  lemma HistogramSampled(show: real -> string, name: string, s: HistogramSeries, x: Sample)
    requires GoodHistogram(s) && x in SeriesSamples(show, name, ExposeHistogram(s))
    ensures FromHistogram(show, name, s, MapHistogramLabels(s.labels), ReadingOf(show)(x))
  {
    var mapped := MapHistogramLabels(s.labels);
    var parts := BucketSamples(show, name, mapped, Map(Bucket, s.buckets));
    MappedFreesLe(s.labels);
    if x in parts {
      var j :| 0 <= j < |parts| && parts[j] == x;
      BoundIsAdded(mapped, show(s.buckets[j].0.value));
      assert s.buckets[j] in s.buckets && IsBucket(show, name, mapped, s.buckets[j], ReadingOf(show)(x));
    } else {
      BoundIsAdded(mapped, "+Inf");
      assert x in TotalSamples(name, mapped, s.sum.value, s.count);
    }
  }

  // ---- own drops

  lemma PlacesStay(f: MetricFamily)
    requires f.Counter? && GoodFamily(f) && OnePerPlace(f.series)
    ensures OwnDrops.OnePerPlace(Expose(f).series)
  {
    var t := Expose(f).series;
    ExposedIsSound(f);
    forall i, j | 0 <= i < j < |t| ensures !OwnDrops.SamePlace(t[i].labels, t[j].labels) {
      var k := SeriesOrigin(f, i);
      var l := SeriesOrigin(f, j);
      assert f.series[k] in f.series && f.series[l] in f.series;
    }
  }

  lemma ChildrenStay(f: MetricFamily, labels: Labels)
    requires f.Counter?
    ensures OwnDrops.ChildrenSum(Expose(f).series, labels) == Total(ChildWeight(labels), f.series)
  {
    var s := ExposeSeries(f);
    SortKeeps(LabelsLe, SeriesLabels, s);
    TotalPermutation(OwnDrops.ChildWeight(labels), Expose(f).series, s);
    TotalMap(ExposeValue, ChildWeight(labels), OwnDrops.ChildWeight(labels), f.series);
  }

  lemma OwnSample(f: MetricFamily, i: int, k: int)
    requires IsHierarchy(f) && GoodFamily(f) && OwnDrops.OwnFamily(Expose(f)).Some?
    requires 0 <= i < |Expose(f).series| && 0 <= k < |f.series| && Expose(f).series[i] == ExposeValue(f.series[k])
    ensures i < |OwnDrops.OwnFamily(Expose(f)).value.series|
    ensures var x := OwnDrops.OwnFamily(Expose(f)).value.series[i];
            x.Value? && IsOwn(f, f.series[k], Reading("limpid_events_dropped_own_total", x.labels, Decimal(x.value)))
  {
    var s := f.series[k];
    if OnePerPlace(f.series) {
      PlacesStay(f);
      OwnDrops.OwnIsTotalLessChildren(Expose(f).series, i);
      ChildrenStay(f, s.labels);
    }
  }

  lemma OwnIsRead(show: real -> string, root: MetricsSnapshot, families: seq<Family>, f: MetricFamily, s: ValueSeries)
    requires Exposed(root, families) && f in root.metrics && IsHierarchy(f) && GoodFamily(f) && s in f.series
    ensures exists r :: r in AllReadings(show, families) && IsOwn(f, s, r)
  {
    CounterDerives(f);
    FamilyIsExposed(root, families, f);
    var k :| 0 <= k < |f.series| && f.series[k] == s;
    var i := SeriesTarget(f, k);
    OwnSample(f, i, k);
    var own := OwnDrops.OwnFamily(Expose(f)).value;
    var x := Sample(own.name, own.series[i].labels, Count(own.series[i].value));
    SampleIsRead(show, families, own, i, x);
    assert IsOwn(f, s, ReadingOf(show)(x));
  }

  // ---- all together

  lemma DeclaredSampled(show: real -> string, root: MetricsSnapshot, f: MetricFamily, i: int, x: Sample)
    requires Acceptable(root) && f in root.metrics && 0 <= i < |Expose(f).series|
    requires x in SeriesSamples(show, f.name, Expose(f).series[i])
    ensures Accounted(show, root.metrics, ReadingOf(show)(x))
  {
    var k := SeriesOrigin(f, i);
    if f.Histogram? {
      var s := f.histograms[k];
      assert s in f.histograms && GoodHistogram(s);
      HistogramSampled(show, f.name, s, x);
      MappedIsRelabelled(s.labels);
    } else {
      assert f.series[k] in f.series && IsValue(f, f.series[k], ReadingOf(show)(x));
    }
  }

  lemma DerivedSampled(show: real -> string, root: MetricsSnapshot, f: MetricFamily, derived: Family, i: int, x: Sample)
    requires Acceptable(root) && f in root.metrics && f.name == OwnDrops.EVENTS_DROPPED_TOTAL
    requires OwnDrops.OwnFamily(Expose(f)) == Some(derived) && 0 <= i < |derived.series|
    requires x in SeriesSamples(show, derived.name, derived.series[i])
    ensures Accounted(show, root.metrics, ReadingOf(show)(x))
  {
    DerivedIsSound(f, derived);
    var k := SeriesOrigin(f, i);
    OwnSample(f, i, k);
    assert f.series[k] in f.series && IsOwn(f, f.series[k], ReadingOf(show)(x));
  }

  /** The readings of an accepted snapshot are complete. */
  lemma ReadingsComplete(show: real -> string, root: MetricsSnapshot, families: seq<Family>)
    requires Acceptable(root) && Exposed(root, families)
    ensures Complete(show, root.metrics, AllReadings(show, families))
  {
    var rs := AllReadings(show, families);
    forall f, s | f in root.metrics && !f.Histogram? && s in f.series ensures exists r :: r in rs && IsValue(f, s, r) {
      ValueIsRead(show, root, families, f, s);
      assert IsValue(f, s, Reading(f.name, s.labels, Decimal(s.value)));
    }
    forall f, s | f in root.metrics && f.Histogram? && s in f.histograms
      ensures exists mapped :: Relabelled(s.labels, mapped) && HistogramReads(show, f.name, s, mapped, rs)
    {
      HistogramIsRead(show, root, families, f, s);
      MappedIsRelabelled(s.labels);
    }
    forall f, s | f in root.metrics && IsHierarchy(f) && s in f.series ensures exists r :: r in rs && IsOwn(f, s, r) {
      OwnIsRead(show, root, families, f, s);
    }
    forall r | r in rs ensures Accounted(show, root.metrics, r) {
      ReadingAccounted(show, root, families, r);
    }
  }

  lemma ReadingAccounted(show: real -> string, root: MetricsSnapshot, families: seq<Family>, r: Reading)
    requires Acceptable(root) && Exposed(root, families) && r in AllReadings(show, families)
    ensures Accounted(show, root.metrics, r)
  {
    var family, i, x := ReadingIsSampled(show, families, r);
    var f := FamilyOrigin(root, families, family);
    if family == Expose(f) {
      DeclaredSampled(show, root, f, i, x);
    } else {
      assert f.name == OwnDrops.EVENTS_DROPPED_TOTAL;
      DerivedSampled(show, root, f, family, i, x);
    }
  }
}
