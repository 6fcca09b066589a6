/** The samples an exposition consists of, and when no two of them are the same series. */
module Samples {
  import opened Bytes
  import opened Ordering
  import opened MetricsSchema
  import opened Exposition
  import opened HistogramLabels
  import opened Exporter
  import OwnDrops
  import Canonical

  const INFINITE: string := "+Inf"

  datatype Number = Count(count: u64) | Sum(sum: real)

  datatype Sample = Sample(name: string, labels: Labels, number: Number)

  /** How the library must print the bounds of one series: no two alike, none like the infinite
      bound. */
  ghost predicate TellsApart(show: real -> string, buckets: seq<(real, u64)>) {
    && (forall i, j :: 0 <= i < |buckets| && 0 <= j < |buckets| && show(buckets[i].0) == show(buckets[j].0) ==>
          buckets[i].0 == buckets[j].0)
    && (forall i :: 0 <= i < |buckets| ==> show(buckets[i].0) != INFINITE)
  }

  ghost predicate TellsFamilyApart(show: real -> string, f: Family) {
    forall i :: 0 <= i < |f.series| && f.series[i].Buckets? ==> TellsApart(show, f.series[i].buckets)
  }

  /** The same of every histogram series of a snapshot, each on its own. */
  ghost predicate TellsAllApart(show: real -> string, metrics: seq<MetricFamily>) {
    forall f, s :: f in metrics && f.Histogram? && s in f.histograms ==> TellsApart(show, Map(Bucket, s.buckets))
  }

  function BucketSample(show: real -> string, name: string, labels: Labels, b: (real, u64)): Sample {
    Sample(name + "_bucket", WithBucketBound(labels, show(b.0)), Count(b.1))
  }

  function BucketSamples(show: real -> string, name: string, labels: Labels, buckets: seq<(real, u64)>): (r: seq<Sample>)
    ensures |r| == |buckets|
    ensures forall i :: 0 <= i < |buckets| ==> r[i] == BucketSample(show, name, labels, buckets[i])
  {
    seq(|buckets|, i requires 0 <= i < |buckets| => BucketSample(show, name, labels, buckets[i]))
  }

  function TotalSamples(name: string, labels: Labels, sum: real, count: u64): seq<Sample> {
    [Sample(name + "_bucket", WithBucketBound(labels, INFINITE), Count(count)),
     Sample(name + "_sum", labels, Sum(sum)),
     Sample(name + "_count", labels, Count(count))]
  }

  function SeriesSamples(show: real -> string, name: string, s: Series): seq<Sample> {
    match s
    case Value(labels, value) => [Sample(name, labels, Count(value))]
    case Buckets(labels, buckets, sum, count) =>
      var mapped := MapHistogramLabels(labels);
      BucketSamples(show, name, mapped, buckets) + TotalSamples(name, mapped, sum, count)
  }

  function SeriesParts(show: real -> string, f: Family): (r: seq<seq<Sample>>)
    ensures |r| == |f.series|
    ensures forall i :: 0 <= i < |r| ==> r[i] == SeriesSamples(show, f.name, f.series[i])
  {
    seq(|f.series|, i requires 0 <= i < |f.series| => SeriesSamples(show, f.name, f.series[i]))
  }

  function FamilySamples(show: real -> string): Family -> seq<Sample> {
    f => Flatten(SeriesParts(show, f))
  }

  function AllSamples(show: real -> string, families: seq<Family>): seq<Sample> {
    Flatten(Map(FamilySamples(show), families))
  }

  // ---- identity of a sample

  datatype SampleKey = SampleKey(name: string, labels: set<Label>)

  ghost function KeyOf(s: Sample): SampleKey {
    SampleKey(s.name, Elements(s.labels))
  }

  lemma KeyDetermines(x: Sample, y: Sample)
    requires Ascending(x.labels) && Ascending(y.labels) && KeyOf(x) == KeyOf(y)
    ensures x.name == y.name && x.labels == y.labels
  {
    AscendingUnique(x.labels, y.labels);
  }

  // ---- one series

  /** What a sample of a series can look like. */
  ghost predicate Shape(name: string, s: Series, x: Sample) {
    match s
    case Value(labels, _) => x.name == name && x.labels == labels
    case Buckets(labels, buckets, _, _) =>
      var mapped := MapHistogramLabels(labels);
      || (x.name == name + "_bucket" && exists bound :: x.labels == WithBucketBound(mapped, bound))
      || (x.name == name + "_sum" && x.labels == mapped)
      || (x.name == name + "_count" && x.labels == mapped)
  }

  lemma SampleShape(show: real -> string, name: string, s: Series, x: Sample)
    requires x in SeriesSamples(show, name, s)
    ensures Shape(name, s, x) && Ascending(x.labels)
  {
    if s.Buckets? {
      var mapped := MapHistogramLabels(s.labels);
      MappedFreesLe(s.labels);
      if x in BucketSamples(show, name, mapped, s.buckets) {
        BucketShape(show, name, mapped, s.buckets, x);
      } else {
        TotalShape(name, mapped, s.sum, s.count, x);
      }
    }
  }

  lemma BucketShape(show: real -> string, name: string, labels: Labels, buckets: seq<(real, u64)>, x: Sample)
    requires x in BucketSamples(show, name, labels, buckets) && Ascending(labels) && !HasLe(labels)
    ensures x.name == name + "_bucket" && Ascending(x.labels) && exists bound :: x.labels == WithBucketBound(labels, bound)
  {
    var i :| 0 <= i < |buckets| && BucketSamples(show, name, labels, buckets)[i] == x;
    BoundAscends(labels, show(buckets[i].0));
  }

  lemma TotalShape(name: string, labels: Labels, sum: real, count: u64, x: Sample)
    requires x in TotalSamples(name, labels, sum, count) && Ascending(labels) && !HasLe(labels)
    ensures Ascending(x.labels)
    ensures || (x.name == name + "_bucket" && exists bound :: x.labels == WithBucketBound(labels, bound))
            || (x.name == name + "_sum" && x.labels == labels)
            || (x.name == name + "_count" && x.labels == labels)
  {
    BoundAscends(labels, INFINITE);
  }

  lemma SuffixesDiffer(a: string, b: string)
    ensures a + "_bucket" != b + "_sum" && a + "_bucket" != b + "_count" && a + "_sum" != b + "_count"
    ensures a + "_bucket" == b + "_bucket" ==> a == b
    ensures a + "_sum" == b + "_sum" ==> a == b
    ensures a + "_count" == b + "_count" ==> a == b
  {
    var ab, as', ac := a + "_bucket", a + "_sum", a + "_count";
    var bb, bs, bc := b + "_bucket", b + "_sum", b + "_count";
    assert ab[|ab| - 2] == 'e' && bc[|bc| - 2] == 'n';
    assert ab[|ab| - 1] == 't' && bs[|bs| - 1] == 'm' && as'[|as'| - 1] == 'm' && bc[|bc| - 1] == 't';
    assert ab[..|a|] == a && as'[..|a|] == a && ac[..|a|] == a;
    assert bb[..|b|] == b && bs[..|b|] == b && bc[..|b|] == b;
  }

  ghost predicate Increasing(buckets: seq<(real, u64)>) {
    forall i, j :: 0 <= i < j < |buckets| ==> buckets[i].0 < buckets[j].0
  }

  lemma BoundsDiffer(labels: Labels, x: Sample, y: Sample, a: string, b: string)
    requires Ascending(labels) && !HasLe(labels) && a != b
    requires x.labels == WithBucketBound(labels, a) && y.labels == WithBucketBound(labels, b)
    ensures KeyOf(x) != KeyOf(y)
  {
    BoundAscends(labels, a);
    BoundAscends(labels, b);
    if KeyOf(x) == KeyOf(y) {
      KeyDetermines(x, y);
      BoundInjective(labels, labels, a, b);
    }
  }

  lemma BucketsDistinct(show: real -> string, name: string, labels: Labels, buckets: seq<(real, u64)>)
    requires TellsApart(show, buckets) && Increasing(buckets) && Ascending(labels) && !HasLe(labels)
    ensures Distinct(KeyOf, BucketSamples(show, name, labels, buckets))
  {
    var parts := BucketSamples(show, name, labels, buckets);
    forall i, j | 0 <= i < j < |parts| ensures KeyOf(parts[i]) != KeyOf(parts[j]) {
      assert show(buckets[i].0) != show(buckets[j].0);
      BoundsDiffer(labels, parts[i], parts[j], show(buckets[i].0), show(buckets[j].0));
    }
  }

  lemma TotalsApart(show: real -> string, name: string, labels: Labels, buckets: seq<(real, u64)>, sum: real, count: u64)
    requires TellsApart(show, buckets) && Ascending(labels) && !HasLe(labels)
    ensures Apart(KeyOf, BucketSamples(show, name, labels, buckets), TotalSamples(name, labels, sum, count))
    ensures Distinct(KeyOf, TotalSamples(name, labels, sum, count))
  {
    SuffixesDiffer(name, name);
    var parts, totals := BucketSamples(show, name, labels, buckets), TotalSamples(name, labels, sum, count);
    forall x, y | x in parts && y in totals ensures KeyOf(x) != KeyOf(y) {
      var i :| 0 <= i < |parts| && parts[i] == x;
      assert x == BucketSample(show, name, labels, buckets[i]);
      if y == totals[0] {
        BoundsDiffer(labels, x, y, show(buckets[i].0), INFINITE);
      }
    }
  }

  lemma DistinctAppend<T, K>(key: T -> K, s: seq<T>, t: seq<T>)
    requires Distinct(key, s) && Distinct(key, t) && Apart(key, s, t)
    ensures Distinct(key, s + t)
  {
  }

  lemma SeriesDistinct(show: real -> string, name: string, s: Series)
    requires s.Buckets? ==> TellsApart(show, s.buckets) && Increasing(s.buckets)
    ensures Distinct(KeyOf, SeriesSamples(show, name, s))
  {
    if s.Buckets? {
      var mapped := MapHistogramLabels(s.labels);
      MappedFreesLe(s.labels);
      BucketsDistinct(show, name, mapped, s.buckets);
      TotalsApart(show, name, mapped, s.buckets, s.sum, s.count);
      DistinctAppend(KeyOf, BucketSamples(show, name, mapped, s.buckets), TotalSamples(name, mapped, s.sum, s.count));
    }
  }

  // ---- one family

  ghost predicate Matches(kind: Kind, s: Series) {
    if kind == HistogramKind then s.Buckets? && Increasing(s.buckets) else s.Value?
  }

  /** What parsing guarantees of an exposed family. */
  ghost predicate Sound(f: Family) {
    && (forall i :: 0 <= i < |f.series| ==> Matches(f.kind, f.series[i]))
    && (forall i, j :: 0 <= i < j < |f.series| ==> f.series[i].labels != f.series[j].labels)
    && (forall i, j :: 0 <= i < |f.series| && 0 <= j < |f.series| ==> Names(f.series[i].labels) == Names(f.series[j].labels))
  }

  lemma SeriesApart(show: real -> string, name: string, s: Series, t: Series)
    requires s.labels != t.labels && Names(s.labels) == Names(t.labels) && s.Buckets? == t.Buckets?
    ensures Apart(KeyOf, SeriesSamples(show, name, s), SeriesSamples(show, name, t))
  {
    forall x, y | x in SeriesSamples(show, name, s) && y in SeriesSamples(show, name, t) ensures KeyOf(x) != KeyOf(y) {
      SampleShape(show, name, s, x);
      SampleShape(show, name, t, y);
      if KeyOf(x) == KeyOf(y) {
        KeyDetermines(x, y);
        if s.Buckets? {
          SuffixesDiffer(name, name);
          MappedFreesLe(s.labels);
          MappedFreesLe(t.labels);
          var a, b := MapHistogramLabels(s.labels), MapHistogramLabels(t.labels);
          if x.name == name + "_bucket" {
            var boundA :| x.labels == WithBucketBound(a, boundA);
            var boundB :| y.labels == WithBucketBound(b, boundB);
            BoundInjective(a, b, boundA, boundB);
          }
          MappedInjective(s.labels, t.labels);
        }
        assert false;
      }
    }
  }

  lemma FamilyDistinct(show: real -> string, f: Family)
    requires TellsFamilyApart(show, f) && Sound(f)
    ensures Distinct(KeyOf, FamilySamples(show)(f))
  {
    var parts := SeriesParts(show, f);
    forall i | 0 <= i < |parts| ensures Distinct(KeyOf, parts[i]) {
      assert Matches(f.kind, f.series[i]);
      SeriesDistinct(show, f.name, f.series[i]);
    }
    forall i, j | 0 <= i < j < |parts| ensures Apart(KeyOf, parts[i], parts[j]) {
      assert Matches(f.kind, f.series[i]) && Matches(f.kind, f.series[j]);
      SeriesApart(show, f.name, f.series[i], f.series[j]);
    }
    FlattenDistinct(KeyOf, parts);
  }

  // ---- several families

  ghost predicate HasSampleName(f: Family, name: string) {
    if f.kind == HistogramKind then exists suffix :: suffix in SUFFIXES && name == f.name + suffix
    else name == f.name
  }

  lemma SampleOfFamily(show: real -> string, f: Family, x: Sample) returns (i: int)
    requires Sound(f) && x in FamilySamples(show)(f)
    ensures 0 <= i < |f.series| && x in SeriesSamples(show, f.name, f.series[i])
    ensures HasSampleName(f, x.name) && Ascending(x.labels)
    ensures f.kind != HistogramKind ==> x.labels == f.series[i].labels
  {
    i := InFlatten(SeriesParts(show, f), x);
    assert Matches(f.kind, f.series[i]);
    SampleShape(show, f.name, f.series[i], x);
    assert SUFFIXES[0] in SUFFIXES && SUFFIXES[1] in SUFFIXES && SUFFIXES[2] in SUFFIXES;
  }

  lemma FamiliesApart(show: real -> string, f: Family, g: Family)
    requires Sound(f) && Sound(g)
    requires forall n :: HasSampleName(f, n) ==> !HasSampleName(g, n)
    ensures Apart(KeyOf, FamilySamples(show)(f), FamilySamples(show)(g))
  {
    forall x, y | x in FamilySamples(show)(f) && y in FamilySamples(show)(g) ensures KeyOf(x) != KeyOf(y) {
      var _ := SampleOfFamily(show, f, x);
      var _ := SampleOfFamily(show, g, y);
    }
  }

  lemma ExposedIsSound(f: MetricFamily)
    requires GoodFamily(f)
    ensures Sound(Expose(f))
    ensures forall labels :: labels in Labelsets(f) <==> exists i :: 0 <= i < |Expose(f).series| && Expose(f).series[i].labels == labels
  {
    var s, t := ExposeSeries(f), Expose(f).series;
    Canonical.DistinctSeries(f);
    SortKeeps(LabelsLe, SeriesLabels, s);
    DistinctPermutation(SeriesLabels, s, t);
    SameLength(s, t);
    SameLength(t, s);
    ExposeKeepsLabels(f);
    forall i | 0 <= i < |t| ensures Matches(KindOf(f), t[i]) && t[i].labels in Labelsets(f) {
      assert t[i] in s;
      var k :| 0 <= k < |s| && s[k] == t[i];
      assert Labelsets(f)[k] == t[i].labels;
      if f.Histogram? {
        assert f.histograms[k] in f.histograms;
        assert GoodHistogram(f.histograms[k]);
      }
    }
    forall i, j | 0 <= i < j < |t| ensures t[i].labels != t[j].labels {
      assert SeriesLabels(t[i]) != SeriesLabels(t[j]);
    }
    forall labels | labels in Labelsets(f) ensures exists i :: 0 <= i < |t| && t[i].labels == labels {
      var k :| 0 <= k < |s| && Labelsets(f)[k] == labels;
      assert s[k] in t;
    }
  }

  /** A series of an exposed family is one that the snapshot has. */
  lemma SeriesOrigin(f: MetricFamily, i: int) returns (k: int)
    requires 0 <= i < |Expose(f).series|
    ensures 0 <= k < |ExposeSeries(f)| && ExposeSeries(f)[k] == Expose(f).series[i]
  {
    var s, t := ExposeSeries(f), Expose(f).series;
    SortKeeps(LabelsLe, SeriesLabels, s);
    SameLength(t, s);
    assert t[i] in s;
    k :| 0 <= k < |s| && s[k] == t[i];
  }

  lemma ExposedTellsApart(show: real -> string, metrics: seq<MetricFamily>, f: MetricFamily)
    requires TellsAllApart(show, metrics) && f in metrics
    ensures TellsFamilyApart(show, Expose(f))
  {
    var t := Expose(f).series;
    forall i | 0 <= i < |t| && t[i].Buckets? ensures TellsApart(show, t[i].buckets) {
      var k := SeriesOrigin(f, i);
      assert f.histograms[k] in f.histograms;
    }
  }

  lemma SuffixCancels(a: string, b: string, s: string, t: string)
    requires s in SUFFIXES && t in SUFFIXES && a + s == b + t
    ensures a == b
  {
    SuffixesDiffer(a, b);
    SuffixesDiffer(b, a);
  }

  ghost predicate NoSuffixClash(f: MetricFamily, g: MetricFamily) {
    f.Histogram? ==> forall suffix :: suffix in SUFFIXES ==> f.name + suffix != g.name
  }

  lemma NamesApart(f: MetricFamily, g: MetricFamily, n: string)
    requires f.name != g.name && NoSuffixClash(f, g) && NoSuffixClash(g, f)
    requires HasSampleName(Expose(f), n)
    ensures !HasSampleName(Expose(g), n)
  {
    if HasSampleName(Expose(g), n) && f.Histogram? && g.Histogram? {
      var s :| s in SUFFIXES && n == f.name + s;
      var t :| t in SUFFIXES && n == g.name + t;
      SuffixCancels(f.name, g.name, s, t);
    }
  }

  lemma DeclaredApart(show: real -> string, metrics: seq<MetricFamily>, i: int, j: int)
    requires GoodFamilies(metrics) && ClashFree(metrics) && 0 <= i < j < |metrics|
    ensures Apart(KeyOf, FamilySamples(show)(Expose(metrics[i])), FamilySamples(show)(Expose(metrics[j])))
  {
    var f, g := metrics[i], metrics[j];
    assert f in metrics && g in metrics && WireName(f) != WireName(g);
    ExposedIsSound(f);
    ExposedIsSound(g);
    assert NoSuffixClash(f, g) && NoSuffixClash(g, f);
    forall n | HasSampleName(Expose(f), n) ensures !HasSampleName(Expose(g), n) {
      NamesApart(f, g, n);
    }
    FamiliesApart(show, Expose(f), Expose(g));
  }

  // ---- the derived family

  /** The one way two samples can coincide: the snapshot itself declares the own-drops family,
      as plain values, with a label set that the hierarchy has too. */
  ghost predicate OwnClash(metrics: seq<MetricFamily>) {
    exists f, g, labels ::
      && f in metrics && f.name == OwnDrops.EVENTS_DROPPED_TOTAL && f.Counter?
      && g in metrics && g.name == OwnDrops.EVENTS_DROPPED_OWN_TOTAL && !g.Histogram?
      && labels in Labelsets(f) && labels in Labelsets(g)
  }

  lemma DerivedIsSound(source: MetricFamily, derived: Family)
    requires GoodFamily(source) && OwnDrops.OwnFamily(Expose(source)) == Some(derived)
    ensures Sound(derived) && derived.kind == CounterKind && source.Counter?
    ensures |derived.series| == |Expose(source).series|
    ensures forall i :: 0 <= i < |derived.series| ==> derived.series[i].labels == Expose(source).series[i].labels
  {
    ExposedIsSound(source);
  }

  lemma OwnNameIsNoSuffix(name: string, suffix: string)
    requires suffix in SUFFIXES
    ensures name + suffix != OwnDrops.EVENTS_DROPPED_OWN_TOTAL
  {
    var n := name + suffix;
    var own := OwnDrops.EVENTS_DROPPED_OWN_TOTAL;
    assert n[|n| - 1] == suffix[|suffix| - 1];
    assert own[|own| - 1] == 'l';
  }

  lemma DerivedApart(show: real -> string, metrics: seq<MetricFamily>, source: MetricFamily, derived: Family, g: MetricFamily)
    requires source in metrics && source.name == OwnDrops.EVENTS_DROPPED_TOTAL && g in metrics
    requires GoodFamily(source) && GoodFamily(g) && OwnDrops.OwnFamily(Expose(source)) == Some(derived)
    requires !OwnClash(metrics)
    ensures Apart(KeyOf, FamilySamples(show)(Expose(g)), FamilySamples(show)(derived))
  {
    ExposedIsSound(g);
    ExposedIsSound(source);
    DerivedIsSound(source, derived);
    if g.Histogram? || g.name != derived.name {
      forall n | HasSampleName(Expose(g), n) ensures !HasSampleName(derived, n) {
        if g.Histogram? {
          var suffix :| suffix in SUFFIXES && n == g.name + suffix;
          OwnNameIsNoSuffix(g.name, suffix);
        }
      }
      FamiliesApart(show, Expose(g), derived);
    } else {
      forall x, y | x in FamilySamples(show)(Expose(g)) && y in FamilySamples(show)(derived) ensures KeyOf(x) != KeyOf(y) {
        var i := SampleOfFamily(show, Expose(g), x);
        var j := SampleOfFamily(show, derived, y);
        assert x.labels in Labelsets(g) && y.labels in Labelsets(source);
        assert x.labels != y.labels;
        if KeyOf(x) == KeyOf(y) {
          KeyDetermines(x, y);
        }
      }
    }
  }

  lemma ValueSample(show: real -> string, f: Family, i: int) returns (x: Sample)
    requires Sound(f) && f.kind != HistogramKind && 0 <= i < |f.series|
    ensures x in FamilySamples(show)(f) && KeyOf(x) == SampleKey(f.name, Elements(f.series[i].labels))
  {
    assert Matches(f.kind, f.series[i]);
    x := Sample(f.name, f.series[i].labels, Count(f.series[i].value));
    assert x in SeriesParts(show, f)[i];
    FlattenHas(SeriesParts(show, f), i, x);
  }

  // ---- the whole exposition

  /** The families before sorting, and their samples, part by part. */
  ghost function Parts(show: real -> string, metrics: seq<MetricFamily>, derived: Option<Family>): seq<seq<Sample>> {
    Map(FamilySamples(show), Map(Expose, metrics) + AsSeq(derived))
  }

  lemma SortingKeepsSamples(show: real -> string, metrics: seq<MetricFamily>, derived: Option<Family>)
    ensures var families := SortFamilies(Map(Expose, metrics) + AsSeq(derived));
            Distinct(KeyOf, AllSamples(show, families)) <==> Distinct(KeyOf, Flatten(Parts(show, metrics, derived)))
  {
    var unsorted := Map(Expose, metrics) + AsSeq(derived);
    var sorted := SortFamilies(unsorted);
    SortKeeps(StrLe, FamilyName, unsorted);
    MapPermutation(FamilySamples(show), sorted, unsorted);
    FlattenPermutation(Map(FamilySamples(show), sorted), Parts(show, metrics, derived));
    if Distinct(KeyOf, AllSamples(show, sorted)) {
      DistinctPermutation(KeyOf, AllSamples(show, sorted), Flatten(Parts(show, metrics, derived)));
    } else if Distinct(KeyOf, Flatten(Parts(show, metrics, derived))) {
      DistinctPermutation(KeyOf, Flatten(Parts(show, metrics, derived)), AllSamples(show, sorted));
    }
  }

  lemma FindSource(metrics: seq<MetricFamily>, derived: Option<Family>) returns (source: MetricFamily)
    requires DerivedFrom(metrics, derived) && derived.Some?
    ensures source in metrics && source.name == OwnDrops.EVENTS_DROPPED_TOTAL
    ensures OwnDrops.OwnFamily(Expose(source)) == derived
  {
    source :| source in metrics && source.name == OwnDrops.EVENTS_DROPPED_TOTAL;
  }

  lemma PartDistinct(show: real -> string, metrics: seq<MetricFamily>, derived: Option<Family>, i: int)
    requires TellsAllApart(show, metrics) && GoodFamilies(metrics) && DerivedFrom(metrics, derived)
    requires 0 <= i < |Parts(show, metrics, derived)|
    ensures Distinct(KeyOf, Parts(show, metrics, derived)[i])
  {
    var families := Map(Expose, metrics) + AsSeq(derived);
    assert Parts(show, metrics, derived)[i] == FamilySamples(show)(families[i]);
    if i < |metrics| {
      assert families[i] == Expose(metrics[i]);
      DeclaredDistinct(show, metrics, metrics[i]);
    } else {
      var source := FindSource(metrics, derived);
      DerivedIsSound(source, derived.value);
      FamilyDistinct(show, derived.value);
    }
  }

  lemma DeclaredDistinct(show: real -> string, metrics: seq<MetricFamily>, f: MetricFamily)
    requires TellsAllApart(show, metrics) && f in metrics && GoodFamily(f)
    ensures Distinct(KeyOf, FamilySamples(show)(Expose(f)))
  {
    ExposedIsSound(f);
    ExposedTellsApart(show, metrics, f);
    FamilyDistinct(show, Expose(f));
  }

  lemma PartsApart(show: real -> string, metrics: seq<MetricFamily>, derived: Option<Family>, i: int, j: int)
    requires GoodFamilies(metrics) && ClashFree(metrics) && DerivedFrom(metrics, derived) && !OwnClash(metrics)
    requires 0 <= i < j < |Parts(show, metrics, derived)|
    ensures Apart(KeyOf, Parts(show, metrics, derived)[i], Parts(show, metrics, derived)[j])
  {
    assert metrics[i] in metrics;
    var families := Map(Expose, metrics) + AsSeq(derived);
    assert families[i] == Expose(metrics[i]);
    if j < |metrics| {
      assert families[j] == Expose(metrics[j]);
      DeclaredApart(show, metrics, i, j);
    } else {
      assert families[j] == derived.value;
      var source := FindSource(metrics, derived);
      DerivedApart(show, metrics, source, derived.value, metrics[i]);
    }
  }

  lemma PartsDistinct(show: real -> string, metrics: seq<MetricFamily>, derived: Option<Family>)
    requires TellsAllApart(show, metrics) && GoodFamilies(metrics) && ClashFree(metrics) && DerivedFrom(metrics, derived)
    requires !OwnClash(metrics)
    ensures Distinct(KeyOf, Flatten(Parts(show, metrics, derived)))
  {
    var parts := Parts(show, metrics, derived);
    forall i | 0 <= i < |parts| ensures Distinct(KeyOf, parts[i]) {
      PartDistinct(show, metrics, derived, i);
    }
    forall i, j | 0 <= i < j < |parts| ensures Apart(KeyOf, parts[i], parts[j]) {
      PartsApart(show, metrics, derived, i, j);
    }
    FlattenDistinct(KeyOf, parts);
  }

  lemma ClashRepeats(show: real -> string, metrics: seq<MetricFamily>, derived: Option<Family>)
    requires GoodFamilies(metrics) && DerivedFrom(metrics, derived) && OwnClash(metrics)
    ensures !Distinct(KeyOf, Flatten(Parts(show, metrics, derived)))
  {
    var f, g, labels :|
      && f in metrics && f.name == OwnDrops.EVENTS_DROPPED_TOTAL && f.Counter?
      && g in metrics && g.name == OwnDrops.EVENTS_DROPPED_OWN_TOTAL && !g.Histogram?
      && labels in Labelsets(f) && labels in Labelsets(g);
    CounterDerives(f);
    var i := SeriesWith(f, labels);
    var j := SeriesWith(g, labels);
    SharedLabelsRepeat(show, metrics, f, g, derived.value, i, j);
  }

  lemma SeriesWith(f: MetricFamily, labels: Labels) returns (i: int)
    requires GoodFamily(f) && labels in Labelsets(f)
    ensures 0 <= i < |Expose(f).series| && Expose(f).series[i].labels == labels
  {
    ExposedIsSound(f);
    i :| 0 <= i < |Expose(f).series| && Expose(f).series[i].labels == labels;
  }

  lemma SharedLabelsRepeat(show: real -> string, metrics: seq<MetricFamily>, f: MetricFamily, g: MetricFamily, derived: Family, i: int, j: int)
    requires GoodFamily(f) && GoodFamily(g) && g in metrics && !g.Histogram?
    requires OwnDrops.OwnFamily(Expose(f)) == Some(derived) && g.name == derived.name
    requires 0 <= i < |Expose(f).series| && 0 <= j < |Expose(g).series|
    requires Expose(f).series[i].labels == Expose(g).series[j].labels
    ensures !Distinct(KeyOf, Flatten(Parts(show, metrics, Some(derived))))
  {
    DerivedIsSound(f, derived);
    ExposedIsSound(g);
    var y := ValueSample(show, derived, i);
    var x := ValueSample(show, Expose(g), j);
    var parts := Parts(show, metrics, Some(derived));
    var k :| 0 <= k < |metrics| && metrics[k] == g;
    FlattenRepeats(KeyOf, parts, k, |metrics|, x, y);
  }

  lemma CounterDerives(f: MetricFamily)
    requires GoodFamily(f) && f.Counter?
    ensures OwnDrops.OwnFamily(Expose(f)).Some? && OwnDrops.OwnFamily(Expose(f)).value.name == OwnDrops.EVENTS_DROPPED_OWN_TOTAL
  {
    ExposedIsSound(f);
    forall i | 0 <= i < |Expose(f).series| ensures Expose(f).series[i].Value? {
      assert Matches(CounterKind, Expose(f).series[i]);
    }
  }

  /** No two samples of an accepted snapshot have the same name and label set, except exactly
      when the snapshot declares the derived family itself with a label set of the hierarchy. */
  lemma SamplesAreUnique(show: real -> string, root: MetricsSnapshot, families: seq<Family>)
    requires TellsAllApart(show, root.metrics) && Acceptable(root) && Exposed(root, families)
    ensures Distinct(KeyOf, AllSamples(show, families)) <==> !OwnClash(root.metrics)
  {
    var derived :| DerivedFrom(root.metrics, derived)
                   && families == SortFamilies(Map(Expose, root.metrics) + AsSeq(derived));
    SortingKeepsSamples(show, root.metrics, derived);
    if OwnClash(root.metrics) {
      ClashRepeats(show, root.metrics, derived);
    } else {
      PartsDistinct(show, root.metrics, derived);
    }
  }

  // ---- one HELP and one TYPE line per name

  /** The snapshot has the hierarchy and declares its derived family as well. */
  ghost predicate OwnDeclared(metrics: seq<MetricFamily>) {
    exists f, g ::
      && f in metrics && f.name == OwnDrops.EVENTS_DROPPED_TOTAL && f.Counter?
      && g in metrics && g.name == OwnDrops.EVENTS_DROPPED_OWN_TOTAL
  }

  lemma NamesRepeat(metrics: seq<MetricFamily>, derived: Option<Family>)
    requires GoodFamilies(metrics) && DerivedFrom(metrics, derived) && OwnDeclared(metrics)
    ensures !Distinct(FamilyName, Map(Expose, metrics) + AsSeq(derived))
  {
    var f, g :|
      && f in metrics && f.name == OwnDrops.EVENTS_DROPPED_TOTAL && f.Counter?
      && g in metrics && g.name == OwnDrops.EVENTS_DROPPED_OWN_TOTAL;
    CounterDerives(f);
    SharedNameRepeats(metrics, g, derived.value);
  }

  lemma SharedNameRepeats(metrics: seq<MetricFamily>, g: MetricFamily, derived: Family)
    requires g in metrics && g.name == derived.name
    ensures !Distinct(FamilyName, Map(Expose, metrics) + AsSeq(Some(derived)))
  {
    var k :| 0 <= k < |metrics| && metrics[k] == g;
    var all := Map(Expose, metrics) + [derived];
    assert FamilyName(all[k]) == FamilyName(all[|metrics|]);
  }

  lemma NamesDiffer(metrics: seq<MetricFamily>, derived: Option<Family>)
    requires GoodFamilies(metrics) && DerivedFrom(metrics, derived) && !OwnDeclared(metrics)
    ensures Distinct(FamilyName, Map(Expose, metrics) + AsSeq(derived))
  {
    var all := Map(Expose, metrics) + AsSeq(derived);
    forall i, j | 0 <= i < j < |all| ensures FamilyName(all[i]) != FamilyName(all[j]) {
      if j < |metrics| {
        assert WireName(metrics[i]) != WireName(metrics[j]);
      } else {
        var source := FindSource(metrics, derived);
        DerivedIsSound(source, derived.value);
        assert metrics[i] in metrics;
      }
    }
  }

  /** No two exposed families share a name, so none gets a second HELP or TYPE line, except
      exactly when the snapshot declares the derived family beside the hierarchy. */
  lemma FamilyNamesDistinct(root: MetricsSnapshot, families: seq<Family>)
    requires Acceptable(root) && Exposed(root, families)
    ensures Distinct(FamilyName, families) <==> !OwnDeclared(root.metrics)
  {
    var derived :| DerivedFrom(root.metrics, derived)
                   && families == SortFamilies(Map(Expose, root.metrics) + AsSeq(derived));
    var unsorted := Map(Expose, root.metrics) + AsSeq(derived);
    SortKeeps(StrLe, FamilyName, unsorted);
    if OwnDeclared(root.metrics) {
      NamesRepeat(root.metrics, derived);
      if Distinct(FamilyName, families) {
        DistinctPermutation(FamilyName, families, unsorted);
      }
    } else {
      NamesDiffer(root.metrics, derived);
      DistinctPermutation(FamilyName, unsorted, families);
    }
  }

  lemma PlainCounterIsGood(name: string)
    requires IsLegacyMetricName(name)
    ensures GoodFamily(PlainCounter(name)) && Labelsets(PlainCounter(name)) == [[]]
  {
    assert Labelsets(PlainCounter(name)) == [[]];
  }

  function PlainCounter(name: string): MetricFamily {
    Counter(name, "h", [ValueSeries([], 1)])
  }

  lemma DroppedNamesAreLegal()
    ensures IsLegacyMetricName(OwnDrops.EVENTS_DROPPED_TOTAL)
    ensures IsLegacyMetricName(OwnDrops.EVENTS_DROPPED_OWN_TOTAL)
  {
  }

  /** Such a snapshot is accepted: two one-series counters are enough. */
  lemma ClashIsAccepted() returns (root: MetricsSnapshot)
    ensures Acceptable(root) && OwnClash(root.metrics)
  {
    var f, g := PlainCounter(OwnDrops.EVENTS_DROPPED_TOTAL), PlainCounter(OwnDrops.EVENTS_DROPPED_OWN_TOTAL);
    root := MetricsSnapshot(1, [f, g]);
    DroppedNamesAreLegal();
    PlainCounterIsGood(f.name);
    PlainCounterIsGood(g.name);
    assert |f.name| != |g.name|;
    assert root.metrics[0] == f && root.metrics[1] == g;
    assert [] in Labelsets(f) && [] in Labelsets(g);
  }
}
