/** `parse_snapshot`: validation and canonicalisation of a snapshot. */
module Exporter {
  import opened Bytes
  import opened Ordering
  import opened MetricsSchema
  import opened Exposition
  import opened HistogramLabels
  import OwnDrops

  datatype ExportError =
    | UnsupportedSchema
    | EmptyName
    | BadMetricName(name: string)
    | DuplicateFamily(name: string)
    | EmptyHelp(name: string)
    | BadLabelName(name: string)
    | NonFiniteBound(name: string)
    | BoundsNotIncreasing(name: string)
    | CountsDecrease(name: string)
    | NonFiniteSum(name: string)
    | DuplicateLabelset(name: string)
    | MixedLabelNames(name: string)
    | DuplicateExported(name: string)
    | NamespaceClash(name: string)

  datatype Result<+T> = Ok(value: T) | Err(error: ExportError)

  // ---- name grammars

  predicate IsAlpha(c: char) {
    'a' <= c <= 'z' || 'A' <= c <= 'Z'
  }

  predicate IsDigit(c: char) {
    '0' <= c <= '9'
  }

  predicate MetricNameChar(c: char) {
    IsAlpha(c) || IsDigit(c) || c == '_' || c == ':'
  }

  predicate LabelNameChar(c: char) {
    IsAlpha(c) || IsDigit(c) || c == '_'
  }

  predicate IsLegacyMetricName(name: string) {
    name != [] && !IsDigit(name[0]) && forall i :: 0 <= i < |name| ==> MetricNameChar(name[i])
  }

  predicate IsLegacyLabelName(name: string) {
    !("__" <= name) &&
    name != [] && !IsDigit(name[0]) && forall i :: 0 <= i < |name| ==> LabelNameChar(name[i])
  }

  /** A letter, an underscore or a colon, then any of these and digits. */
  lemma MetricNameGrammar(name: string)
    ensures IsLegacyMetricName(name) <==>
            && |name| > 0
            && (var c := name[0]; 'a' <= c <= 'z' || 'A' <= c <= 'Z' || c == '_' || c == ':')
            && forall i :: 0 < i < |name| ==>
                 var c := name[i]; 'a' <= c <= 'z' || 'A' <= c <= 'Z' || '0' <= c <= '9' || c == '_' || c == ':'
  {
  }

  /** A letter or an underscore, then any of these and digits, but not two underscores first. */
  lemma LabelNameGrammar(name: string)
    ensures IsLegacyLabelName(name) <==>
            && |name| > 0 && !(|name| > 1 && name[0] == '_' && name[1] == '_')
            && (var c := name[0]; 'a' <= c <= 'z' || 'A' <= c <= 'Z' || c == '_')
            && forall i :: 0 < i < |name| ==>
                 var c := name[i]; 'a' <= c <= 'z' || 'A' <= c <= 'Z' || '0' <= c <= '9' || c == '_'
  {
    assert "__" <= name <==> |name| > 1 && name[0] == '_' && name[1] == '_';
  }

  // ---- what is accepted

  predicate LegalLabels(labels: Labels) {
    forall i :: 0 <= i < |labels| ==> IsLegacyLabelName(labels[i].name)
  }

  /** Finite, strictly increasing bounds with counts that never fall. */
  ghost predicate Cumulative(raw: seq<(Float, u64)>) {
    && (forall i :: 0 <= i < |raw| ==> raw[i].0.Finite?)
    && (forall i, j :: 0 <= i < j < |raw| ==> raw[i].0.value < raw[j].0.value && raw[i].1 <= raw[j].1)
  }

  function ValueLabels(s: ValueSeries): Labels {
    s.labels
  }

  function HistogramLabelsOf(s: HistogramSeries): Labels {
    s.labels
  }

  function Labelsets(f: MetricFamily): seq<Labels> {
    if f.Histogram? then Map(HistogramLabelsOf, f.histograms) else Map(ValueLabels, f.series)
  }

  ghost predicate SameNames(sets: seq<Labels>) {
    forall a, b :: a in sets && b in sets ==> Names(a) == Names(b)
  }

  ghost predicate GoodHistogram(s: HistogramSeries) {
    Cumulative(s.buckets) && s.sum.Finite?
  }

  ghost predicate GoodFamily(f: MetricFamily) {
    && IsLegacyMetricName(f.name) && f.help != []
    && (forall labels :: labels in Labelsets(f) ==> LegalLabels(labels))
    && (f.Histogram? ==> forall s :: s in f.histograms ==> GoodHistogram(s))
    && NoDup(Labelsets(f)) && SameNames(Labelsets(f))
  }

  function WireName(f: MetricFamily): string {
    f.name
  }

  const SUFFIXES: seq<string> := ["_bucket", "_sum", "_count"]

  /** A histogram's sample names must not be declared by another family. */
  ghost predicate ClashFree(metrics: seq<MetricFamily>) {
    forall f, g, suffix :: f in metrics && g in metrics && f.Histogram? && suffix in SUFFIXES ==>
      f.name + suffix != g.name
  }

  ghost predicate Acceptable(root: MetricsSnapshot) {
    && root.schema == 1
    && (forall f :: f in root.metrics ==> GoodFamily(f))
    && Distinct(WireName, root.metrics)
    && ClashFree(root.metrics)
  }

  // ---- what it becomes

  function FloatValue(f: Float): real {
    if f.Finite? then f.value else 0.0
  }

  function Bucket(b: (Float, u64)): (real, u64) {
    (FloatValue(b.0), b.1)
  }

  function ExposeValue(s: ValueSeries): Series {
    Value(s.labels, s.value)
  }

  function ExposeHistogram(s: HistogramSeries): Series {
    Buckets(s.labels, Map(Bucket, s.buckets), FloatValue(s.sum), s.count)
  }

  function KindOf(f: MetricFamily): Kind {
    match f
    case Counter(_, _, _) => CounterKind
    case Gauge(_, _, _) => GaugeKind
    case Histogram(_, _, _) => HistogramKind
  }

  function ExposeSeries(f: MetricFamily): seq<Series> {
    if f.Histogram? then Map(ExposeHistogram, f.histograms) else Map(ExposeValue, f.series)
  }

  function SortSeries(s: seq<Series>): seq<Series> {
    Sort(LabelsLe, SeriesLabels, s)
  }

  function Expose(f: MetricFamily): Family {
    Family(f.name, KindOf(f), f.help, SortSeries(ExposeSeries(f)))
  }

  function SortFamilies(families: seq<Family>): seq<Family> {
    Sort(StrLe, FamilyName, families)
  }

  /** The derived family of any of `metrics` that is the source of the own-drops hierarchy. */
  ghost predicate DerivedFrom(metrics: seq<MetricFamily>, derived: Option<Family>) {
    && ((forall f :: f in metrics ==> f.name != OwnDrops.EVENTS_DROPPED_TOTAL) ==> derived == None)
    && (forall f :: f in metrics && f.name == OwnDrops.EVENTS_DROPPED_TOTAL ==> derived == OwnDrops.OwnFamily(Expose(f)))
  }

  /** What an accepted snapshot is turned into. */
  ghost predicate Exposed(root: MetricsSnapshot, families: seq<Family>) {
    exists derived :: DerivedFrom(root.metrics, derived)
                      && families == SortFamilies(Map(Expose, root.metrics) + AsSeq(derived))
  }

  // ---- what a rejection means

  ghost predicate FamilyError(f: MetricFamily, e: ExportError) {
    match e
    case EmptyName => f.name == []
    case BadMetricName(n) => n == f.name && !IsLegacyMetricName(n)
    case EmptyHelp(n) => n == f.name && f.help == []
    case BadLabelName(n) => n == f.name && exists labels :: labels in Labelsets(f) && !LegalLabels(labels)
    case NonFiniteBound(n) =>
      n == f.name && f.Histogram? && exists s, b :: s in f.histograms && b in s.buckets && !b.0.Finite?
    case BoundsNotIncreasing(n) => n == f.name && f.Histogram? && exists s :: s in f.histograms && BoundsOutOfOrder(s.buckets)
    case CountsDecrease(n) => n == f.name && f.Histogram? && exists s :: s in f.histograms && CountsFall(s.buckets)
    case NonFiniteSum(n) => n == f.name && f.Histogram? && exists s :: s in f.histograms && !s.sum.Finite?
    case DuplicateLabelset(n) => n == f.name && !NoDup(Labelsets(f))
    case MixedLabelNames(n) => n == f.name && !SameNames(Labelsets(f))
    case _ => false
  }

  ghost predicate BoundsOutOfOrder(raw: seq<(Float, u64)>) {
    exists i, j :: 0 <= i < j < |raw| && raw[i].0.Finite? && raw[j].0.Finite? && raw[i].0.value >= raw[j].0.value
  }

  ghost predicate CountsFall(raw: seq<(Float, u64)>) {
    exists i, j :: 0 <= i < j < |raw| && raw[i].1 > raw[j].1
  }

  /** Two families have this name. */
  ghost predicate Repeats(metrics: seq<MetricFamily>, name: string) {
    exists i, j :: 0 <= i < j < |metrics| && metrics[i].name == name && metrics[j].name == name
  }

  /** A histogram of this name has a sample name that another family declares. */
  ghost predicate ClashesAt(metrics: seq<MetricFamily>, name: string) {
    exists f, g, suffix :: f in metrics && g in metrics && f.Histogram? && f.name == name && suffix in SUFFIXES
                           && f.name + suffix == g.name
  }

  /** Each error names a defect of the snapshot. `DuplicateExported` is never a defect. */
  ghost predicate Defect(root: MetricsSnapshot, e: ExportError) {
    match e
    case UnsupportedSchema => root.schema != 1
    case DuplicateFamily(n) => Repeats(root.metrics, n)
    case NamespaceClash(n) => ClashesAt(root.metrics, n)
    case DuplicateExported(_) => false
    case _ => exists f :: f in root.metrics && FamilyError(f, e)
  }

  lemma FamilyErrorIsBad(f: MetricFamily, e: ExportError)
    requires FamilyError(f, e)
    ensures !GoodFamily(f)
  {
    match e
    case NonFiniteBound(n) =>
      var s, b :| s in f.histograms && b in s.buckets && !b.0.Finite?;
      assert !GoodHistogram(s);
    case BoundsNotIncreasing(n) =>
      var s :| s in f.histograms && BoundsOutOfOrder(s.buckets);
      assert !GoodHistogram(s);
    case CountsDecrease(n) =>
      var s :| s in f.histograms && CountsFall(s.buckets);
      assert !GoodHistogram(s);
    case NonFiniteSum(n) =>
      var s :| s in f.histograms && !s.sum.Finite?;
      assert !GoodHistogram(s);
    case _ =>
  }

  lemma DefectIsUnacceptable(root: MetricsSnapshot, e: ExportError)
    requires Defect(root, e)
    ensures !Acceptable(root)
  {
    if e.DuplicateFamily? {
      var i, j :| 0 <= i < j < |root.metrics| && root.metrics[i].name == e.name && root.metrics[j].name == e.name;
      assert WireName(root.metrics[i]) == WireName(root.metrics[j]);
    } else if exists f :: f in root.metrics && FamilyError(f, e) {
      var f :| f in root.metrics && FamilyError(f, e);
      FamilyErrorIsBad(f, e);
    }
  }

  // ---- the code

  method ParseLabels(labels: LabelMap, metric: string) returns (r: Result<LabelMap>)
    ensures r.Ok? <==> LegalLabels(labels)
    ensures r.Ok? ==> r.value == labels
    ensures r.Err? ==> r.error == BadLabelName(metric)
  {
    var parsed: Labels := [];
    for i := 0 to |labels|
      invariant parsed == labels[..i]
      invariant forall k :: 0 <= k < i ==> IsLegacyLabelName(labels[k].name)
    {
      if !IsLegacyLabelName(labels[i].name) {
        return Err(BadLabelName(metric));
      }
      parsed := parsed + [labels[i]];
    }
    assert parsed == labels;
    SortAscending(labels);
    return Ok(SortLabels(parsed));
  }

  method ParseBuckets(raw: seq<(Float, u64)>, metric: string) returns (r: Result<seq<(real, u64)>>)
    ensures r.Ok? <==> Cumulative(raw)
    ensures r.Ok? ==> r.value == Map(Bucket, raw)
    ensures r.Err? ==>
              || (r.error == NonFiniteBound(metric) && exists b :: b in raw && !b.0.Finite?)
              || (r.error == BoundsNotIncreasing(metric) && BoundsOutOfOrder(raw))
              || (r.error == CountsDecrease(metric) && CountsFall(raw))
  {
    var buckets: seq<(real, u64)> := [];
    for i := 0 to |raw|
      invariant Cumulative(raw[..i])
      invariant buckets == Map(Bucket, raw[..i])
    {
      var (bound, count) := raw[i];
      if !bound.Finite? {
        assert raw[i] in raw;
        return Err(NonFiniteBound(metric));
      }
      if buckets != [] {
        var (previousBound, previousCount) := buckets[|buckets| - 1];
        assert raw[..i][i - 1] == raw[i - 1];
        if previousBound >= bound.value {
          return Err(BoundsNotIncreasing(metric));
        }
        if previousCount > count {
          return Err(CountsDecrease(metric));
        }
      }
      buckets := buckets + [(bound.value, count)];
      assert raw[..i + 1] == raw[..i] + [raw[i]];
    }
    assert raw[..|raw|] == raw;
    return Ok(buckets);
  }

  method ParseValues(raw: seq<ValueSeries>, metric: string) returns (r: Result<seq<Series>>)
    ensures r.Ok? <==> forall s :: s in raw ==> LegalLabels(s.labels)
    ensures r.Ok? ==> r.value == Map(ExposeValue, raw)
    ensures r.Err? ==> r.error == BadLabelName(metric)
  {
    var series: seq<Series> := [];
    for i := 0 to |raw|
      invariant forall s :: s in raw[..i] ==> LegalLabels(s.labels)
      invariant series == Map(ExposeValue, raw[..i])
    {
      var labels := ParseLabels(raw[i].labels, metric);
      if labels.Err? {
        assert raw[i] in raw;
        return Err(labels.error);
      }
      assert raw[..i + 1] == raw[..i] + [raw[i]];
      series := series + [Value(labels.value, raw[i].value)];
    }
    assert raw[..|raw|] == raw;
    return Ok(series);
  }

  method ParseHistograms(raw: seq<HistogramSeries>, metric: string) returns (r: Result<seq<Series>>)
    ensures r.Ok? <==> forall s :: s in raw ==> LegalLabels(s.labels) && GoodHistogram(s)
    ensures r.Ok? ==> r.value == Map(ExposeHistogram, raw)
    ensures r.Err? ==> exists s :: s in raw && HistogramError(s, metric, r.error)
  {
    var series: seq<Series> := [];
    for i := 0 to |raw|
      invariant forall s :: s in raw[..i] ==> LegalLabels(s.labels) && GoodHistogram(s)
      invariant series == Map(ExposeHistogram, raw[..i])
    {
      assert raw[i] in raw;
      var labels := ParseLabels(raw[i].labels, metric);
      if labels.Err? {
        assert HistogramError(raw[i], metric, labels.error);
        return Err(labels.error);
      }
      var buckets := ParseBuckets(raw[i].buckets, metric);
      if buckets.Err? {
        assert HistogramError(raw[i], metric, buckets.error);
        return Err(buckets.error);
      }
      if !raw[i].sum.Finite? {
        assert HistogramError(raw[i], metric, NonFiniteSum(metric));
        return Err(NonFiniteSum(metric));
      }
      assert raw[..i + 1] == raw[..i] + [raw[i]];
      series := series + [Buckets(labels.value, buckets.value, raw[i].sum.value, raw[i].count)];
    }
    assert raw[..|raw|] == raw;
    return Ok(series);
  }

  ghost predicate HistogramError(s: HistogramSeries, metric: string, e: ExportError) {
    || (e == BadLabelName(metric) && !LegalLabels(s.labels))
    || (e == NonFiniteBound(metric) && exists b :: b in s.buckets && !b.0.Finite?)
    || (e == BoundsNotIncreasing(metric) && BoundsOutOfOrder(s.buckets))
    || (e == CountsDecrease(metric) && CountsFall(s.buckets))
    || (e == NonFiniteSum(metric) && !s.sum.Finite?)
  }

  method ParseSeries(f: MetricFamily) returns (r: Result<seq<Series>>)
    ensures r.Ok? <==> (forall labels :: labels in Labelsets(f) ==> LegalLabels(labels))
                       && (f.Histogram? ==> forall s :: s in f.histograms ==> GoodHistogram(s))
    ensures r.Ok? ==> r.value == ExposeSeries(f)
    ensures r.Err? ==> FamilyError(f, r.error)
  {
    if f.Histogram? {
      assert forall i :: 0 <= i < |f.histograms| ==> Labelsets(f)[i] == f.histograms[i].labels;
      r := ParseHistograms(f.histograms, f.name);
      if r.Err? {
        ghost var s :| s in f.histograms && HistogramError(s, f.name, r.error);
        assert s.labels in Labelsets(f);
      } else {
        assert forall labels :: labels in Labelsets(f) ==> LegalLabels(labels);
      }
    } else {
      assert forall i :: 0 <= i < |f.series| ==> Labelsets(f)[i] == f.series[i].labels;
      r := ParseValues(f.series, f.name);
      if r.Err? {
        ghost var s :| s in f.series && !LegalLabels(s.labels);
        assert s.labels in Labelsets(f);
      } else {
        assert forall labels :: labels in Labelsets(f) ==> LegalLabels(labels);
      }
    }
  }

  lemma ExposeKeepsLabels(f: MetricFamily)
    ensures Map(SeriesLabels, ExposeSeries(f)) == Labelsets(f)
  {
  }

  method CheckLabelsets(series: seq<Series>, metric: string) returns (r: Result<()>)
    ensures r.Ok? <==> NoDup(Map(SeriesLabels, series)) && SameNames(Map(SeriesLabels, series))
    ensures r.Err? ==>
              || (r.error == DuplicateLabelset(metric) && !NoDup(Map(SeriesLabels, series)))
              || (r.error == MixedLabelNames(metric) && !SameNames(Map(SeriesLabels, series)))
  {
    ghost var sets := Map(SeriesLabels, series);
    var labelsets: set<Labels> := {};
    var familyNames: Option<seq<string>> := None;
    for i := 0 to |series|
      invariant labelsets == Elements(sets[..i]) && NoDup(sets[..i])
      invariant familyNames.None? <==> i == 0
      invariant forall k :: 0 <= k < i ==> Names(sets[k]) == familyNames.value
    {
      var labels := series[i].labels;
      assert sets[i] == labels && sets[..i + 1] == sets[..i] + [labels];
      if labels in labelsets {
        ghost var k :| 0 <= k < i && sets[..i][k] == labels;
        assert sets[k] == sets[i];
        return Err(DuplicateLabelset(metric));
      }
      labelsets := labelsets + {labels};
      var names := Names(labels);
      if familyNames.Some? && familyNames.value != names {
        assert sets[0] in sets && sets[i] in sets;
        return Err(MixedLabelNames(metric));
      }
      familyNames := Some(names);
    }
    assert sets[..|series|] == sets;
    return Ok(());
  }

  function Exported(kind: Kind, labels: Labels): Labels {
    if kind == HistogramKind then MapHistogramLabels(labels) else labels
  }

  method ValidateExportedLabelsets(series: seq<Series>, kind: Kind, metric: string) returns (r: Result<()>)
    ensures r.Ok? <==> forall i, j :: 0 <= i < j < |series| ==> Exported(kind, series[i].labels) != Exported(kind, series[j].labels)
    ensures r.Err? ==> r.error == DuplicateExported(metric)
  {
    var exported: set<Labels> := {};
    for i := 0 to |series|
      invariant exported == set k | 0 <= k < i :: Exported(kind, series[k].labels)
      invariant forall k, l :: 0 <= k < l < i ==> Exported(kind, series[k].labels) != Exported(kind, series[l].labels)
    {
      var labels := Exported(kind, series[i].labels);
      if labels in exported {
        return Err(DuplicateExported(metric));
      }
      exported := exported + {labels};
    }
    return Ok(());
  }

  /** Once the labelset checks have passed, the exported labelsets are distinct too. */
  lemma ExportedStayDistinct(series: seq<Series>, kind: Kind, i: int, j: int)
    requires NoDup(Map(SeriesLabels, series)) && SameNames(Map(SeriesLabels, series))
    requires 0 <= i < j < |series|
    ensures Exported(kind, series[i].labels) != Exported(kind, series[j].labels)
  {
    var sets := Map(SeriesLabels, series);
    assert sets[i] in sets && sets[j] in sets && sets[i] != sets[j];
    if Exported(kind, sets[i]) == Exported(kind, sets[j]) && kind == HistogramKind {
      MappedInjective(sets[i], sets[j]);
    }
  }

  lemma ExportedAllDistinct(series: seq<Series>, kind: Kind)
    requires NoDup(Map(SeriesLabels, series)) && SameNames(Map(SeriesLabels, series))
    ensures forall i, j :: 0 <= i < j < |series| ==> Exported(kind, series[i].labels) != Exported(kind, series[j].labels)
  {
    forall i, j | 0 <= i < j < |series|
      ensures Exported(kind, series[i].labels) != Exported(kind, series[j].labels)
    {
      ExportedStayDistinct(series, kind, i, j);
    }
  }

  /** One family, after its name has been checked. */
  method ParseFamily(f: MetricFamily) returns (r: Result<Family>)
    requires IsLegacyMetricName(f.name)
    ensures r.Ok? <==> GoodFamily(f)
    ensures r.Ok? ==> r.value == Expose(f)
    ensures r.Err? ==> FamilyError(f, r.error)
  {
    if f.help == [] {
      return Err(EmptyHelp(f.name));
    }
    var parsed := ParseSeries(f);
    if parsed.Err? {
      return Err(parsed.error);
    }
    var series := parsed.value;
    ExposeKeepsLabels(f);
    var checked := CheckLabelsets(series, f.name);
    if checked.Err? {
      return Err(checked.error);
    }
    var exported := ValidateExportedLabelsets(series, KindOf(f), f.name);
    if exported.Err? {
      ExportedAllDistinct(series, KindOf(f));
      assert false;
    }
    return Ok(Family(f.name, KindOf(f), f.help, SortSeries(series)));
  }

  method ValidateHistogramNamespaces(families: seq<Family>, names: set<string>) returns (r: Result<()>)
    ensures r.Ok? <==> forall i, suffix :: 0 <= i < |families| && families[i].kind == HistogramKind && suffix in SUFFIXES ==>
                         families[i].name + suffix !in names
    ensures r.Err? ==> r.error.NamespaceClash?
    ensures r.Err? ==> exists i, suffix :: 0 <= i < |families| && families[i].kind == HistogramKind && suffix in SUFFIXES
                                           && families[i].name == r.error.name && r.error.name + suffix in names
  {
    for i := 0 to |families|
      invariant forall k, suffix :: 0 <= k < i && families[k].kind == HistogramKind && suffix in SUFFIXES ==>
        families[k].name + suffix !in names
    {
      if families[i].kind == HistogramKind {
        for j := 0 to |SUFFIXES|
          invariant forall suffix :: suffix in SUFFIXES[..j] ==> families[i].name + suffix !in names
        {
          if families[i].name + SUFFIXES[j] in names {
            assert SUFFIXES[j] in SUFFIXES;
            return Err(NamespaceClash(families[i].name));
          }
          assert SUFFIXES[..j + 1] == SUFFIXES[..j] + [SUFFIXES[j]];
        }
        assert SUFFIXES[..|SUFFIXES|] == SUFFIXES;
      }
    }
    return Ok(());
  }

  lemma NamespacesAgree(metrics: seq<MetricFamily>, families: seq<Family>, names: set<string>)
    requires families == Map(Expose, metrics)
    requires names == set f | f in metrics :: f.name
    ensures ClashFree(metrics) <==>
            forall i, suffix :: 0 <= i < |families| && families[i].kind == HistogramKind && suffix in SUFFIXES ==>
              families[i].name + suffix !in names
  {
    assert forall i :: 0 <= i < |metrics| ==> families[i] == Expose(metrics[i]) && metrics[i] in metrics;
    if ClashFree(metrics) {
      forall i, suffix | 0 <= i < |families| && families[i].kind == HistogramKind && suffix in SUFFIXES
        ensures families[i].name + suffix !in names
      {
      }
    } else {
      var f, g, suffix :| f in metrics && g in metrics && f.Histogram? && suffix in SUFFIXES && f.name + suffix == g.name;
      var i :| 0 <= i < |metrics| && metrics[i] == f;
      assert families[i].name + suffix in names;
    }
  }

  lemma ClashFound(metrics: seq<MetricFamily>, families: seq<Family>, names: set<string>, name: string)
    requires families == Map(Expose, metrics) && names == set f | f in metrics :: f.name
    requires exists i, suffix :: 0 <= i < |families| && families[i].kind == HistogramKind && suffix in SUFFIXES
                                 && families[i].name == name && name + suffix in names
    ensures ClashesAt(metrics, name)
  {
    var i, suffix :| 0 <= i < |families| && families[i].kind == HistogramKind && suffix in SUFFIXES
                     && families[i].name == name && name + suffix in names;
    assert metrics[i] in metrics && families[i] == Expose(metrics[i]);
    var g :| g in metrics && g.name == name + suffix;
  }

  ghost predicate GoodFamilies(metrics: seq<MetricFamily>) {
    (forall f :: f in metrics ==> GoodFamily(f)) && Distinct(WireName, metrics)
  }

  lemma OneMoreFamily(before: seq<MetricFamily>, f: MetricFamily)
    requires GoodFamilies(before) && GoodFamily(f) && forall g :: g in before ==> g.name != f.name
    ensures GoodFamilies(before + [f])
    ensures Map(Expose, before + [f]) == Map(Expose, before) + [Expose(f)]
  {
    var all := before + [f];
    forall i, j | 0 <= i < j < |all| ensures WireName(all[i]) != WireName(all[j]) {
      if j == |before| {
        assert all[i] in before;
      } else {
        assert WireName(before[i]) != WireName(before[j]);
      }
    }
  }

  /** The checks on one family, given the names declared so far. */
  method ParseNamed(f: MetricFamily, names: set<string>) returns (r: Result<Family>)
    ensures r.Ok? <==> GoodFamily(f) && f.name !in names
    ensures r.Ok? ==> r.value == Expose(f)
    ensures r.Err? ==> FamilyError(f, r.error) || (r.error == DuplicateFamily(f.name) && f.name in names)
  {
    if f.name == [] {
      return Err(EmptyName);
    }
    if !IsLegacyMetricName(f.name) {
      return Err(BadMetricName(f.name));
    }
    if f.name in names {
      return Err(DuplicateFamily(f.name));
    }
    r := ParseFamily(f);
  }

  lemma RepeatedName(metrics: seq<MetricFamily>, i: nat)
    requires i < |metrics|
    ensures metrics[i].name in (set f | f in metrics[..i] :: f.name) ==> Repeats(metrics, metrics[i].name)
  {
    if metrics[i].name in (set f | f in metrics[..i] :: f.name) {
      var k :| 0 <= k < i && metrics[..i][k].name == metrics[i].name;
      assert metrics[k].name == metrics[i].name;
    }
  }

  method ParseFamilies(metrics: seq<MetricFamily>) returns (r: Result<seq<Family>>, names: set<string>)
    ensures r.Ok? ==> GoodFamilies(metrics) && r.value == Map(Expose, metrics)
    ensures r.Ok? ==> names == set f | f in metrics :: f.name
    ensures r.Err? ==> (exists f :: f in metrics && FamilyError(f, r.error)) || (r.error.DuplicateFamily? && Repeats(metrics, r.error.name))
  {
    names := {};
    var families: seq<Family> := [];
    for i := 0 to |metrics|
      invariant names == set f | f in metrics[..i] :: f.name
      invariant families == Map(Expose, metrics[..i]) && GoodFamilies(metrics[..i])
    {
      var f := metrics[i];
      ghost var before := metrics[..i];
      var parsed := ParseNamed(f, names);
      if parsed.Err? {
        RepeatedName(metrics, i);
        return Err(parsed.error), names;
      }
      OneMoreFamily(before, f);
      assert metrics[..i + 1] == before + [f];
      names := names + {f.name};
      families := families + [parsed.value];
    }
    assert metrics[..|metrics|] == metrics;
    return Ok(families), names;
  }

  /** `parse_snapshot` accepts exactly the acceptable snapshots; its errors name real defects. */
  method ParseSnapshot(root: MetricsSnapshot) returns (r: Result<seq<Family>>)
    ensures r.Ok? <==> Acceptable(root)
    ensures r.Ok? ==> Exposed(root, r.value)
    ensures r.Err? ==> Defect(root, r.error)
  {
    if root.schema != 1 {
      return Err(UnsupportedSchema);
    }
    var parsed, names := ParseFamilies(root.metrics);
    if parsed.Err? {
      DefectIsUnacceptable(root, parsed.error);
      return Err(parsed.error);
    }
    var families := parsed.value;
    NamespacesAgree(root.metrics, families, names);
    var namespaces := ValidateHistogramNamespaces(families, names);
    if namespaces.Err? {
      ClashFound(root.metrics, families, names, namespaces.error.name);
      return Err(namespaces.error);
    }
    var derived := OwnDrops.DeriveDroppedOwn(families);
    SourceIsUnique(root.metrics, families, derived);
    return Ok(SortFamilies(families + AsSeq(derived)));
  }

  lemma SourceIsUnique(metrics: seq<MetricFamily>, families: seq<Family>, derived: Option<Family>)
    requires Distinct(WireName, metrics) && families == Map(Expose, metrics)
    requires (forall i :: !OwnDrops.IsSource(families, i)) ==> derived == None
    requires forall i :: OwnDrops.IsSource(families, i) ==> derived == OwnDrops.OwnFamily(families[i])
    ensures DerivedFrom(metrics, derived)
  {
    forall f | f in metrics && f.name == OwnDrops.EVENTS_DROPPED_TOTAL
      ensures derived == OwnDrops.OwnFamily(Expose(f))
    {
      var i :| 0 <= i < |metrics| && metrics[i] == f;
      forall k | 0 <= k < i ensures families[k].name != OwnDrops.EVENTS_DROPPED_TOTAL {
        assert WireName(metrics[k]) != WireName(metrics[i]);
      }
      assert OwnDrops.IsSource(families, i);
    }
    if forall f :: f in metrics ==> f.name != OwnDrops.EVENTS_DROPPED_TOTAL {
      forall i ensures !OwnDrops.IsSource(families, i) {
        if 0 <= i < |families| {
          assert metrics[i] in metrics;
        }
      }
    }
  }
}
