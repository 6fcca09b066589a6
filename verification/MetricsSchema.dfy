/** Schema-v1 snapshots: the wire data both the daemon and the exporter agree on. */
module MetricsSchema {
  import opened Ordering

  const TWO_TO_THE_64 := 0x1_0000_0000_0000_0000

  type u64 = x: int | 0 <= x < TWO_TO_THE_64

  /** An exact number in place of an `f64`. */
  datatype Float = Finite(value: real) | NonFinite

  datatype Label = Label(name: string, value: string)

  type Labels = seq<Label>

  predicate LabelLe(a: Label, b: Label) {
    if a.name == b.name then StrLe(a.value, b.value) else StrLe(a.name, b.name)
  }

  predicate LabelsLe(a: Labels, b: Labels) {
    LexLe(LabelLe, a, b)
  }

  function NameOf(l: Label): string {
    l.name
  }

  function Names(labels: Labels): seq<string> {
    Map(NameOf, labels)
  }

  /** A `BTreeMap<String, String>` in iteration order. */
  ghost predicate Ascending(labels: Labels) {
    forall i, j :: 0 <= i < j < |labels| ==>
      labels[i].name != labels[j].name && StrLe(labels[i].name, labels[j].name)
  }

  type LabelMap = labels: Labels | Ascending(labels) witness []

  datatype ValueSeries = ValueSeries(labels: LabelMap, value: u64)

  datatype HistogramSeries =
    HistogramSeries(labels: LabelMap, buckets: seq<(Float, u64)>, sum: Float, count: u64)

  datatype MetricFamily =
    | Counter(name: string, help: string, series: seq<ValueSeries>)
    | Gauge(name: string, help: string, series: seq<ValueSeries>)
    | Histogram(name: string, help: string, histograms: seq<HistogramSeries>)

  datatype MetricsSnapshot = MetricsSnapshot(schema: nat, metrics: seq<MetricFamily>)

  lemma LabelOrder()
    ensures TotalOrder(LabelLe)
  {
    StrOrder();
  }

  lemma LabelsOrder()
    ensures TotalOrder(LabelsLe)
  {
    LabelOrder();
    forall a, b ensures (LabelsLe(a, b) || LabelsLe(b, a)) && (LabelsLe(a, b) && LabelsLe(b, a) ==> a == b) {
      LexTotal(LabelLe, a, b);
    }
    forall a, b, c | LabelsLe(a, b) && LabelsLe(b, c) ensures LabelsLe(a, c) {
      LexTransitive(LabelLe, a, b, c);
    }
  }

  function SortLabels(labels: Labels): Labels {
    Sort(LabelLe, Whole, labels)
  }

  /** Sorting labels with distinct names gives a map, whatever order they came in. */
  lemma SortLabelsAscends(labels: Labels)
    requires Distinct(NameOf, labels)
    ensures Ascending(SortLabels(labels))
    ensures multiset(SortLabels(labels)) == multiset(labels)
  {
    LabelOrder();
    SortSorts(LabelLe, Whole, labels);
    SortKeeps(LabelLe, Whole, labels);
    var r := SortLabels(labels);
    DistinctPermutation(NameOf, labels, r);
    forall i, j | 0 <= i < j < |r| ensures r[i].name != r[j].name && StrLe(r[i].name, r[j].name) {
      assert NameOf(r[i]) != NameOf(r[j]);
      assert LabelLe(Whole(r[i]), Whole(r[j]));
    }
  }

  lemma AscendingDistinct(labels: Labels)
    requires Ascending(labels)
    ensures Distinct(NameOf, labels) && NoDup(labels)
  {
  }

  lemma SortAscending(labels: Labels)
    requires Ascending(labels)
    ensures SortLabels(labels) == labels
  {
    forall i, j | 0 <= i < j < |labels| ensures LabelLe(Whole(labels[i]), Whole(labels[j])) {
    }
    SortedStays(LabelLe, Whole, labels);
  }

  /** A label set is listed in one way only. */
  lemma AscendingUnique(a: Labels, b: Labels)
    requires Ascending(a) && Ascending(b) && Elements(a) == Elements(b)
    ensures a == b
  {
    AscendingDistinct(a);
    AscendingDistinct(b);
    SameElements(a, b);
    LabelOrder();
    SortForgets(LabelLe, Whole, a, b);
    SortAscending(a);
    SortAscending(b);
  }
}
