/** Families ready for exposition. */
module Exposition {
  import opened MetricsSchema

  datatype Kind = CounterKind | GaugeKind | HistogramKind

  datatype Series =
    | Value(labels: LabelMap, value: u64)
    | Buckets(labels: LabelMap, buckets: seq<(real, u64)>, sum: real, count: u64)

  datatype Family = Family(name: string, kind: Kind, help: string, series: seq<Series>)

  function SeriesLabels(s: Series): Labels {
    s.labels
  }

  function FamilyName(f: Family): string {
    f.name
  }
}
