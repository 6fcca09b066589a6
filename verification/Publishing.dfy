/** From registrations to the text a scraper reads: the registry, its snapshot and the exporter
    in one run. */
module Publishing {
  import opened Bytes
  import opened Ordering
  import opened MetricsSchema
  import opened Exposition
  import opened HistogramLabels
  import opened TextFormat
  import opened Readings
  import Exporter
  import Registry
  import Scraping

  /** The labels of a request, in the order in which they are exposed. */
  ghost predicate LabelsOf(q: Registry.Request, labels: Labels) {
    Ascending(labels) && Elements(labels) == Elements(q.labels)
  }

  ghost predicate ValuePublished(read: Registry.Reading, q: Registry.Request, rs: seq<Reading>) {
    exists labels :: LabelsOf(q, labels) &&
      Reading(q.name, labels, Decimal(read((q.name, labels)).value)) in rs
  }

  /** Cumulative buckets at the boundaries of the request, with the running totals of the raw
      buckets that were read; `+Inf` and the count as read; the sum as read. */
  ghost predicate HistogramPublishedAs(show: real -> string, read: Registry.Reading, q: Registry.Request, rs: seq<Reading>,
                                       labels: Labels, mapped: Labels) {
    var held := read((q.name, labels));
    && (forall i :: 0 <= i < |q.boundaries| ==>
          exists r :: r in rs && IsBucket(show, q.name, mapped, BucketOf(q, held, i), r))
    && (exists r :: r in rs && IsInfinite(q.name, mapped, held.count, r))
    && (exists r :: r in rs && IsSum(show, q.name, mapped, held.sum, r))
    && (exists r :: r in rs && IsCount(q.name, mapped, held.count, r))
  }

  ghost function BucketOf(q: Registry.Request, held: Registry.Held, i: int): (Float, u64)
    requires 0 <= i < |q.boundaries|
  {
    (q.boundaries[i], Registry.Exact(held.counts, i + 1) % TWO_TO_THE_64)
  }

  ghost predicate HistogramPublished(show: real -> string, read: Registry.Reading, q: Registry.Request, rs: seq<Reading>) {
    exists labels, mapped :: LabelsOf(q, labels) && Relabelled(labels, mapped)
                             && HistogramPublishedAs(show, read, q, rs, labels, mapped)
  }

  ghost predicate Published(show: real -> string, read: Registry.Reading, q: Registry.Request, rs: seq<Reading>) {
    if q.kind == HistogramKind then HistogramPublished(show, read, q, rs) else ValuePublished(read, q, rs)
  }

  lemma ReportedIsPublished(show: real -> string, read: Registry.Reading, metrics: seq<MetricFamily>, q: Registry.Request, rs: seq<Reading>)
    requires Registry.Reported(read, metrics, q) && Complete(show, metrics, rs)
    ensures Published(show, read, q, rs)
  {
    var f :| f in metrics && Registry.ReportedIn(read, q, f);
    if q.kind == HistogramKind {
      var s :| s in f.histograms && Registry.ReportsHistogram(read, q, s);
      var mapped :| Relabelled(s.labels, mapped) && HistogramReads(show, f.name, s, mapped, rs);
      HistogramIsPublished(show, read, q, s, mapped, rs);
    } else {
      var s :| s in f.series && Registry.ReportsValue(read, q, s);
      var r :| r in rs && IsValue(f, s, r);
      assert LabelsOf(q, s.labels);
    }
  }

  lemma HistogramIsPublished(show: real -> string, read: Registry.Reading, q: Registry.Request, s: HistogramSeries, mapped: Labels,
                             rs: seq<Reading>)
    requires Registry.ReportsHistogram(read, q, s) && Relabelled(s.labels, mapped) && HistogramReads(show, q.name, s, mapped, rs)
    ensures HistogramPublished(show, read, q, rs)
  {
    var held := read((q.name, s.labels));
    forall i | 0 <= i < |q.boundaries| ensures exists r :: r in rs && IsBucket(show, q.name, mapped, BucketOf(q, held, i), r) {
      assert s.buckets[i] in s.buckets && s.buckets[i] == BucketOf(q, held, i);
    }
    assert LabelsOf(q, s.labels) && HistogramPublishedAs(show, read, q, rs, s.labels, mapped);
  }

  /** Whatever sums may be read, they print on one line. */
  ghost predicate PrintsSums(show: real -> string, read: Registry.Reading) {
    forall key :: OneLine(show(Exporter.FloatValue(read(key).sum)))
  }

  lemma SumsOfReading(show: real -> string, read: Registry.Reading, families: seq<Registry.RegisteredFamily>)
    requires Registry.AllAscending(families) && PrintsSums(show, read)
    ensures Scraping.AllSumsOneLine(show, Registry.Snapshot(read, families).metrics)
  {
    var metrics := Registry.Snapshot(read, families).metrics;
    forall f, s | f in metrics && f.Histogram? && s in f.histograms ensures OneLine(show(Exporter.FloatValue(s.sum))) {
      var i :| 0 <= i < |metrics| && metrics[i] == f;
      assert f == Registry.SnapshotFamily(read, families[i]);
      var j :| 0 <= j < |f.histograms| && f.histograms[j] == s;
      assert s == Registry.SnapshotHistogram(read, families[i].name, families[i].entries[j]);
    }
  }

  /** Register, take a snapshot while updates go on, and translate it. If the exporter takes it,
      every metric that was admitted is read under its name and labels with the numbers that the
      snapshot got. */
  method Publish(requests: seq<Registry.Request>, read: Registry.Reading, show: real -> string) returns (r: Exporter.Result<string>)
    ensures r.Ok? <==> Registry.AllSuitable(read, Registry.Admitted(requests)) && Registry.NoSuffixCollision(Registry.Admitted(requests))
    ensures r.Ok? && PrintsSums(show, read) ==>
              Scrape(r.value).Some? &&
              forall k :: Registry.WasAdmitted(requests, k) ==> Published(show, read, requests[k], Scrape(r.value).value)
  {
    var families, keys := Registry.RegisterAll(requests);
    Registry.SnapshotAcceptedIffSuitable(read, families, keys);
    var root := Registry.Snapshot(read, families);
    r := Scraping.Translate(show, root);
    if r.Ok? && PrintsSums(show, read) {
      SumsOfReading(show, read, families);
      ghost var exposed :| Scraping.Translated(show, root, exposed, r.value);
      forall k | Registry.WasAdmitted(requests, k) ensures Published(show, read, requests[k], Scrape(r.value).value) {
        Registry.AdmittedIsReported(requests, read, k);
        ReportedIsPublished(show, read, root.metrics, requests[k], Scrape(r.value).value);
      }
    }
  }
}
