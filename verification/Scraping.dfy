/** The whole translation: what a scraper reads from the text of an accepted snapshot. */
module Scraping {
  import opened Bytes
  import opened Ordering
  import opened MetricsSchema
  import opened Exposition
  import opened HistogramLabels
  import opened Exporter
  import opened Samples
  import opened TextFormat
  import opened Readings
  import Canonical
  import OwnDrops

  // ---- every printed name is a name

  ghost predicate LegalFamily(f: Family) {
    IsLegacyMetricName(f.name) && forall i :: 0 <= i < |f.series| ==> LegalLabels(f.series[i].labels)
  }

  ghost predicate NamedLabels(labels: Labels) {
    forall i :: 0 <= i < |labels| ==> IsName(labels[i].name)
  }

  lemma LegalIsNamed(labels: Labels)
    requires LegalLabels(labels)
    ensures NamedLabels(labels)
  {
    forall i | 0 <= i < |labels| ensures IsName(labels[i].name) {
      assert IsLegacyLabelName(labels[i].name);
    }
  }

  lemma SortedIsNamed(labels: Labels)
    requires NamedLabels(labels)
    ensures NamedLabels(SortLabels(labels))
  {
    SortKeeps(LabelLe, Whole, labels);
    SameLength(SortLabels(labels), labels);
    forall i | 0 <= i < |SortLabels(labels)| ensures IsName(SortLabels(labels)[i].name) {
      assert SortLabels(labels)[i] in labels;
    }
  }

  lemma MappedIsNamed(labels: Labels)
    requires LegalLabels(labels)
    ensures NamedLabels(MapHistogramLabels(labels))
  {
    LegalIsNamed(labels);
    if HasLe(labels) {
      var shifted := Map(ShiftLabel, labels);
      forall i | 0 <= i < |shifted| ensures IsName(shifted[i].name) {
        assert IsName(labels[i].name) && IsName("_");
      }
      SortedIsNamed(shifted);
    }
  }

  lemma BoundIsNamed(labels: Labels, bound: string)
    requires NamedLabels(labels)
    ensures NamedLabels(WithBucketBound(labels, bound))
  {
    assert IsName(LE);
    SortedIsNamed(labels + [Label(LE, bound)]);
  }

  lemma SuffixedIsName(name: string, suffix: string)
    requires IsLegacyMetricName(name) && suffix in SUFFIXES
    ensures IsName(name + suffix)
  {
    assert IsName("_bucket") && IsName("_sum") && IsName("_count");
  }

  lemma SeriesReadable(show: real -> string, name: string, s: Series, x: Sample)
    requires IsLegacyMetricName(name) && LegalLabels(s.labels) && x in SeriesSamples(show, name, s)
    ensures Readable(x)
  {
    SampleShape(show, name, s, x);
    match s
    case Value(labels, _) => LegalIsNamed(labels);
    case Buckets(labels, _, _, _) =>
      var mapped := MapHistogramLabels(labels);
      MappedIsNamed(labels);
      assert SUFFIXES[0] in SUFFIXES && SUFFIXES[1] in SUFFIXES && SUFFIXES[2] in SUFFIXES;
      if x.name == name + "_bucket" {
        SuffixedIsName(name, SUFFIXES[0]);
        SuffixesDiffer(name, name);
        var bound :| x.labels == WithBucketBound(mapped, bound);
        BoundIsNamed(mapped, bound);
      } else if x.name == name + "_sum" {
        SuffixedIsName(name, SUFFIXES[1]);
      } else {
        SuffixedIsName(name, SUFFIXES[2]);
      }
  }

  lemma FamilyReadable(show: real -> string, f: Family, x: Sample)
    requires LegalFamily(f) && x in FamilySamples(show)(f)
    ensures Readable(x)
  {
    var i := InFlatten(SeriesParts(show, f), x);
    SeriesReadable(show, f.name, f.series[i], x);
  }

  lemma ExposedIsLegal(f: MetricFamily)
    requires GoodFamily(f)
    ensures LegalFamily(Expose(f))
  {
    ExposedIsSound(f);
    forall i | 0 <= i < |Expose(f).series| ensures LegalLabels(Expose(f).series[i].labels) {
      assert Expose(f).series[i].labels in Labelsets(f);
    }
  }

  lemma DerivedIsLegal(source: MetricFamily, derived: Family)
    requires GoodFamily(source) && OwnDrops.OwnFamily(Expose(source)) == Some(derived)
    ensures LegalFamily(derived)
  {
    ExposedIsLegal(source);
    DerivedIsSound(source, derived);
    DroppedNamesAreLegal();
  }

  lemma AllLegal(root: MetricsSnapshot, families: seq<Family>, f: Family)
    requires Acceptable(root) && Exposed(root, families) && f in families
    ensures LegalFamily(f)
  {
    var source := FamilyOrigin(root, families, f);
    if f == Expose(source) {
      ExposedIsLegal(source);
    } else {
      DerivedIsLegal(source, f);
    }
  }

  // ---- every line is one line

  lemma NameIsOneLine(name: string)
    requires IsName(name)
    ensures OneLine(name)
  {
    forall i | 0 <= i < |name| ensures name[i] != '\n' {
      assert MetricNameChar(name[i]);
    }
  }

  lemma {:induction false} LabelsOneLine(labels: Labels)
    requires NamedLabels(labels)
    ensures OneLine(JoinLabels(labels))
    decreases |labels|
  {
    if labels != [] {
      NameIsOneLine(labels[0].name);
      EscapeNoNewline(labels[0].value);
      LabelsOneLine(labels[1..]);
    }
  }

  /** The sums of a family are printed without a newline; bounds are label values and escaped. */
  ghost predicate SumsOneLine(show: real -> string, f: Family) {
    forall i :: 0 <= i < |f.series| && f.series[i].Buckets? ==> OneLine(show(f.series[i].sum))
  }

  ghost predicate AllSumsOneLine(show: real -> string, metrics: seq<MetricFamily>) {
    forall f, s :: f in metrics && f.Histogram? && s in f.histograms ==> OneLine(show(FloatValue(s.sum)))
  }

  lemma ExposedSums(show: real -> string, root: MetricsSnapshot, families: seq<Family>, f: Family)
    requires AllSumsOneLine(show, root.metrics) && Acceptable(root) && Exposed(root, families) && f in families
    ensures SumsOneLine(show, f)
  {
    var source := FamilyOrigin(root, families, f);
    if f == Expose(source) {
      forall i | 0 <= i < |f.series| && f.series[i].Buckets? ensures OneLine(show(f.series[i].sum)) {
        var k := SeriesOrigin(source, i);
        assert source.histograms[k] in source.histograms;
      }
    } else {
      DerivedIsSound(source, f);
      forall i | 0 <= i < |f.series| ensures f.series[i].Value? {
        assert Matches(f.kind, f.series[i]);
      }
    }
  }

  lemma SumOfSeries(show: real -> string, f: Family, x: Sample)
    requires SumsOneLine(show, f) && x in FamilySamples(show)(f) && x.number.Sum?
    ensures OneLine(show(x.number.sum))
  {
    var i := InFlatten(SeriesParts(show, f), x);
    SumInSeries(show, f.name, f.series[i], x);
  }

  lemma SumInSeries(show: real -> string, name: string, s: Series, x: Sample)
    requires x in SeriesSamples(show, name, s) && x.number.Sum?
    ensures s.Buckets? && x.number.sum == s.sum
  {
    if s.Buckets? {
      var parts := BucketSamples(show, name, MapHistogramLabels(s.labels), s.buckets);
      assert forall i :: 0 <= i < |parts| ==> parts[i].number.Count?;
      assert x !in parts;
    }
  }

  lemma SampleOneLine(show: real -> string, x: Sample)
    requires Readable(x) && (x.number.Sum? ==> OneLine(show(x.number.sum)))
    ensures OneLine(SampleText(show)(x))
  {
    NameIsOneLine(x.name);
    LabelsOneLine(x.labels);
    if x.number.Count? {
      DecimalRoundTrip(x.number.count);
      assert !IsDigit('\n');
    }
    assert OneLine(NumberText(show, x.number));
    assert OneLine(LabelsText(x.labels));
  }

  lemma CommentsOneLine(f: Family)
    requires IsLegacyMetricName(f.name)
    ensures OneLine(HelpLine(f)) && OneLine(TypeLine(f)) && Skipped(HelpLine(f)) && Skipped(TypeLine(f))
  {
    NameIsOneLine(f.name);
    EscapeNoNewline(f.help);
    assert OneLine("# HELP ") && OneLine("# TYPE ") && OneLine(" ") && OneLine(KindText(f.kind));
  }

  // ---- reading it all back

  ghost predicate Reads(show: real -> string, lines: seq<string>, samples: seq<Sample>) {
    && ReadLines(lines) == Some(Map(ReadingOf(show), samples))
    && forall i :: 0 <= i < |lines| ==> OneLine(lines[i])
  }

  lemma ReadsConcat(show: real -> string, a: seq<string>, b: seq<string>, x: seq<Sample>, y: seq<Sample>)
    requires Reads(show, a, x) && Reads(show, b, y)
    ensures Reads(show, a + b, x + y)
  {
    ReadConcat(a, b);
    MapConcat(ReadingOf(show), x, y);
  }

  lemma ReadsSkipped(show: real -> string, line: string)
    requires Skipped(line) && OneLine(line)
    ensures Reads(show, [line], [])
  {
    assert [line][1..] == [];
    assert Map(ReadingOf(show), []) == [];
  }

  lemma ReadHead(show: real -> string, f: Family)
    requires IsLegacyMetricName(f.name)
    ensures Reads(show, [HelpLine(f), TypeLine(f)], [])
  {
    CommentsOneLine(f);
    ReadsSkipped(show, HelpLine(f));
    ReadsSkipped(show, TypeLine(f));
    ReadsConcat(show, [HelpLine(f)], [TypeLine(f)], [], []);
    assert [HelpLine(f)] + [TypeLine(f)] == [HelpLine(f), TypeLine(f)];
    var none: seq<Sample> := [];
    assert none + none == none;
  }

  lemma ReadBody(show: real -> string, f: Family)
    requires SumsOneLine(show, f) && LegalFamily(f)
    ensures Reads(show, Map(SampleText(show), FamilySamples(show)(f)), FamilySamples(show)(f))
  {
    var samples := FamilySamples(show)(f);
    var lines := Map(SampleText(show), samples);
    forall i | 0 <= i < |samples| ensures Readable(samples[i]) && OneLine(lines[i]) {
      FamilyReadable(show, f, samples[i]);
      if samples[i].number.Sum? {
        SumOfSeries(show, f, samples[i]);
      }
      SampleOneLine(show, samples[i]);
    }
    ReadSamples(show, samples);
  }

  lemma ReadFamily(show: real -> string, f: Family)
    requires SumsOneLine(show, f) && LegalFamily(f)
    ensures Reads(show, FamilyLines(show)(f), FamilySamples(show)(f))
  {
    var samples := FamilySamples(show)(f);
    var head, lines := [HelpLine(f), TypeLine(f)], Map(SampleText(show), samples);
    ReadHead(show, f);
    ReadBody(show, f);
    ReadsSkipped(show, "");
    ReadsConcat(show, head, lines, [], samples);
    ReadsConcat(show, head + lines, [""], [] + samples, []);
    assert [] + samples + [] == samples;
  }

  lemma {:induction false} ReadDocument(show: real -> string, families: seq<Family>)
    requires forall f :: f in families ==> LegalFamily(f) && SumsOneLine(show, f)
    ensures Reads(show, Document(show, families), AllSamples(show, families))
    decreases |families|
  {
    if families == [] {
      assert Map(FamilyLines(show), families) == [] && Map(FamilySamples(show), families) == [];
      assert Map(ReadingOf(show), []) == [];
    } else {
      assert families[0] in families;
      ReadFamily(show, families[0]);
      ReadDocument(show, families[1..]);
      MapFirst(FamilyLines(show), families);
      MapFirst(FamilySamples(show), families);
      var lines, samples := FamilyLines(show)(families[0]), FamilySamples(show)(families[0]);
      assert ([lines] + Map(FamilyLines(show), families[1..]))[1..] == Map(FamilyLines(show), families[1..]);
      assert ([samples] + Map(FamilySamples(show), families[1..]))[1..] == Map(FamilySamples(show), families[1..]);
      ReadsConcat(show, lines, Document(show, families[1..]), samples, AllSamples(show, families[1..]));
    }
  }

  lemma FamilyHeaders(show: real -> string, f: Family)
    requires LegalFamily(f)
    ensures ReadHeaders(FamilyLines(show)(f)) == HeadersOf(f)
  {
    var samples := FamilySamples(show)(f);
    var head, lines := [HelpLine(f), TypeLine(f)], Map(SampleText(show), samples);
    forall i | 0 <= i < |samples| ensures Readable(samples[i]) {
      FamilyReadable(show, f, samples[i]);
    }
    HeaderRoundTrip(f);
    NoHeaders(show, samples);
    HeadersConcat(head + lines, [""]);
    HeadersConcat(head, lines);
    assert head[1..] == [TypeLine(f)] && head[1..][1..] == [];
    assert [""][1..] == [];
    assert ReadHeaders([""]) == [];
    assert ReadHeaders(head) == [HelpOf(f.name, f.help)] + ([TypeOf(f.name, KindText(f.kind))] + []);
  }

  lemma {:induction false} DocumentHeaders(show: real -> string, families: seq<Family>)
    requires forall f :: f in families ==> LegalFamily(f)
    ensures ReadHeaders(Document(show, families)) == Flatten(Map(HeadersOf, families))
    decreases |families|
  {
    if families == [] {
      assert Map(FamilyLines(show), families) == [] && Map(HeadersOf, families) == [];
    } else {
      assert families[0] in families;
      FamilyHeaders(show, families[0]);
      DocumentHeaders(show, families[1..]);
      MapFirst(FamilyLines(show), families);
      MapFirst(HeadersOf, families);
      var lines, headers := FamilyLines(show)(families[0]), HeadersOf(families[0]);
      assert ([lines] + Map(FamilyLines(show), families[1..]))[1..] == Map(FamilyLines(show), families[1..]);
      assert ([headers] + Map(HeadersOf, families[1..]))[1..] == Map(HeadersOf, families[1..]);
      HeadersConcat(lines, Document(show, families[1..]));
    }
  }

  /** A scraper reads the help and the type of every family, in order. */
  lemma HeadersRoundTrip(show: real -> string, families: seq<Family>)
    requires forall f :: f in families ==> LegalFamily(f) && SumsOneLine(show, f)
    ensures ScrapeHeaders(Unlines(Document(show, families))) == Flatten(Map(HeadersOf, families))
  {
    var lines := Document(show, families);
    ReadDocument(show, families);
    SplitUnlines(lines);
    DocumentHeaders(show, families);
    var blank: seq<string> := [[]];
    assert blank[1..] == [] && ReadHeaders(blank) == [];
    HeadersConcat(lines, blank);
    assert ReadHeaders(lines) + [] == ReadHeaders(lines);
  }

  function TypeText(f: MetricFamily): string {
    match f
    case Counter(_, _, _) => "counter"
    case Gauge(_, _, _) => "gauge"
    case Histogram(_, _, _) => "histogram"
  }

  ghost predicate Describes(f: MetricFamily, h: Header) {
    h == HelpOf(f.name, f.help) || h == TypeOf(f.name, TypeText(f))
  }

  ghost predicate DescribesOwn(metrics: seq<MetricFamily>, h: Header) {
    && h.name == "limpid_events_dropped_own_total" && (if h.TypeOf? then h.kind == "counter" else h.help == OwnDrops.DROPPED_OWN_HELP)
    && exists f :: f in metrics && IsHierarchy(f)
  }

  /** Help and type of every family of the snapshot are read, and of no other but the derived one. */
  ghost predicate Described(metrics: seq<MetricFamily>, headers: seq<Header>) {
    && (forall f :: f in metrics ==> HelpOf(f.name, f.help) in headers && TypeOf(f.name, TypeText(f)) in headers)
    && (forall h :: h in headers ==> DescribesOwn(metrics, h) || exists f :: f in metrics && Describes(f, h))
  }

  lemma FamilyDescribed(families: seq<Family>, f: MetricFamily)
    requires Expose(f) in families
    ensures HelpOf(f.name, f.help) in Flatten(Map(HeadersOf, families))
    ensures TypeOf(f.name, TypeText(f)) in Flatten(Map(HeadersOf, families))
  {
    var k :| 0 <= k < |families| && families[k] == Expose(f);
    var own := HeadersOf(Expose(f));
    assert own[0] in own && own[1] in own;
    FlattenHas(Map(HeadersOf, families), k, own[0]);
    FlattenHas(Map(HeadersOf, families), k, own[1]);
  }

  lemma HeaderOrigin(root: MetricsSnapshot, families: seq<Family>, h: Header)
    requires Acceptable(root) && Exposed(root, families) && h in Flatten(Map(HeadersOf, families))
    ensures DescribesOwn(root.metrics, h) || exists f :: f in root.metrics && Describes(f, h)
  {
    var k := InFlatten(Map(HeadersOf, families), h);
    var f := FamilyOrigin(root, families, families[k]);
    if families[k] == Expose(f) {
      DescribedBy(f, h);
    } else {
      OwnDescribedBy(root.metrics, f, families[k], h);
    }
  }

  lemma DescribedBy(f: MetricFamily, h: Header)
    requires h in HeadersOf(Expose(f))
    ensures Describes(f, h)
  {
  }

  lemma OwnDescribedBy(metrics: seq<MetricFamily>, f: MetricFamily, derived: Family, h: Header)
    requires f in metrics && GoodFamily(f) && f.name == OwnDrops.EVENTS_DROPPED_TOTAL
    requires OwnDrops.OwnFamily(Expose(f)) == Some(derived) && h in HeadersOf(derived)
    ensures DescribesOwn(metrics, h)
  {
    DerivedIsSound(f, derived);
    assert IsHierarchy(f);
  }

  lemma HeadersDescribe(root: MetricsSnapshot, families: seq<Family>)
    requires Acceptable(root) && Exposed(root, families)
    ensures Described(root.metrics, Flatten(Map(HeadersOf, families)))
  {
    forall f | f in root.metrics ensures Expose(f) in families {
      FamilyIsExposed(root, families, f);
    }
    forall f | f in root.metrics {
      FamilyDescribed(families, f);
    }
    forall h | h in Flatten(Map(HeadersOf, families)) {
      HeaderOrigin(root, families, h);
    }
  }

  /** A scraper reads exactly the samples, in order, nothing more and nothing less. */
  lemma ScrapeRoundTrip(show: real -> string, families: seq<Family>)
    requires forall f :: f in families ==> LegalFamily(f) && SumsOneLine(show, f)
    ensures Scrape(Unlines(Document(show, families))) == Some(Map(ReadingOf(show), AllSamples(show, families)))
  {
    var lines := Document(show, families);
    ReadDocument(show, families);
    SplitUnlines(lines);
    var blank: seq<string> := [[]];
    assert blank[1..] == [] && ReadLines(blank) == Some([]);
    ReadConcat(lines, blank);
    var readings := Map(ReadingOf(show), AllSamples(show, families));
    assert readings + [] == readings;
  }

  ghost function ReadingKey(r: Reading): SampleKey {
    SampleKey(r.name, Elements(r.labels))
  }

  lemma SameKeys(show: real -> string, samples: seq<Sample>)
    ensures Distinct(ReadingKey, Map(ReadingOf(show), samples)) <==> Distinct(KeyOf, samples)
  {
    var readings := Map(ReadingOf(show), samples);
    assert forall i :: 0 <= i < |samples| ==> ReadingKey(readings[i]) == KeyOf(samples[i]);
  }

  // ---- the whole translation

  /** What the text of an accepted snapshot is, and what a scraper makes of it. */
  ghost predicate Translated(show: real -> string, root: MetricsSnapshot, families: seq<Family>, text: string) {
    && Exposed(root, families) && text == Unlines(Document(show, families))
    && (AllSumsOneLine(show, root.metrics) ==>
          Scrape(text) == Some(Map(ReadingOf(show), AllSamples(show, families))))
    && (AllSumsOneLine(show, root.metrics) && TellsAllApart(show, root.metrics) ==>
          (Distinct(ReadingKey, Scrape(text).value) <==> !OwnClash(root.metrics)))
    && (AllSumsOneLine(show, root.metrics) ==>
          Complete(show, root.metrics, Scrape(text).value) && Described(root.metrics, ScrapeHeaders(text)))
    && (Distinct(FamilyName, families) <==> !OwnDeclared(root.metrics))
    && Sorted(StrLe, FamilyName, families)
    && (forall f :: f in families ==> Sorted(LabelsLe, SeriesLabels, f.series))
  }

  /** Families are exposed in the order of their names, series in the order of their labels. */
  lemma ExposedSorted(root: MetricsSnapshot, families: seq<Family>)
    requires Exposed(root, families)
    ensures Sorted(StrLe, FamilyName, families)
    ensures forall f :: f in families ==> Sorted(LabelsLe, SeriesLabels, f.series)
  {
    var derived :| DerivedFrom(root.metrics, derived)
                   && families == SortFamilies(Map(Expose, root.metrics) + AsSeq(derived));
    StrOrder();
    LabelsOrder();
    SortSorts(StrLe, FamilyName, Map(Expose, root.metrics) + AsSeq(derived));
    forall f | f in families ensures Sorted(LabelsLe, SeriesLabels, f.series) {
      var source := FamilyOrigin(root, families, f);
      SortSorts(LabelsLe, SeriesLabels, ExposeSeries(source));
    }
  }

  lemma TextReadsBack(show: real -> string, root: MetricsSnapshot, families: seq<Family>)
    requires Acceptable(root) && Exposed(root, families)
    ensures Translated(show, root, families, Unlines(Document(show, families)))
  {
    FamilyNamesDistinct(root, families);
    ExposedSorted(root, families);
    if AllSumsOneLine(show, root.metrics) {
      forall f | f in families ensures LegalFamily(f) && SumsOneLine(show, f) {
        AllLegal(root, families, f);
        ExposedSums(show, root, families, f);
      }
      ScrapeRoundTrip(show, families);
      ReadingsComplete(show, root, families);
      HeadersRoundTrip(show, families);
      HeadersDescribe(root, families);
      if TellsAllApart(show, root.metrics) {
        SamplesAreUnique(show, root, families);
        SameKeys(show, AllSamples(show, families));
      }
    }
  }

  /** `json_to_prometheus` after decoding: an acceptable snapshot becomes a text from which a
      scraper reads each sample once, unless the snapshot itself declares the derived family. */
  method Translate(show: real -> string, root: MetricsSnapshot) returns (r: Result<string>)
    ensures r.Ok? <==> Acceptable(root)
    ensures r.Err? ==> Defect(root, r.error)
    ensures r.Ok? ==> exists families :: Translated(show, root, families, r.value)
  {
    var parsed := ParseSnapshot(root);
    if parsed.Err? {
      return Err(parsed.error);
    }
    var text := RenderSnapshot(show, parsed.value);
    TextReadsBack(show, root, parsed.value);
    return Ok(text);
  }

  /** Rearranging families and series changes no byte of the text. */
  lemma TextIsCanonical(show: real -> string, a: MetricsSnapshot, b: MetricsSnapshot, via: seq<MetricFamily>,
                        x: seq<Family>, y: seq<Family>)
    requires Canonical.Rearranged(a, b, via)
    ensures Acceptable(a) <==> Acceptable(b)
    ensures Acceptable(a) && Exposed(a, x) && Exposed(b, y) ==>
              Unlines(Document(show, x)) == Unlines(Document(show, y))
  {
    Canonical.CanonicalExposition(a, b, via, x, y);
  }

  /** Two translations of rearranged snapshots succeed together, with the same text. */
  method TranslateBoth(show: real -> string, a: MetricsSnapshot, b: MetricsSnapshot, ghost via: seq<MetricFamily>)
    returns (r: Result<string>, s: Result<string>)
    requires Canonical.Rearranged(a, b, via)
    ensures r.Ok? <==> s.Ok?
    ensures r.Ok? ==> r == s
  {
    r := Translate(show, a);
    s := Translate(show, b);
    TextIsCanonical(show, a, b, via, [], []);
    if r.Ok? && s.Ok? {
      ghost var x :| Translated(show, a, x, r.value);
      ghost var y :| Translated(show, b, y, s.value);
      TextIsCanonical(show, a, b, via, x, y);
    }
  }

  // ---- printing that tells numbers apart exists

  function Rank(numbers: set<real>, x: real): nat {
    |set n | n in numbers && n < x|
  }

  lemma RankRises(numbers: set<real>, a: real, b: real)
    requires a in numbers && a < b
    ensures Rank(numbers, a) < Rank(numbers, b)
  {
    var below, more := set n | n in numbers && n < a, set n | n in numbers && n < b;
    SmallerSet(below + {a}, more);
  }

  lemma {:induction false} SmallerSet(s: set<real>, t: set<real>)
    requires s <= t
    ensures |s| <= |t|
  {
    assert t == s + (t - s);
  }

  function Tally(n: nat): string {
    seq(n, _ => '1')
  }

  /** The numbers of a snapshot that get printed. */
  function Numbers(metrics: seq<MetricFamily>): set<real> {
    (set f, s, b | f in metrics && f.Histogram? && s in f.histograms && b in s.buckets :: FloatValue(b.0))
  }

  /** Some way of printing meets all that is asked of one, whatever the snapshot. */
  lemma PrinterExists(metrics: seq<MetricFamily>) returns (show: real -> string)
    ensures TellsAllApart(show, metrics) && AllSumsOneLine(show, metrics)
  {
    var numbers := Numbers(metrics);
    show := RankPrinter(numbers);
    forall f, s | f in metrics && f.Histogram? && s in f.histograms ensures TellsApart(show, Map(Bucket, s.buckets)) {
      var buckets := Map(Bucket, s.buckets);
      forall i | 0 <= i < |buckets| ensures buckets[i].0 in numbers {
        assert s.buckets[i] in s.buckets;
      }
      RanksTellApart(numbers, buckets);
    }
  }

  function RankPrinter(numbers: set<real>): real -> string {
    x => Tally(Rank(numbers, x))
  }

  lemma RanksTellApart(numbers: set<real>, buckets: seq<(real, u64)>)
    requires forall i :: 0 <= i < |buckets| ==> buckets[i].0 in numbers
    ensures TellsApart(RankPrinter(numbers), buckets)
  {
    var show := RankPrinter(numbers);
    forall i, j | 0 <= i < |buckets| && 0 <= j < |buckets| && buckets[i].0 < buckets[j].0
      ensures show(buckets[i].0) != show(buckets[j].0)
    {
      RankRises(numbers, buckets[i].0, buckets[j].0);
      assert |show(buckets[i].0)| < |show(buckets[j].0)|;
    }
    forall i | 0 <= i < |buckets| ensures show(buckets[i].0) != INFINITE {
      assert INFINITE[0] == '+' && '+' !in show(buckets[i].0);
    }
  }
}
