/** Printing: the text of an exposition, and a reader of the Prometheus text format 0.0.4
    that gets every sample back. */
module TextFormat {
  import opened Bytes
  import opened Ordering
  import opened MetricsSchema
  import opened Exposition
  import opened HistogramLabels
  import opened Exporter
  import opened Samples
  import ProcessPaths

  // ---- escaping

  function EscapeChar(c: char): string {
    if c == '\\' then "\\\\" else if c == '"' then "\\\"" else if c == '\n' then "\\n" else [c]
  }

  function EscapeLabelValue(s: string): string {
    if s == [] then [] else EscapeChar(s[0]) + EscapeLabelValue(s[1..])
  }

  function EscapeHelpChar(c: char): string {
    if c == '\\' then "\\\\" else if c == '\n' then "\\n" else [c]
  }

  function EscapeHelp(s: string): string {
    if s == [] then [] else EscapeHelpChar(s[0]) + EscapeHelp(s[1..])
  }

  lemma {:induction false} EscapeLabelConcat(s: string, c: char)
    ensures EscapeLabelValue(s + [c]) == EscapeLabelValue(s) + EscapeChar(c)
    decreases |s|
  {
    if s == [] {
      assert (s + [c])[1..] == [];
    } else {
      assert (s + [c])[1..] == s[1..] + [c];
      EscapeLabelConcat(s[1..], c);
    }
  }

  method EscapeLabel(s: string) returns (out: string)
    ensures out == EscapeLabelValue(s)
  {
    out := [];
    for i := 0 to |s|
      invariant out == EscapeLabelValue(s[..i])
    {
      EscapeLabelConcat(s[..i], s[i]);
      assert s[..i + 1] == s[..i] + [s[i]];
      match s[i]
      case '\\' => out := out + "\\\\";
      case '"' => out := out + "\\\"";
      case '\n' => out := out + "\\n";
      case c => out := out + [c];
    }
    assert s[..|s|] == s;
  }

  lemma {:induction false} EscapeHelpConcat(s: string, c: char)
    ensures EscapeHelp(s + [c]) == EscapeHelp(s) + EscapeHelpChar(c)
    decreases |s|
  {
    if s == [] {
      assert (s + [c])[1..] == [];
    } else {
      assert (s + [c])[1..] == s[1..] + [c];
      EscapeHelpConcat(s[1..], c);
    }
  }

  method EscapeHelpText(s: string) returns (out: string)
    ensures out == EscapeHelp(s)
  {
    out := [];
    for i := 0 to |s|
      invariant out == EscapeHelp(s[..i])
    {
      EscapeHelpConcat(s[..i], s[i]);
      assert s[..i + 1] == s[..i] + [s[i]];
      match s[i]
      case '\\' => out := out + "\\\\";
      case '\n' => out := out + "\\n";
      case c => out := out + [c];
    }
    assert s[..|s|] == s;
  }

  /** A quoted value up to its closing quote, and what follows. */
  function ReadQuoted(s: string): (r: Option<(string, string)>)
    ensures r.Some? ==> |r.value.1| < |s|
  {
    if s == [] || s[0] == '\n' then None
    else if s[0] == '"' then Some(([], s[1..]))
    else if s[0] != '\\' then Prepend(s[0], ReadQuoted(s[1..]))
    else if |s| < 2 then None
    else if s[1] == '\\' then Prepend('\\', ReadQuoted(s[2..]))
    else if s[1] == '"' then Prepend('"', ReadQuoted(s[2..]))
    else if s[1] == 'n' then Prepend('\n', ReadQuoted(s[2..]))
    else None
  }

  function Prepend(c: char, r: Option<(string, string)>): Option<(string, string)> {
    if r.None? then None else Some(([c] + r.value.0, r.value.1))
  }

  /** Escaping is undone by reading; hence it is injective and leaves no bare quote or newline. */
  lemma {:induction false} QuotedRoundTrip(v: string, rest: string)
    ensures ReadQuoted(EscapeLabelValue(v) + "\"" + rest) == Some((v, rest))
    decreases |v|
  {
    var s := EscapeLabelValue(v) + "\"" + rest;
    if v == [] {
      assert s[1..] == rest;
    } else {
      QuotedRoundTrip(v[1..], rest);
      var tail := EscapeLabelValue(v[1..]) + "\"" + rest;
      assert s == EscapeChar(v[0]) + tail;
      ReadEscaped(v[0], tail);
      assert v == [v[0]] + v[1..];
    }
  }

  lemma ReadEscaped(c: char, tail: string)
    ensures ReadQuoted(EscapeChar(c) + tail) == Prepend(c, ReadQuoted(tail))
  {
    var s := EscapeChar(c) + tail;
    assert s[|EscapeChar(c)|..] == tail;
  }

  lemma EscapeInjective(a: string, b: string)
    requires EscapeLabelValue(a) == EscapeLabelValue(b)
    ensures a == b
  {
    QuotedRoundTrip(a, []);
    QuotedRoundTrip(b, []);
  }

  lemma {:induction false} EscapeNoNewline(v: string)
    ensures '\n' !in EscapeLabelValue(v) && '\n' !in EscapeHelp(v)
    decreases |v|
  {
    if v != [] {
      EscapeNoNewline(v[1..]);
    }
  }

  // ---- numbers

  function DigitChar(d: nat): char
    requires d < 10
  {
    '0' + d as char
  }

  /** `u64` in decimal */
  function Decimal(n: nat): string {
    if n < 10 then [DigitChar(n)] else Decimal(n / 10) + [DigitChar(n % 10)]
  }

  function DecimalValue(s: string): nat {
    if s == [] then 0
    else 10 * DecimalValue(s[..|s| - 1]) + if IsDigit(s[|s| - 1]) then s[|s| - 1] as nat - '0' as nat else 0
  }

  lemma {:induction false} DecimalRoundTrip(n: nat)
    ensures DecimalValue(Decimal(n)) == n
    ensures forall c :: c in Decimal(n) ==> IsDigit(c)
    ensures Decimal(n) != [] && (Decimal(n)[0] == '0' ==> n == 0 && |Decimal(n)| == 1)
  {
    if n < 10 {
      assert DecimalValue([DigitChar(n)][..0]) == 0;
    } else {
      DecimalRoundTrip(n / 10);
      var s := Decimal(n);
      assert s[..|s| - 1] == Decimal(n / 10);
    }
  }

  function NumberText(show: real -> string, x: Number): string {
    match x
    case Count(n) => Decimal(n)
    case Sum(r) => show(r)
  }

  // ---- lines

  function LabelText(l: Label): string {
    l.name + "=\"" + EscapeLabelValue(l.value) + "\""
  }

  function JoinLabels(labels: Labels): string {
    if labels == [] then []
    else if |labels| == 1 then LabelText(labels[0])
    else LabelText(labels[0]) + "," + JoinLabels(labels[1..])
  }

  function LabelsText(labels: Labels): string {
    if labels == [] then [] else "{" + JoinLabels(labels) + "}"
  }

  function LineText(name: string, labels: Labels, value: string): string {
    name + LabelsText(labels) + " " + value
  }

  function Line(name: string, labels: Labels, value: string): string {
    LineText(name, labels, value) + "\n"
  }

  function SampleText(show: real -> string): Sample -> string {
    (x: Sample) => LineText(x.name, x.labels, NumberText(show, x.number))
  }

  function KindText(kind: Kind): string {
    match kind
    case CounterKind => "counter"
    case GaugeKind => "gauge"
    case HistogramKind => "histogram"
  }

  function HelpLine(f: Family): string {
    "# HELP " + f.name + " " + EscapeHelp(f.help)
  }

  function TypeLine(f: Family): string {
    "# TYPE " + f.name + " " + KindText(f.kind)
  }

  function FamilyLines(show: real -> string): Family -> seq<string> {
    (f: Family) => [HelpLine(f), TypeLine(f)] + Map(SampleText(show), FamilySamples(show)(f)) + [""]
  }

  function Document(show: real -> string, families: seq<Family>): seq<string> {
    Flatten(Map(FamilyLines(show), families))
  }

  /** Every line ended by a newline. */
  function Unlines(lines: seq<string>): string {
    if lines == [] then [] else lines[0] + "\n" + Unlines(lines[1..])
  }

  lemma {:induction false} UnlinesConcat(a: seq<string>, b: seq<string>)
    ensures Unlines(a + b) == Unlines(a) + Unlines(b)
    decreases |a|
  {
    if a == [] {
      assert a + b == b;
    } else {
      assert (a + b)[1..] == a[1..] + b;
      UnlinesConcat(a[1..], b);
    }
  }

  lemma UnlinesOne(line: string)
    ensures Unlines([line]) == line + "\n"
  {
    assert [line][1..] == [];
  }

  // ---- the code that prints

  lemma {:induction false} JoinSnoc(labels: Labels, l: Label)
    requires labels != []
    ensures JoinLabels(labels + [l]) == JoinLabels(labels) + "," + LabelText(l)
    decreases |labels|
  {
    var rest := labels[1..];
    assert (labels + [l])[0] == labels[0] && (labels + [l])[1..] == rest + [l];
    if rest == [] {
      assert rest + [l] == [l];
    } else {
      JoinSnoc(rest, l);
      Reassociate(LabelText(labels[0]) + ",", JoinLabels(rest), ",", LabelText(l));
    }
  }

  lemma Reassociate(a: string, b: string, c: string, d: string)
    ensures a + (b + c + d) == a + b + c + d
    ensures a + (b + c) == a + b + c
  {
  }

  /** The label part of a sample, built up label by label. */
  method WriteLabels(labels: Labels) returns (r: string)
    ensures r == JoinLabels(labels)
  {
    r := [];
    for i := 0 to |labels|
      invariant r == JoinLabels(labels[..i])
    {
      assert labels[..i + 1] == labels[..i] + [labels[i]];
      if i != 0 {
        JoinSnoc(labels[..i], labels[i]);
        r := r + ",";
      }
      var escaped := EscapeLabel(labels[i].value);
      var one := labels[i].name + "=\"" + escaped + "\"";
      r := r + one;
    }
    assert labels[..|labels|] == labels;
  }

  method WriteSample(out: string, name: string, labels: Labels, value: string) returns (r: string)
    ensures r == out + Line(name, labels, value)
  {
    var text := name;
    if labels != [] {
      var joined := WriteLabels(labels);
      var braces := "{" + joined + "}";
      text := text + braces;
    } else {
      assert name + [] == name;
    }
    text := text + " " + value;
    text := text + "\n";
    r := out + text;
  }

  /** The lines of samples, one after the other. */
  function SampleLines(show: real -> string, samples: seq<Sample>): string {
    Unlines(Map(SampleText(show), samples))
  }

  lemma OneMoreSample(out: string, show: real -> string, samples: seq<Sample>, x: Sample)
    ensures out + SampleLines(show, samples) + Line(x.name, x.labels, NumberText(show, x.number)) ==
            out + SampleLines(show, samples + [x])
  {
    var text := SampleText(show);
    MapConcat(text, samples, [x]);
    assert Map(text, [x]) == [text(x)];
    UnlinesConcat(Map(text, samples), [text(x)]);
    UnlinesOne(text(x));
    Reassociate(out, SampleLines(show, samples), Line(x.name, x.labels, NumberText(show, x.number)), []);
  }

  lemma NextSample(out: string, show: real -> string, samples: seq<Sample>, i: nat)
    requires i < |samples|
    ensures var x := samples[i];
            out + SampleLines(show, samples[..i]) + Line(x.name, x.labels, NumberText(show, x.number)) ==
            out + SampleLines(show, samples[..i + 1])
  {
    OneMoreSample(out, show, samples[..i], samples[i]);
    PrefixSnoc(samples, i);
  }

  method RenderBuckets(out: string, show: real -> string, name: string, labels: Labels, buckets: seq<(real, u64)>) returns (r: string)
    ensures r == out + SampleLines(show, BucketSamples(show, name, labels, buckets))
  {
    r := out;
    ghost var samples := BucketSamples(show, name, labels, buckets);
    assert samples[..0] == [] && Map(SampleText(show), samples[..0]) == [];
    for i := 0 to |buckets|
      invariant r == out + SampleLines(show, samples[..i])
    {
      NextSample(out, show, samples, i);
      r := WriteSample(r, name + "_bucket", WithBucketBound(labels, show(buckets[i].0)), Decimal(buckets[i].1));
    }
    assert samples[..|buckets|] == samples;
  }

  method RenderSeries(out: string, show: real -> string, name: string, s: Series) returns (r: string)
    ensures r == out + SampleLines(show, SeriesSamples(show, name, s))
  {
    match s
    case Value(labels, value) =>
      assert out + SampleLines(show, []) == out;
      assert [] + SeriesSamples(show, name, s) == SeriesSamples(show, name, s);
      OneMoreSample(out, show, [], Sample(name, labels, Count(value)));
      r := WriteSample(out, name, labels, Decimal(value));
    case Buckets(labels, buckets, sum, count) =>
      var mapped := MapHistogramLabels(labels);
      r := RenderBuckets(out, show, name, mapped, buckets);
      ghost var written := BucketSamples(show, name, mapped, buckets);
      ghost var totals := TotalSamples(name, mapped, sum, count);
      r := RenderTotals(r, show, name, mapped, sum, count);
      SampleLinesConcat(show, written, totals);
      Reassociate(out, SampleLines(show, written), SampleLines(show, totals), []);
  }

  method RenderTotals(out: string, show: real -> string, name: string, labels: Labels, sum: real, count: u64) returns (r: string)
    ensures r == out + SampleLines(show, TotalSamples(name, labels, sum, count))
  {
    ghost var totals := TotalSamples(name, labels, sum, count);
    assert out + SampleLines(show, []) == out;
    OneMoreSample(out, show, [], totals[0]);
    OneMoreSample(out, show, [totals[0]], totals[1]);
    OneMoreSample(out, show, [totals[0], totals[1]], totals[2]);
    assert [] + [totals[0]] == [totals[0]] && [totals[0]] + [totals[1]] == [totals[0], totals[1]];
    assert [totals[0], totals[1]] + [totals[2]] == totals;
    r := WriteSample(out, name + "_bucket", WithBucketBound(labels, INFINITE), Decimal(count));
    r := WriteSample(r, name + "_sum", labels, show(sum));
    r := WriteSample(r, name + "_count", labels, Decimal(count));
  }

  lemma SampleLinesConcat(show: real -> string, a: seq<Sample>, b: seq<Sample>)
    ensures SampleLines(show, a + b) == SampleLines(show, a) + SampleLines(show, b)
  {
    var text := SampleText(show);
    MapConcat(text, a, b);
    UnlinesConcat(Map(text, a), Map(text, b));
  }

  method RenderFamilySamples(out: string, show: real -> string, f: Family) returns (r: string)
    ensures r == out + SampleLines(show, FamilySamples(show)(f))
  {
    r := out;
    ghost var parts := SeriesParts(show, f);
    assert Flatten(parts[..0]) == [] && SampleLines(show, []) == [];
    for i := 0 to |f.series|
      invariant r == out + SampleLines(show, Flatten(parts[..i]))
    {
      FlattenSnoc(parts, i);
      SampleLinesConcat(show, Flatten(parts[..i]), parts[i]);
      Reassociate(out, SampleLines(show, Flatten(parts[..i])), SampleLines(show, parts[i]), []);
      r := RenderSeries(r, show, f.name, f.series[i]);
    }
    assert parts[..|f.series|] == parts;
  }

  lemma FamilyText(show: real -> string, f: Family)
    ensures Unlines(FamilyLines(show)(f)) ==
            HelpLine(f) + "\n" + (TypeLine(f) + "\n") + SampleLines(show, FamilySamples(show)(f)) + "\n"
  {
    var samples := Map(SampleText(show), FamilySamples(show)(f));
    var head := [HelpLine(f), TypeLine(f)];
    UnlinesConcat(head + samples, [""]);
    UnlinesConcat(head, samples);
    UnlinesOne("");
    assert head == [HelpLine(f)] + [TypeLine(f)];
    UnlinesConcat([HelpLine(f)], [TypeLine(f)]);
    UnlinesOne(HelpLine(f));
    UnlinesOne(TypeLine(f));
    assert "" + "\n" == "\n";
  }

  method RenderFamily(show: real -> string, f: Family) returns (r: string)
    ensures r == Unlines(FamilyLines(show)(f))
  {
    var help := EscapeHelpText(f.help);
    var helpLine := "# HELP " + f.name + " " + help;
    var typeLine := "# TYPE " + f.name + " " + KindText(f.kind);
    r := helpLine + "\n" + (typeLine + "\n");
    r := RenderFamilySamples(r, show, f);
    FamilyText(show, f);
    r := r + "\n";
  }

  /** `render_snapshot` prints exactly the lines of the document. */
  method RenderSnapshot(show: real -> string, families: seq<Family>) returns (out: string)
    ensures out == Unlines(Document(show, families))
  {
    out := [];
    ghost var parts := Map(FamilyLines(show), families);
    assert Flatten(parts[..0]) == [];
    for i := 0 to |families|
      invariant out == Unlines(Flatten(parts[..i]))
    {
      FlattenSnoc(parts, i);
      UnlinesConcat(Flatten(parts[..i]), parts[i]);
      var family := RenderFamily(show, families[i]);
      out := out + family;
    }
    assert parts[..|families|] == parts;
  }

  // ---- a reader of the format

  /** A sample as a scraper sees it: the value is still text. */
  datatype Reading = Reading(name: string, labels: Labels, value: string)

  /** The length of the name at the start of `s`. */
  function NameLength(s: string): (n: nat)
    ensures n <= |s|
  {
    if s == [] || !MetricNameChar(s[0]) then 0 else 1 + NameLength(s[1..])
  }

  /** Labels up to the closing brace, and what follows it. */
  function ReadLabels(s: string): Option<(Labels, string)>
    decreases |s|
  {
    var n := NameLength(s);
    if n == 0 || !("=\"" <= s[n..]) then None
    else
      var quoted := ReadQuoted(s[n + 2..]);
      if quoted.None? || quoted.value.1 == [] then None
      else
        var (value, rest) := quoted.value;
        var l := Label(s[..n], value);
        if rest[0] == '}' then Some(([l], rest[1..]))
        else if rest[0] != ',' then None
        else
          var more := ReadLabels(rest[1..]);
          if more.None? then None else Some(([l] + more.value.0, more.value.1))
  }

  function ReadValue(name: string, labels: Labels, s: string): Option<Reading> {
    if s == [] || s[0] != ' ' then None else Some(Reading(name, labels, s[1..]))
  }

  function ReadLine(line: string): Option<Reading> {
    var n := NameLength(line);
    if n == 0 then None
    else if "{" <= line[n..] then
      var labels := ReadLabels(line[n + 1..]);
      if labels.None? then None else ReadValue(line[..n], labels.value.0, labels.value.1)
    else ReadValue(line[..n], [], line[n..])
  }

  /** Blank lines and comments carry no samples. */
  predicate Skipped(line: string) {
    line == [] || line[0] == '#'
  }

  function ReadLines(lines: seq<string>): Option<seq<Reading>> {
    if lines == [] then Some([])
    else if Skipped(lines[0]) then ReadLines(lines[1..])
    else
      var one, more := ReadLine(lines[0]), ReadLines(lines[1..]);
      if one.None? || more.None? then None else Some([one.value] + more.value)
  }

  function Scrape(text: string): Option<seq<Reading>> {
    ReadLines(ProcessPaths.Split(text, '\n'))
  }

  /** What the comments in front of a family say about it. */
  datatype Header = HelpOf(name: string, help: string) | TypeOf(name: string, kind: string)

  function UnescapeHelp(s: string): string {
    if s == [] then []
    else if s[0] == '\\' && |s| > 1 then [if s[1] == 'n' then '\n' else s[1]] + UnescapeHelp(s[2..])
    else [s[0]] + UnescapeHelp(s[1..])
  }

  function ReadHeader(line: string): Option<Header> {
    if |line| < 7 then None
    else
      var rest := line[7..];
      var n := NameLength(rest);
      if n == |rest| || rest[n] != ' ' then None
      else if line[..7] == "# HELP " then Some(HelpOf(rest[..n], UnescapeHelp(rest[n + 1..])))
      else if line[..7] == "# TYPE " then Some(TypeOf(rest[..n], rest[n + 1..]))
      else None
  }

  function ReadHeaders(lines: seq<string>): seq<Header> {
    if lines == [] then [] else AsSeq(ReadHeader(lines[0])) + ReadHeaders(lines[1..])
  }

  function ScrapeHeaders(text: string): seq<Header> {
    ReadHeaders(ProcessPaths.Split(text, '\n'))
  }

  // ---- reading back what was printed

  ghost predicate IsName(name: string) {
    name != [] && forall i :: 0 <= i < |name| ==> MetricNameChar(name[i])
  }

  ghost predicate Readable(x: Sample) {
    IsName(x.name) && forall i :: 0 <= i < |x.labels| ==> IsName(x.labels[i].name)
  }

  function ReadingOf(show: real -> string): Sample -> Reading {
    (x: Sample) => Reading(x.name, x.labels, NumberText(show, x.number))
  }

  lemma {:induction false} NameEnds(name: string, rest: string)
    requires forall i :: 0 <= i < |name| ==> MetricNameChar(name[i])
    requires rest == [] || !MetricNameChar(rest[0])
    ensures NameLength(name + rest) == |name|
    decreases |name|
  {
    if name == [] {
      assert name + rest == rest;
    } else {
      assert (name + rest)[1..] == name[1..] + rest;
      NameEnds(name[1..], rest);
    }
  }

  /** A printed label, followed by whatever comes next, splits into its three parts. */
  lemma LabelSplits(l: Label, rest: string)
    requires IsName(l.name)
    ensures var s := LabelText(l) + rest; var n := |l.name|;
            && NameLength(s) == n && s[..n] == l.name && "=\"" <= s[n..]
            && ReadQuoted(s[n + 2..]) == Some((l.value, rest))
  {
    var tail := EscapeLabelValue(l.value) + "\"" + rest;
    var s := LabelText(l) + rest;
    assert s == l.name + ("=\"" + tail);
    NameEnds(l.name, "=\"" + tail);
    assert s[|l.name| + 2..] == tail;
    QuotedRoundTrip(l.value, rest);
  }

  lemma ReadLastLabel(l: Label, rest: string)
    requires IsName(l.name)
    ensures ReadLabels(LabelText(l) + ("}" + rest)) == Some(([l], rest))
  {
    LabelSplits(l, "}" + rest);
    assert ("}" + rest)[1..] == rest;
  }

  lemma ReadNextLabel(l: Label, tail: string, more: Labels, rest: string)
    requires IsName(l.name) && ReadLabels(tail) == Some((more, rest))
    ensures ReadLabels(LabelText(l) + ("," + tail)) == Some(([l] + more, rest))
  {
    LabelSplits(l, "," + tail);
    assert ("," + tail)[1..] == tail;
  }

  lemma {:induction false} LabelsRoundTrip(labels: Labels, rest: string)
    requires labels != [] && forall i :: 0 <= i < |labels| ==> IsName(labels[i].name)
    ensures ReadLabels(JoinLabels(labels) + ("}" + rest)) == Some((labels, rest))
    decreases |labels|
  {
    var l, more := labels[0], labels[1..];
    assert labels == [l] + more;
    if more == [] {
      assert labels == [l];
      ReadLastLabel(l, rest);
    } else {
      LabelsRoundTrip(more, rest);
      ReadNextLabel(l, JoinLabels(more) + ("}" + rest), more, rest);
      Reassociate3(LabelText(l), ",", JoinLabels(more), "}" + rest);
    }
  }

  lemma Reassociate3(a: string, b: string, c: string, d: string)
    ensures a + (b + (c + d)) == a + b + c + d
  {
  }

  lemma LineWithLabels(name: string, body: string, labels: Labels, rest: string)
    requires IsName(name) && ReadLabels(body) == Some((labels, rest))
    ensures ReadLine(name + ("{" + body)) == ReadValue(name, labels, rest)
  {
    var s, n := name + ("{" + body), |name|;
    NameEnds(name, "{" + body);
    assert s[..n] == name && s[n..] == "{" + body && s[n + 1..] == body;
  }

  lemma LineWithoutLabels(name: string, value: string)
    requires IsName(name)
    ensures ReadLine(name + (" " + value)) == Some(Reading(name, [], value))
  {
    var s, n := name + (" " + value), |name|;
    NameEnds(name, " " + value);
    assert s[..n] == name && s[n..] == " " + value;
    assert (" " + value)[1..] == value;
  }

  lemma LineParts(name: string, joined: string, value: string)
    ensures name + ("{" + joined + "}") + " " + value == name + ("{" + (joined + ("}" + (" " + value))))
    ensures name + [] + " " + value == name + (" " + value)
  {
    Reassociate3("{", joined, "}", " " + value);
    assert name + ("{" + joined + "}") + " " + value == name + ("{" + joined + "}" + (" " + value));
  }

  lemma LineRoundTrip(name: string, labels: Labels, value: string)
    requires IsName(name) && forall i :: 0 <= i < |labels| ==> IsName(labels[i].name)
    ensures ReadLine(LineText(name, labels, value)) == Some(Reading(name, labels, value))
    ensures !Skipped(LineText(name, labels, value))
  {
    LineParts(name, JoinLabels(labels), value);
    assert LineText(name, labels, value)[0] == name[0] && MetricNameChar(name[0]);
    if labels == [] {
      LineWithoutLabels(name, value);
    } else {
      LabelsRoundTrip(labels, " " + value);
      LineWithLabels(name, JoinLabels(labels) + ("}" + (" " + value)), labels, " " + value);
      assert (" " + value)[1..] == value;
    }
  }

  /** Two samples that print alike are alike, value included. */
  lemma LineInjective(show: real -> string, x: Sample, y: Sample)
    requires Readable(x) && Readable(y) && x.number.Count? && y.number.Count?
    requires SampleText(show)(x) == SampleText(show)(y)
    ensures x == y
  {
    LineRoundTrip(x.name, x.labels, NumberText(show, x.number));
    LineRoundTrip(y.name, y.labels, NumberText(show, y.number));
    DecimalRoundTrip(x.number.count);
    DecimalRoundTrip(y.number.count);
  }

  // ---- headers

  /** Escaped help reads back as it was. */
  lemma {:induction false} HelpRoundTrip(help: string)
    ensures UnescapeHelp(EscapeHelp(help)) == help
    decreases |help|
  {
    if help != [] {
      var one, rest := EscapeHelpChar(help[0]), EscapeHelp(help[1..]);
      HelpRoundTrip(help[1..]);
      assert (one + rest)[|one|..] == rest;
      assert help == [help[0]] + help[1..];
    }
  }

  lemma HeaderSplits(start: string, name: string, rest: string)
    requires |start| == 7 && IsName(name)
    ensures var line := start + name + " " + rest;
            && |line| > 7 && line[..7] == start && NameLength(line[7..]) == |name|
            && line[7..][..|name|] == name && line[7..][|name|] == ' ' && line[7..][|name| + 1..] == rest
  {
    var line := start + name + " " + rest;
    assert line[7..] == name + (" " + rest);
    NameEnds(name, " " + rest);
  }

  lemma HeaderRoundTrip(f: Family)
    requires IsName(f.name)
    ensures ReadHeader(HelpLine(f)) == Some(HelpOf(f.name, f.help))
    ensures ReadHeader(TypeLine(f)) == Some(TypeOf(f.name, KindText(f.kind)))
  {
    HeaderSplits("# HELP ", f.name, EscapeHelp(f.help));
    HeaderSplits("# TYPE ", f.name, KindText(f.kind));
    HelpRoundTrip(f.help);
  }

  /** A sample line is no header. */
  lemma SampleIsNoHeader(show: real -> string, x: Sample)
    requires Readable(x)
    ensures ReadHeader(SampleText(show)(x)) == None
  {
    var line := SampleText(show)(x);
    LineRoundTrip(x.name, x.labels, NumberText(show, x.number));
    assert line[0] != '#';
    assert |line| >= 7 ==> line[..7][0] == line[0];
  }

  lemma {:induction false} HeadersConcat(a: seq<string>, b: seq<string>)
    ensures ReadHeaders(a + b) == ReadHeaders(a) + ReadHeaders(b)
    decreases |a|
  {
    if a == [] {
      assert a + b == b;
    } else {
      assert (a + b)[0] == a[0] && (a + b)[1..] == a[1..] + b;
      HeadersConcat(a[1..], b);
    }
  }

  lemma {:induction false} NoHeaders(show: real -> string, samples: seq<Sample>)
    requires forall i :: 0 <= i < |samples| ==> Readable(samples[i])
    ensures ReadHeaders(Map(SampleText(show), samples)) == []
    decreases |samples|
  {
    if samples != [] {
      SampleIsNoHeader(show, samples[0]);
      NoHeaders(show, samples[1..]);
      MapFirst(SampleText(show), samples);
    }
  }

  function HeadersOf(f: Family): seq<Header> {
    [HelpOf(f.name, f.help), TypeOf(f.name, KindText(f.kind))]
  }

  // ---- documents

  ghost predicate OneLine(line: string) {
    '\n' !in line
  }

  lemma {:induction false} SplitUnlines(lines: seq<string>)
    requires forall i :: 0 <= i < |lines| ==> OneLine(lines[i])
    ensures ProcessPaths.Split(Unlines(lines), '\n') == lines + [[]]
    decreases |lines|
  {
    if lines != [] {
      SplitUnlines(lines[1..]);
      ProcessPaths.SplitPart(lines[0], Unlines(lines[1..]), '\n');
      assert lines == [lines[0]] + lines[1..];
    }
  }

  lemma {:induction false} ReadConcat(a: seq<string>, b: seq<string>)
    requires ReadLines(a).Some? && ReadLines(b).Some?
    ensures ReadLines(a + b) == Some(ReadLines(a).value + ReadLines(b).value)
    decreases |a|
  {
    if a == [] {
      assert a + b == b;
      assert ReadLines(a).value + ReadLines(b).value == ReadLines(b).value;
    } else {
      assert (a + b)[0] == a[0] && (a + b)[1..] == a[1..] + b;
      ReadConcat(a[1..], b);
      if !Skipped(a[0]) {
        var one := [ReadLine(a[0]).value];
        assert one + (ReadLines(a[1..]).value + ReadLines(b).value) == one + ReadLines(a[1..]).value + ReadLines(b).value;
      }
    }
  }

  lemma ReadCons(line: string, rest: seq<string>)
    requires !Skipped(line) && ReadLine(line).Some? && ReadLines(rest).Some?
    ensures ReadLines([line] + rest) == Some([ReadLine(line).value] + ReadLines(rest).value)
  {
    assert ([line] + rest)[1..] == rest;
  }

  lemma {:induction false} ReadSamples(show: real -> string, samples: seq<Sample>)
    requires forall i :: 0 <= i < |samples| ==> Readable(samples[i])
    ensures ReadLines(Map(SampleText(show), samples)) == Some(Map(ReadingOf(show), samples))
    decreases |samples|
  {
    var text, reading := SampleText(show), ReadingOf(show);
    if samples == [] {
      assert Map(text, samples) == [] && Map(reading, samples) == [];
    } else {
      var x, rest := samples[0], samples[1..];
      ReadSamples(show, rest);
      LineRoundTrip(x.name, x.labels, NumberText(show, x.number));
      ReadCons(text(x), Map(text, rest));
      MapFirst(text, samples);
      MapFirst(reading, samples);
    }
  }
}
