/** The daemon's metric registry, and why its snapshots suit the exporter. */
module Registry {
  import opened Bytes
  import opened Ordering
  import opened MetricsSchema
  import opened Exposition
  import opened Exporter

  datatype MetricsError = DuplicateLabelName | InvalidName | MissingHelp | InvalidBuckets | MetadataConflict | DuplicateSeries

  /** What a builder hands over. `boundaries` matters to histograms only. */
  datatype Request = Request(kind: Kind, name: string, help: Option<string>, labels: Labels, boundaries: seq<Float>)

  datatype Entry = Entry(labels: Labels, boundaries: seq<Float>)

  datatype RegisteredFamily =
    RegisteredFamily(name: string, help: string, labelNames: seq<string>, kind: Kind, entries: seq<Entry>)

  type SeriesKey = (string, Labels)

  // ---- validators

  ghost predicate GoodBoundaries(b: seq<Float>) {
    && (forall i :: 0 <= i < |b| ==> b[i].Finite?)
    && (forall i, j :: 0 <= i < j < |b| ==> b[i].value < b[j].value)
  }

  /** `validate_unique_label_names`: a repeated name is next to itself once labels are sorted. */
  method UniqueLabelNames(labels: Labels) returns (ok: bool)
    requires Sorted(LabelLe, Whole, labels)
    ensures ok <==> Ascending(labels)
  {
    StrOrder();
    var i := 0;
    while i + 1 < |labels|
      invariant |labels| > 0 ==> i < |labels| && Ascending(labels[..i + 1])
    {
      if labels[i].name == labels[i + 1].name {
        return false;
      }
      AscendingSnoc(labels, i + 1);
      i := i + 1;
    }
    assert labels[..|labels|] == labels;
    return true;
  }

  lemma AscendingSnoc(labels: Labels, n: int)
    requires Sorted(LabelLe, Whole, labels) && 0 < n < |labels|
    requires Ascending(labels[..n]) && labels[n - 1].name != labels[n].name
    ensures Ascending(labels[..n + 1])
  {
    StrOrder();
    var p := labels[..n + 1];
    assert LabelLe(Whole(labels[n - 1]), Whole(labels[n]));
    forall i, j | 0 <= i < j < |p| ensures p[i].name != p[j].name && StrLe(p[i].name, p[j].name) {
      if j < n {
        assert labels[..n][i] == p[i] && labels[..n][j] == p[j];
      } else if i < n - 1 {
        assert labels[..n][i] == p[i] && labels[..n][n - 1] == p[n - 1];
        assert StrLe(p[i].name, p[n - 1].name) && StrLe(p[n - 1].name, p[j].name);
      }
    }
  }

  method ValidBoundaries(b: seq<Float>) returns (ok: bool)
    ensures ok <==> GoodBoundaries(b)
  {
    for i := 0 to |b|
      invariant GoodBoundaries(b[..i])
    {
      if !b[i].Finite? {
        return false;
      }
      if i > 0 {
        assert b[..i][i - 1] == b[i - 1];
        if b[i - 1].value >= b[i].value {
          return false;
        }
      }
      assert b[..i + 1] == b[..i] + [b[i]];
    }
    assert b[..|b|] == b;
    return true;
  }

  /** `label_names`: sorted and without repetition. */
  function LabelNames(labels: Labels): seq<string> {
    Dedup(Sort(StrLe, Whole, Names(labels)))
  }

  function Dedup(s: seq<string>): seq<string> {
    if |s| < 2 then s
    else if s[|s| - 2] == s[|s| - 1] then Dedup(s[..|s| - 1])
    else Dedup(s[..|s| - 1]) + [s[|s| - 1]]
  }

  lemma {:induction false} DedupDistinct(s: seq<string>)
    requires NoDup(s)
    ensures Dedup(s) == s
    decreases |s|
  {
    if |s| >= 2 {
      DedupDistinct(s[..|s| - 1]);
      assert s == s[..|s| - 1] + [s[|s| - 1]];
    }
  }

  /** Labels that passed the checks already list their names in that form. */
  lemma LabelNamesAscending(labels: Labels)
    requires Ascending(labels)
    ensures LabelNames(labels) == Names(labels)
  {
    var names := Names(labels);
    forall i, j | 0 <= i < j < |names| ensures names[i] != names[j] && StrLe(Whole(names[i]), Whole(names[j])) {
      assert names[i] == labels[i].name && names[j] == labels[j].name;
    }
    SortedStays(StrLe, Whole, names);
    DedupDistinct(names);
  }

  // ---- the registry's state

  function EntryLabels(e: Entry): Labels {
    e.labels
  }

  function FamilyNameOf(f: RegisteredFamily): string {
    f.name
  }

  ghost predicate GoodEntry(f: RegisteredFamily, e: Entry) {
    Ascending(e.labels) && Names(e.labels) == f.labelNames && (f.kind == HistogramKind ==> GoodBoundaries(e.boundaries))
  }

  ghost predicate GoodRegistered(f: RegisteredFamily) {
    && IsLegacyMetricName(f.name) && f.help != [] && f.entries != []
    && Distinct(EntryLabels, f.entries)
    && forall i :: 0 <= i < |f.entries| ==> GoodEntry(f, f.entries[i])
  }

  ghost predicate HasSeries(families: seq<RegisteredFamily>, key: SeriesKey) {
    exists i, j :: 0 <= i < |families| && 0 <= j < |families[i].entries| && key == (families[i].name, families[i].entries[j].labels)
  }

  /** One family per name, one entry per label set, and the key set is exactly the entries. */
  ghost predicate Consistent(families: seq<RegisteredFamily>, keys: set<SeriesKey>) {
    && Distinct(FamilyNameOf, families)
    && (forall i :: 0 <= i < |families| ==> GoodRegistered(families[i]))
    && (forall key :: key in keys <==> HasSeries(families, key))
  }

  // ---- when a request is admitted

  ghost predicate Matches(f: RegisteredFamily, q: Request, labels: Labels) {
    f.kind == q.kind && q.help == Some(f.help) && f.labelNames == Names(labels)
  }

  ghost predicate WellFormed(q: Request) {
    && Distinct(NameOf, q.labels) && IsLegacyMetricName(q.name)
    && q.help.Some? && q.help.value != []
    && (q.kind == HistogramKind ==> GoodBoundaries(q.boundaries))
  }

  ghost predicate Admissible(families: seq<RegisteredFamily>, q: Request) {
    var labels := SortLabels(q.labels);
    && WellFormed(q)
    && (forall i :: 0 <= i < |families| && families[i].name == q.name ==> Matches(families[i], q, labels))
    && !HasSeries(families, (q.name, labels))
  }

  /** What a refusal says about the request and the families at the time. */
  ghost predicate Explains(families: seq<RegisteredFamily>, q: Request, e: MetricsError) {
    match e
    case DuplicateLabelName => !Distinct(NameOf, q.labels)
    case InvalidName => !IsLegacyMetricName(q.name)
    case MissingHelp => q.help.None? || q.help.value == []
    case InvalidBuckets => q.kind == HistogramKind && !GoodBoundaries(q.boundaries)
    case MetadataConflict =>
      exists i :: 0 <= i < |families| && families[i].name == q.name && !Matches(families[i], q, SortLabels(q.labels))
    case DuplicateSeries => HasSeries(families, (q.name, SortLabels(q.labels)))
  }

  function NewEntry(q: Request): Entry {
    Entry(SortLabels(q.labels), if q.kind == HistogramKind then q.boundaries else [])
  }

  /** The families with the requested series added at the end of its family. */
  function Added(families: seq<RegisteredFamily>, q: Request): seq<RegisteredFamily>
    requires q.help.Some?
  {
    if families == [] then [RegisteredFamily(q.name, q.help.value, Names(SortLabels(q.labels)), q.kind, [NewEntry(q)])]
    else if families[0].name == q.name then [families[0].(entries := families[0].entries + [NewEntry(q)])] + families[1..]
    else [families[0]] + Added(families[1..], q)
  }

  lemma {:induction false} AddedAt(families: seq<RegisteredFamily>, q: Request, i: int)
    requires q.help.Some? && 0 <= i < |families| && families[i].name == q.name
    requires forall k :: 0 <= k < i ==> families[k].name != q.name
    ensures Added(families, q) == families[i := families[i].(entries := families[i].entries + [NewEntry(q)])]
    decreases i
  {
    if i > 0 {
      AddedAt(families[1..], q, i - 1);
    }
  }

  lemma {:induction false} AddedNew(families: seq<RegisteredFamily>, q: Request)
    requires q.help.Some? && forall k :: 0 <= k < |families| ==> families[k].name != q.name
    ensures Added(families, q) ==
            families + [RegisteredFamily(q.name, q.help.value, Names(SortLabels(q.labels)), q.kind, [NewEntry(q)])]
    decreases |families|
  {
    if families != [] {
      AddedNew(families[1..], q);
    }
  }

  lemma NewEntryIsGood(f: RegisteredFamily, q: Request)
    requires WellFormed(q) && f.kind == q.kind && f.labelNames == Names(SortLabels(q.labels))
    ensures GoodEntry(f, NewEntry(q))
  {
    SortLabelsAscends(q.labels);
  }

  lemma ExtendedFamilyIsGood(f: RegisteredFamily, q: Request)
    requires GoodRegistered(f) && WellFormed(q) && Matches(f, q, SortLabels(q.labels))
    requires forall j :: 0 <= j < |f.entries| ==> f.entries[j].labels != SortLabels(q.labels)
    ensures GoodRegistered(f.(entries := f.entries + [NewEntry(q)]))
  {
    NewEntryIsGood(f, q);
    var g := f.(entries := f.entries + [NewEntry(q)]);
    forall i | 0 <= i < |g.entries| ensures GoodEntry(g, g.entries[i]) {
      if i < |f.entries| {
        assert GoodEntry(f, f.entries[i]);
      }
    }
  }

  lemma AddToFamily(families: seq<RegisteredFamily>, keys: set<SeriesKey>, q: Request, i: int)
    requires Consistent(families, keys) && Admissible(families, q) && 0 <= i < |families| && families[i].name == q.name
    ensures Consistent(families[i := families[i].(entries := families[i].entries + [NewEntry(q)])],
                       keys + {(q.name, SortLabels(q.labels))})
  {
    var f := families[i];
    var g := f.(entries := f.entries + [NewEntry(q)]);
    var after := families[i := g];
    var added := (q.name, SortLabels(q.labels));
    forall j | 0 <= j < |f.entries| ensures f.entries[j].labels != SortLabels(q.labels) {
      assert !HasSeries(families, added);
    }
    ExtendedFamilyIsGood(f, q);
    forall a, b | 0 <= a < b < |after| ensures FamilyNameOf(after[a]) != FamilyNameOf(after[b]) {
      assert FamilyNameOf(families[a]) != FamilyNameOf(families[b]);
    }
    forall key ensures key in keys + {added} <==> HasSeries(after, key) {
      ExtendedKeys(families, i, NewEntry(q), key);
    }
  }

  lemma ExtendedKeys(families: seq<RegisteredFamily>, i: int, e: Entry, key: SeriesKey)
    requires 0 <= i < |families|
    ensures HasSeries(families[i := families[i].(entries := families[i].entries + [e])], key) <==>
            HasSeries(families, key) || key == (families[i].name, e.labels)
  {
    var f := families[i];
    var after := families[i := f.(entries := f.entries + [e])];
    assert after[i].entries[|f.entries|] == e;
    if HasSeries(families, key) {
      var a, b :| 0 <= a < |families| && 0 <= b < |families[a].entries| && key == (families[a].name, families[a].entries[b].labels);
      assert after[a].entries[b] == families[a].entries[b];
    }
    if HasSeries(after, key) {
      var a, b :| 0 <= a < |after| && 0 <= b < |after[a].entries| && key == (after[a].name, after[a].entries[b].labels);
      assert (a == i && b == |f.entries|) || after[a].entries[b] == families[a].entries[b];
    }
  }

  lemma AddNewFamily(families: seq<RegisteredFamily>, keys: set<SeriesKey>, q: Request)
    requires Consistent(families, keys) && Admissible(families, q)
    requires forall k :: 0 <= k < |families| ==> families[k].name != q.name
    ensures Consistent(families + [RegisteredFamily(q.name, q.help.value, Names(SortLabels(q.labels)), q.kind, [NewEntry(q)])],
                       keys + {(q.name, SortLabels(q.labels))})
  {
    var f := RegisteredFamily(q.name, q.help.value, Names(SortLabels(q.labels)), q.kind, [NewEntry(q)]);
    var after, n := families + [f], |families|;
    var added := (q.name, SortLabels(q.labels));
    NewEntryIsGood(f, q);
    forall a, b | 0 <= a < b < |after| ensures FamilyNameOf(after[a]) != FamilyNameOf(after[b]) {
      if b < n {
        assert FamilyNameOf(families[a]) != FamilyNameOf(families[b]);
      }
    }
    forall key ensures key in keys + {added} <==> HasSeries(after, key) {
      AppendedKeys(families, f, NewEntry(q), key);
    }
  }

  lemma AppendedKeys(families: seq<RegisteredFamily>, f: RegisteredFamily, e: Entry, key: SeriesKey)
    requires f.entries == [e]
    ensures HasSeries(families + [f], key) <==> HasSeries(families, key) || key == (f.name, e.labels)
  {
    var after := families + [f];
    assert after[|families|].entries[0] == e;
    if HasSeries(families, key) {
      var a, b :| 0 <= a < |families| && 0 <= b < |families[a].entries| && key == (families[a].name, families[a].entries[b].labels);
      assert after[a] == families[a];
    }
    if HasSeries(after, key) {
      var a, b :| 0 <= a < |after| && 0 <= b < |after[a].entries| && key == (after[a].name, after[a].entries[b].labels);
      assert a < |families| ==> after[a] == families[a];
    }
  }

  class Registry {
    var families: seq<RegisteredFamily>
    var seriesKeys: set<SeriesKey>

    ghost predicate Valid()
      reads this
    {
      Consistent(families, seriesKeys)
    }

    constructor ()
      ensures Valid() && families == []
    {
      families, seriesKeys := [], {};
    }

    /** `validate_family_metadata` */
    method FindFamily(q: Request, help: string, labels: Labels) returns (index: Option<nat>, conflict: bool)
      requires q.help == Some(help) && Ascending(labels)
      ensures index.None? <==> forall k :: 0 <= k < |families| ==> families[k].name != q.name
      ensures index.Some? ==> index.value < |families| && families[index.value].name == q.name
      ensures index.Some? ==> forall k :: 0 <= k < index.value ==> families[k].name != q.name
      ensures conflict <==> index.Some? && !Matches(families[index.value], q, labels)
    {
      var i := 0;
      while i < |families| && families[i].name != q.name
        invariant i <= |families|
        invariant forall k :: 0 <= k < i ==> families[k].name != q.name
      {
        i := i + 1;
      }
      if i == |families| {
        return None, false;
      }
      var f := families[i];
      LabelNamesAscending(labels);
      return Some(i), !(f.kind == q.kind && f.help == help && f.labelNames == LabelNames(labels));
    }

    /** The checks that need no lock. */
    method Prepare(q: Request) returns (error: Option<MetricsError>, labels: Labels)
      ensures labels == SortLabels(q.labels)
      ensures error.None? <==> WellFormed(q)
      ensures error.Some? ==> Explains([], q, error.value)
      ensures error.None? ==> Ascending(labels)
    {
      labels := SortLabels(q.labels);
      LabelOrder();
      SortSorts(LabelLe, Whole, q.labels);
      SortKeeps(LabelLe, Whole, q.labels);
      var unique := UniqueLabelNames(labels);
      if !unique {
        if Distinct(NameOf, q.labels) {
          SortLabelsAscends(q.labels);
        }
        return Some(DuplicateLabelName), labels;
      }
      AscendingDistinct(labels);
      DistinctPermutation(NameOf, labels, q.labels);
      if !IsLegacyMetricName(q.name) {
        return Some(InvalidName), labels;
      }
      if q.help.None? || q.help.value == [] {
        return Some(MissingHelp), labels;
      }
      if q.kind == HistogramKind {
        var valid := ValidBoundaries(q.boundaries);
        if !valid {
          return Some(InvalidBuckets), labels;
        }
      }
      return None, labels;
    }

    /** `register_counter`, `register_gauge` and `register_histogram`, which share their steps. */
    method Register(q: Request) returns (error: Option<MetricsError>)
      requires Valid()
      modifies this
      ensures Valid()
      ensures error.None? <==> Admissible(old(families), q)
      ensures error.None? ==> families == Added(old(families), q)
      ensures error.Some? ==> families == old(families) && seriesKeys == old(seriesKeys)
      ensures error.Some? ==> Explains(families, q, error.value)
    {
      var labels;
      error, labels := Prepare(q);
      if error.Some? {
        return;
      }
      var index, conflict := FindFamily(q, q.help.value, labels);
      if conflict {
        return Some(MetadataConflict);
      }
      var key := (q.name, labels);
      if key in seriesKeys {
        return Some(DuplicateSeries);
      }
      OnlyOne(index);
      if index.Some? {
        AddToFamily(families, seriesKeys, q, index.value);
        AddedAt(families, q, index.value);
        families := families[index.value := families[index.value].(entries := families[index.value].entries + [NewEntry(q)])];
      } else {
        AddNewFamily(families, seriesKeys, q);
        AddedNew(families, q);
        LabelNamesAscending(labels);
        families := families + [RegisteredFamily(q.name, q.help.value, LabelNames(labels), q.kind, [NewEntry(q)])];
      }
      seriesKeys := seriesKeys + {key};
    }

    lemma OnlyOne(index: Option<nat>)
      requires Valid()
      ensures index.Some? && index.value < |families| ==>
                forall i :: 0 <= i < |families| && families[i].name == families[index.value].name ==> i == index.value
    {
      if index.Some? && index.value < |families| {
        forall i | 0 <= i < |families| && families[i].name == families[index.value].name ensures i == index.value {
          assert i < index.value ==> FamilyNameOf(families[i]) != FamilyNameOf(families[index.value]);
          assert i > index.value ==> FamilyNameOf(families[index.value]) != FamilyNameOf(families[i]);
        }
      }
    }
  }

  /** What a run of registrations leaves: each adds its series or nothing. */
  ghost function Admitted(requests: seq<Request>): seq<RegisteredFamily>
    decreases |requests|
  {
    if requests == [] then []
    else
      var before, q := Admitted(requests[..|requests| - 1]), requests[|requests| - 1];
      if Admissible(before, q) then Added(before, q) else before
  }

  /** Adding an admissible series keeps the registry consistent. */
  lemma AddedConsistent(families: seq<RegisteredFamily>, keys: set<SeriesKey>, q: Request)
    requires Consistent(families, keys) && Admissible(families, q)
    ensures Consistent(Added(families, q), keys + {(q.name, SortLabels(q.labels))})
  {
    if i :| 0 <= i < |families| && families[i].name == q.name {
      forall k | 0 <= k < i ensures families[k].name != q.name {
        assert FamilyNameOf(families[k]) != FamilyNameOf(families[i]);
      }
      AddedAt(families, q, i);
      AddToFamily(families, keys, q, i);
    } else {
      AddedNew(families, q);
      AddNewFamily(families, keys, q);
    }
  }

  ghost predicate AskedFor(requests: seq<Request>, key: SeriesKey) {
    exists i :: 0 <= i < |requests| && key == (requests[i].name, SortLabels(requests[i].labels))
  }

  /** Whatever is asked for, in whatever order, the registry is consistent and holds nothing else. */
  lemma {:induction false} AdmittedIsConsistent(requests: seq<Request>) returns (keys: set<SeriesKey>)
    ensures Consistent(Admitted(requests), keys)
    ensures forall key :: key in keys ==> AskedFor(requests, key)
    decreases |requests|
  {
    if requests == [] {
      return {};
    }
    var n := |requests| - 1;
    var before, q := Admitted(requests[..n]), requests[n];
    keys := AdmittedIsConsistent(requests[..n]);
    forall key | key in keys ensures AskedFor(requests, key) {
      var i :| 0 <= i < n && key == (requests[..n][i].name, SortLabels(requests[..n][i].labels));
      assert requests[i] == requests[..n][i];
    }
    if Admissible(before, q) {
      AddedConsistent(before, keys, q);
      keys := keys + {(q.name, SortLabels(q.labels))};
    }
  }

  /** Every run of registrations, failures included, leaves a consistent registry. */
  method RegisterAll(requests: seq<Request>) returns (families: seq<RegisteredFamily>, keys: set<SeriesKey>)
    ensures families == Admitted(requests)
    ensures Consistent(families, keys)
    ensures forall key :: key in keys ==> AskedFor(requests, key)
  {
    var registry := new Registry();
    for i := 0 to |requests|
      invariant fresh(registry) && registry.Valid() && registry.families == Admitted(requests[..i])
      invariant forall key :: key in registry.seriesKeys ==> AskedFor(requests[..i], key)
    {
      ghost var before := registry.families;
      var error := registry.Register(requests[i]);
      assert requests[..i + 1][..i] == requests[..i];
      forall key | key in registry.seriesKeys ensures AskedFor(requests[..i + 1], key) {
        SeriesAskedFor(requests, i, before, registry.families, key);
      }
    }
    assert requests[..|requests|] == requests;
    return registry.families, registry.seriesKeys;
  }

  lemma SeriesAskedFor(requests: seq<Request>, i: nat, before: seq<RegisteredFamily>, after: seq<RegisteredFamily>, key: SeriesKey)
    requires i < |requests| && HasSeries(after, key)
    requires after == before || (requests[i].help.Some? && after == Added(before, requests[i]))
    requires HasSeries(before, key) ==> AskedFor(requests[..i], key)
    ensures AskedFor(requests[..i + 1], key)
  {
    if after != before {
      AddedSeries(before, requests[i], key);
    }
    if HasSeries(before, key) {
      var k :| 0 <= k < i && key == (requests[..i][k].name, SortLabels(requests[..i][k].labels));
      assert requests[..i + 1][k] == requests[..i][k];
    } else {
      assert requests[..i + 1][i] == requests[i];
    }
  }

  /** A registration adds its own series and no other. */
  lemma {:induction false} AddedSeries(families: seq<RegisteredFamily>, q: Request, key: SeriesKey)
    requires q.help.Some? && HasSeries(Added(families, q), key)
    ensures HasSeries(families, key) || key == (q.name, SortLabels(q.labels))
    decreases |families|
  {
    var after := Added(families, q);
    var a, b :| 0 <= a < |after| && 0 <= b < |after[a].entries| && key == (after[a].name, after[a].entries[b].labels);
    if families != [] {
      if families[0].name == q.name {
        if a > 0 {
          assert after[a] == families[a];
        } else if b < |families[0].entries| {
          assert after[0].entries[b] == families[0].entries[b];
        }
      } else if a == 0 {
        assert after[0] == families[0];
      } else {
        var rest := families[1..];
        assert after[a] == Added(rest, q)[a - 1];
        AddedSeries(rest, q, key);
        if HasSeries(rest, key) {
          var c, d :| 0 <= c < |rest| && 0 <= d < |rest[c].entries| && key == (rest[c].name, rest[c].entries[d].labels);
          assert families[c + 1] == rest[c];
        }
      }
    }
  }

  // ---- snapshots

  /** What the atomics of one series happen to hold when a snapshot reads them, in whatever
      state concurrent updates have left them. */
  datatype Held = Held(value: u64, counts: nat -> u64, sum: Float, count: u64)

  type Reading = SeriesKey -> Held

  /** The running total of the first `n` raw buckets, wrapping as `u64` addition does. */
  function Wrapped(counts: nat -> u64, n: nat): u64 {
    if n == 0 then 0 else (Wrapped(counts, n - 1) + counts(n - 1)) % TWO_TO_THE_64
  }

  function Exact(counts: nat -> u64, n: nat): nat {
    if n == 0 then 0 else Exact(counts, n - 1) + counts(n - 1)
  }

  function SnapshotBuckets(boundaries: seq<Float>, counts: nat -> u64): (r: seq<(Float, u64)>)
    ensures |r| == |boundaries|
    ensures forall i :: 0 <= i < |r| ==> r[i] == (boundaries[i], Wrapped(counts, i + 1))
  {
    seq(|boundaries|, i requires 0 <= i < |boundaries| => (boundaries[i], Wrapped(counts, i + 1)))
  }

  function SnapshotValues(read: Reading, f: RegisteredFamily): (r: seq<ValueSeries>)
    requires forall i :: 0 <= i < |f.entries| ==> Ascending(f.entries[i].labels)
    ensures |r| == |f.entries|
    ensures forall i :: 0 <= i < |r| ==> r[i] == ValueSeries(f.entries[i].labels, read((f.name, f.entries[i].labels)).value)
  {
    seq(|f.entries|, i requires 0 <= i < |f.entries| => ValueSeries(f.entries[i].labels, read((f.name, f.entries[i].labels)).value))
  }

  function SnapshotHistogram(read: Reading, name: string, e: Entry): HistogramSeries
    requires Ascending(e.labels)
  {
    var held := read((name, e.labels));
    HistogramSeries(e.labels, SnapshotBuckets(e.boundaries, held.counts), held.sum, held.count)
  }

  function SnapshotHistograms(read: Reading, f: RegisteredFamily): (r: seq<HistogramSeries>)
    requires forall i :: 0 <= i < |f.entries| ==> Ascending(f.entries[i].labels)
    ensures |r| == |f.entries|
    ensures forall i :: 0 <= i < |r| ==> r[i] == SnapshotHistogram(read, f.name, f.entries[i])
  {
    seq(|f.entries|, i requires 0 <= i < |f.entries| => SnapshotHistogram(read, f.name, f.entries[i]))
  }

  /** `snapshot_family` */
  function SnapshotFamily(read: Reading, f: RegisteredFamily): MetricFamily
    requires forall i :: 0 <= i < |f.entries| ==> Ascending(f.entries[i].labels)
  {
    match f.kind
    case CounterKind => Counter(f.name, f.help, SnapshotValues(read, f))
    case GaugeKind => Gauge(f.name, f.help, SnapshotValues(read, f))
    case HistogramKind => Histogram(f.name, f.help, SnapshotHistograms(read, f))
  }

  ghost predicate AllAscending(families: seq<RegisteredFamily>) {
    forall i :: 0 <= i < |families| ==> forall j :: 0 <= j < |families[i].entries| ==> Ascending(families[i].entries[j].labels)
  }

  function Snapshot(read: Reading, families: seq<RegisteredFamily>): (r: MetricsSnapshot)
    requires AllAscending(families)
    ensures r.schema == 1 && |r.metrics| == |families|
    ensures forall i :: 0 <= i < |families| ==> r.metrics[i] == SnapshotFamily(read, families[i])
  {
    MetricsSnapshot(1, seq(|families|, i requires 0 <= i < |families| => SnapshotFamily(read, families[i])))
  }

  lemma ConsistentAscends(families: seq<RegisteredFamily>, keys: set<SeriesKey>)
    requires Consistent(families, keys)
    ensures AllAscending(families)
  {
    forall i, j | 0 <= i < |families| && 0 <= j < |families[i].entries| ensures Ascending(families[i].entries[j].labels) {
      assert GoodRegistered(families[i]);
      assert GoodEntry(families[i], families[i].entries[j]);
    }
  }

  // ---- what the exporter asks beyond what the registry checks

  ghost predicate LegalNames(f: RegisteredFamily) {
    forall i :: 0 <= i < |f.labelNames| ==> IsLegacyLabelName(f.labelNames[i])
  }

  /** A histogram whose sum is a number and whose bucket counts add up within 64 bits. */
  ghost predicate Representable(read: Reading, f: RegisteredFamily, e: Entry) {
    var held := read((f.name, e.labels));
    held.sum.Finite? && Exact(held.counts, |e.boundaries|) < TWO_TO_THE_64
  }

  ghost predicate Suitable(read: Reading, f: RegisteredFamily) {
    && LegalNames(f)
    && RepresentableFamily(read, f)
  }

  ghost predicate RepresentableFamily(read: Reading, f: RegisteredFamily) {
    f.kind == HistogramKind ==> forall i :: 0 <= i < |f.entries| ==> Representable(read, f, f.entries[i])
  }

  ghost predicate AllRepresentable(read: Reading, families: seq<RegisteredFamily>) {
    forall i :: 0 <= i < |families| ==> RepresentableFamily(read, families[i])
  }

  ghost predicate AllSuitable(read: Reading, families: seq<RegisteredFamily>) {
    forall i :: 0 <= i < |families| ==> Suitable(read, families[i])
  }

  ghost predicate NoSuffixCollision(families: seq<RegisteredFamily>) {
    forall i, j, suffix :: 0 <= i < |families| && 0 <= j < |families| && families[i].kind == HistogramKind && suffix in SUFFIXES ==>
      families[i].name + suffix != families[j].name
  }

  lemma {:induction false} ExactGrows(counts: nat -> u64, m: nat, n: nat)
    requires m <= n
    ensures Exact(counts, m) <= Exact(counts, n)
    decreases n
  {
    if m < n {
      ExactGrows(counts, m, n - 1);
    }
  }

  lemma {:induction false} WrappedIsExact(counts: nat -> u64, n: nat)
    requires Exact(counts, n) < TWO_TO_THE_64
    ensures Wrapped(counts, n) == Exact(counts, n)
    decreases n
  {
    if n > 0 {
      WrappedIsExact(counts, n - 1);
    }
  }

  /** The first overflow makes the running total fall. */
  lemma {:induction false} WrapFalls(counts: nat -> u64, n: nat) returns (i: nat)
    requires Exact(counts, n) >= TWO_TO_THE_64
    ensures 0 < i < n && Wrapped(counts, i) > Wrapped(counts, i + 1)
    decreases n
  {
    if Exact(counts, n - 1) >= TWO_TO_THE_64 {
      i := WrapFalls(counts, n - 1);
    } else {
      WrappedIsExact(counts, n - 1);
      i := n - 1;
    }
  }

  lemma TotalsRise(counts: nat -> u64, n: nat, i: nat, j: nat)
    requires Exact(counts, n) < TWO_TO_THE_64 && i <= j <= n
    ensures Wrapped(counts, i) <= Wrapped(counts, j)
  {
    ExactGrows(counts, i, j);
    ExactGrows(counts, j, n);
    WrappedIsExact(counts, i);
    WrappedIsExact(counts, j);
  }

  /** Cumulative buckets never fall exactly when they never overflow. */
  lemma CumulativeIffNoWrap(boundaries: seq<Float>, counts: nat -> u64)
    requires GoodBoundaries(boundaries)
    ensures Cumulative(SnapshotBuckets(boundaries, counts)) <==> Exact(counts, |boundaries|) < TWO_TO_THE_64
  {
    var b, n := SnapshotBuckets(boundaries, counts), |boundaries|;
    if Exact(counts, n) < TWO_TO_THE_64 {
      forall i, j | 0 <= i < j < n ensures b[i].0.value < b[j].0.value && b[i].1 <= b[j].1 {
        TotalsRise(counts, n, i + 1, j + 1);
      }
    } else {
      var i := WrapFalls(counts, n);
      assert b[i - 1].1 > b[i].1;
    }
  }

  lemma NamesAreLegal(f: RegisteredFamily, labels: Labels)
    requires Names(labels) == f.labelNames
    ensures LegalLabels(labels) <==> LegalNames(f)
  {
    assert |Names(labels)| == |labels|;
    assert forall i :: 0 <= i < |labels| ==> f.labelNames[i] == labels[i].name;
  }

  lemma SnapshotLabelsets(read: Reading, f: RegisteredFamily)
    requires GoodRegistered(f) && forall i :: 0 <= i < |f.entries| ==> Ascending(f.entries[i].labels)
    ensures Labelsets(SnapshotFamily(read, f)) == Map(EntryLabels, f.entries)
  {
  }

  /** A registered family is good for the exporter exactly when it is suitable. */
  lemma SnapshotGoodIffSuitable(read: Reading, f: RegisteredFamily)
    requires GoodRegistered(f) && forall i :: 0 <= i < |f.entries| ==> Ascending(f.entries[i].labels)
    ensures GoodFamily(SnapshotFamily(read, f)) <==> Suitable(read, f)
  {
    var g := SnapshotFamily(read, f);
    var sets := Labelsets(g);
    SnapshotLabelsets(read, f);
    forall i | 0 <= i < |f.entries|
      ensures sets[i] == f.entries[i].labels && Names(sets[i]) == f.labelNames && (LegalLabels(sets[i]) <==> LegalNames(f))
    {
      assert GoodEntry(f, f.entries[i]);
      NamesAreLegal(f, f.entries[i].labels);
    }
    assert NoDup(sets) by {
      forall i, j | 0 <= i < j < |sets| ensures sets[i] != sets[j] {
        assert EntryLabels(f.entries[i]) != EntryLabels(f.entries[j]);
      }
    }
    assert SameNames(sets);
    assert sets[0] in sets;
    assert (forall labels :: labels in sets ==> LegalLabels(labels)) <==> LegalNames(f);
    if f.kind == HistogramKind {
      HistogramsGoodIffRepresentable(read, f);
    }
  }

  lemma HistogramsGoodIffRepresentable(read: Reading, f: RegisteredFamily)
    requires GoodRegistered(f) && f.kind == HistogramKind
    requires forall i :: 0 <= i < |f.entries| ==> Ascending(f.entries[i].labels)
    ensures (forall s :: s in SnapshotHistograms(read, f) ==> GoodHistogram(s)) <==>
            (forall i :: 0 <= i < |f.entries| ==> Representable(read, f, f.entries[i]))
  {
    var series := SnapshotHistograms(read, f);
    forall i | 0 <= i < |f.entries| ensures series[i] in series && (GoodHistogram(series[i]) <==> Representable(read, f, f.entries[i])) {
      assert GoodEntry(f, f.entries[i]);
      CumulativeIffNoWrap(f.entries[i].boundaries, read((f.name, f.entries[i].labels)).counts);
    }
  }

  lemma CollisionsAgree(read: Reading, families: seq<RegisteredFamily>)
    requires AllAscending(families)
    ensures ClashFree(Snapshot(read, families).metrics) <==> NoSuffixCollision(families)
  {
    var metrics := Snapshot(read, families).metrics;
    assert forall i :: 0 <= i < |families| ==> metrics[i].name == families[i].name && metrics[i] in metrics
                                               && (metrics[i].Histogram? <==> families[i].kind == HistogramKind);
    if NoSuffixCollision(families) {
      forall f, g, suffix | f in metrics && g in metrics && f.Histogram? && suffix in SUFFIXES
        ensures f.name + suffix != g.name
      {
        var i :| 0 <= i < |metrics| && metrics[i] == f;
        var j :| 0 <= j < |metrics| && metrics[j] == g;
      }
    } else {
      var i, j, suffix :| 0 <= i < |families| && 0 <= j < |families| && families[i].kind == HistogramKind && suffix in SUFFIXES
                          && families[i].name + suffix == families[j].name;
      assert metrics[i].name + suffix == metrics[j].name;
    }
  }

  lemma AllGoodIffAllSuitable(read: Reading, families: seq<RegisteredFamily>)
    requires AllAscending(families) && forall i :: 0 <= i < |families| ==> GoodRegistered(families[i])
    ensures (forall f :: f in Snapshot(read, families).metrics ==> GoodFamily(f)) <==>
            AllSuitable(read, families)
  {
    var metrics := Snapshot(read, families).metrics;
    forall i | 0 <= i < |families| ensures metrics[i] in metrics && (GoodFamily(metrics[i]) <==> Suitable(read, families[i])) {
      SnapshotGoodIffSuitable(read, families[i]);
    }
  }

  lemma SnapshotNamesDistinct(read: Reading, families: seq<RegisteredFamily>)
    requires AllAscending(families) && Distinct(FamilyNameOf, families)
    ensures Distinct(WireName, Snapshot(read, families).metrics)
  {
    var metrics := Snapshot(read, families).metrics;
    forall i, j | 0 <= i < j < |metrics| ensures WireName(metrics[i]) != WireName(metrics[j]) {
      assert FamilyNameOf(families[i]) != FamilyNameOf(families[j]);
    }
  }

  /** Whatever a snapshot happens to read, the exporter accepts it exactly when label names are
      legal, sums are finite, no bucket total overflows and no histogram name collides. */
  lemma SnapshotAcceptedIffSuitable(read: Reading, families: seq<RegisteredFamily>, keys: set<SeriesKey>)
    requires Consistent(families, keys)
    ensures AllAscending(families)
    ensures Acceptable(Snapshot(read, families)) <==> AllSuitable(read, families) && NoSuffixCollision(families)
  {
    ConsistentAscends(families, keys);
    CollisionsAgree(read, families);
    AllGoodIffAllSuitable(read, families);
    SnapshotNamesDistinct(read, families);
  }

  // ---- what is registered stays, as it was asked for

  ghost predicate Keeps(f: RegisteredFamily, e: Entry, q: Request) {
    && f.name == q.name && f.kind == q.kind && q.help == Some(f.help)
    && Ascending(e.labels) && Elements(e.labels) == Elements(q.labels)
    && (q.kind == HistogramKind ==> e.boundaries == q.boundaries)
  }

  ghost predicate KeptAt(families: seq<RegisteredFamily>, q: Request, i: int, j: int) {
    0 <= i < |families| && 0 <= j < |families[i].entries| && Keeps(families[i], families[i].entries[j], q)
  }

  ghost predicate Kept(families: seq<RegisteredFamily>, q: Request) {
    exists i, j :: KeptAt(families, q, i, j)
  }

  /** Where a new series goes: to the first family of its name, or into a new one at the end. */
  lemma {:induction false} AddedWhere(families: seq<RegisteredFamily>, q: Request) returns (i: nat)
    requires q.help.Some?
    ensures i <= |families| && |Added(families, q)| == if i < |families| then |families| else |families| + 1
    ensures forall k :: 0 <= k < |families| && k != i ==> Added(families, q)[k] == families[k]
    ensures i < |families| ==>
              families[i].name == q.name && Added(families, q)[i] == families[i].(entries := families[i].entries + [NewEntry(q)])
    ensures i == |families| ==>
              Added(families, q)[i] == RegisteredFamily(q.name, q.help.value, Names(SortLabels(q.labels)), q.kind, [NewEntry(q)])
    decreases |families|
  {
    if families == [] || families[0].name == q.name {
      i := 0;
    } else {
      i := AddedWhere(families[1..], q);
      i := i + 1;
    }
  }

  lemma NewEntryKeeps(q: Request)
    requires WellFormed(q)
    ensures Ascending(NewEntry(q).labels) && Elements(NewEntry(q).labels) == Elements(q.labels)
    ensures q.kind == HistogramKind ==> NewEntry(q).boundaries == q.boundaries
  {
    SortLabelsAscends(q.labels);
    SameLength(SortLabels(q.labels), q.labels);
    SameLength(q.labels, SortLabels(q.labels));
  }

  lemma AddedIsKept(families: seq<RegisteredFamily>, q: Request)
    requires Admissible(families, q)
    ensures Kept(Added(families, q), q)
  {
    var i := AddedWhere(families, q);
    NewEntryKeeps(q);
    var f := Added(families, q)[i];
    assert f.entries[|f.entries| - 1] == NewEntry(q);
    assert KeptAt(Added(families, q), q, i, |f.entries| - 1);
  }

  lemma OthersAreKept(families: seq<RegisteredFamily>, p: Request, q: Request)
    requires p.help.Some? && Kept(families, q)
    ensures Kept(Added(families, p), q)
  {
    var i, j :| KeptAt(families, q, i, j);
    var k := AddedWhere(families, p);
    assert KeptAt(Added(families, p), q, i, j);
  }

  ghost predicate WasAdmitted(requests: seq<Request>, k: int) {
    0 <= k < |requests| && Admissible(Admitted(requests[..k]), requests[k])
  }

  /** An admitted request is kept under its own name, help, labels and boundaries, whatever is
      registered later. */
  lemma {:induction false} AdmittedStays(requests: seq<Request>, k: nat)
    requires WasAdmitted(requests, k)
    ensures Kept(Admitted(requests), requests[k])
    decreases |requests|
  {
    var n := |requests| - 1;
    if k == n {
      AddedIsKept(Admitted(requests[..n]), requests[n]);
    } else {
      assert requests[..n][..k] == requests[..k] && requests[..n][k] == requests[k];
      AdmittedStays(requests[..n], k);
      if Admissible(Admitted(requests[..n]), requests[n]) {
        OthersAreKept(Admitted(requests[..n]), requests[n], requests[k]);
      }
    }
  }

  /** And nothing else is kept. */
  lemma {:induction false} EntryWasAdmitted(requests: seq<Request>, i: nat, j: nat) returns (k: nat)
    requires i < |Admitted(requests)| && j < |Admitted(requests)[i].entries|
    ensures WasAdmitted(requests, k) && KeptAt(Admitted(requests), requests[k], i, j)
    decreases |requests|
  {
    var n := |requests| - 1;
    var before, q := Admitted(requests[..n]), requests[n];
    if Admissible(before, q) {
      var w := AddedWhere(before, q);
      if i == w && j == |Admitted(requests)[i].entries| - 1 {
        NewEntryKeeps(q);
        return n;
      }
    }
    k := EntryWasAdmitted(requests[..n], i, j);
    assert requests[..n][..k] == requests[..k] && requests[..n][k] == requests[k];
  }

  // ---- what a snapshot reports of a request

  lemma {:induction false} WrappedIsMod(counts: nat -> u64, n: nat)
    ensures Wrapped(counts, n) == Exact(counts, n) % TWO_TO_THE_64
    decreases n
  {
    if n > 0 {
      WrappedIsMod(counts, n - 1);
      ModAdd(Exact(counts, n - 1), counts(n - 1));
    }
  }

  lemma ModAdd(a: nat, b: u64)
    ensures (a % TWO_TO_THE_64 + b) % TWO_TO_THE_64 == (a + b) % TWO_TO_THE_64
  {
  }

  /** The series reports exactly what was read: its own boundaries with running totals, its own
      sum and count. */
  ghost predicate ReportsHistogram(read: Reading, q: Request, s: HistogramSeries) {
    var held := read((q.name, s.labels));
    && Elements(s.labels) == Elements(q.labels)
    && s.sum == held.sum && s.count == held.count
    && |s.buckets| == |q.boundaries|
    && forall i :: 0 <= i < |q.boundaries| ==>
         s.buckets[i].0 == q.boundaries[i] && s.buckets[i].1 == Exact(held.counts, i + 1) % TWO_TO_THE_64
  }

  ghost predicate ReportsValue(read: Reading, q: Request, s: ValueSeries) {
    Elements(s.labels) == Elements(q.labels) && s.value == read((q.name, s.labels)).value
  }

  /** The family is named, described and typed as asked for and has a series that reports. */
  ghost predicate ReportedIn(read: Reading, q: Request, f: MetricFamily) {
    && f.name == q.name && Some(f.help) == q.help
    && match q.kind
       case CounterKind => f.Counter? && exists s :: s in f.series && ReportsValue(read, q, s)
       case GaugeKind => f.Gauge? && exists s :: s in f.series && ReportsValue(read, q, s)
       case HistogramKind => f.Histogram? && exists s :: s in f.histograms && ReportsHistogram(read, q, s)
  }

  ghost predicate Reported(read: Reading, metrics: seq<MetricFamily>, q: Request) {
    exists f :: f in metrics && ReportedIn(read, q, f)
  }

  lemma KeptIsReported(read: Reading, f: RegisteredFamily, q: Request, j: int)
    requires forall i :: 0 <= i < |f.entries| ==> Ascending(f.entries[i].labels)
    requires 0 <= j < |f.entries| && Keeps(f, f.entries[j], q)
    ensures ReportedIn(read, q, SnapshotFamily(read, f))
  {
    if q.kind == HistogramKind {
      var s := SnapshotHistograms(read, f)[j];
      var counts := read((q.name, s.labels)).counts;
      forall i | 0 <= i < |q.boundaries| ensures s.buckets[i].1 == Exact(counts, i + 1) % TWO_TO_THE_64 {
        WrappedIsMod(counts, i + 1);
      }
      assert s in SnapshotFamily(read, f).histograms && ReportsHistogram(read, q, s);
    } else {
      var s := SnapshotValues(read, f)[j];
      assert s in SnapshotFamily(read, f).series && ReportsValue(read, q, s);
    }
  }

  /** Every admitted request is reported by every snapshot taken after any later registrations. */
  lemma AdmittedIsReported(requests: seq<Request>, read: Reading, k: nat)
    requires WasAdmitted(requests, k) && AllAscending(Admitted(requests))
    ensures Reported(read, Snapshot(read, Admitted(requests)).metrics, requests[k])
  {
    var families := Admitted(requests);
    AdmittedStays(requests, k);
    var i, j :| KeptAt(families, requests[k], i, j);
    KeptIsReported(read, families[i], requests[k], j);
    assert Snapshot(read, families).metrics[i] == SnapshotFamily(read, families[i]);
  }

  // ---- from registrations to the exporter

  /** Any run of registrations, then a snapshot at any moment, then the exporter. */
  method ExportRegistry(requests: seq<Request>, read: Reading) returns (r: Exporter.Result<seq<Family>>)
    ensures r.Ok? <==> AllSuitable(read, Admitted(requests)) && NoSuffixCollision(Admitted(requests))
    ensures Careful(requests) ==> (r.Ok? <==> AllRepresentable(read, Admitted(requests)))
  {
    var families, keys := RegisterAll(requests);
    if Careful(requests) {
      CarefulIsLegal(requests);
    }
    SnapshotAcceptedIffSuitable(read, families, keys);
    r := ParseSnapshot(Snapshot(read, families));
  }

  ghost predicate ComesFrom(f: RegisteredFamily, q: Request) {
    q.name == f.name && q.kind == f.kind && f.labelNames == Names(SortLabels(q.labels))
  }

  lemma {:induction false} AddedComesFrom(families: seq<RegisteredFamily>, q: Request, i: nat)
    requires q.help.Some? && i < |Added(families, q)|
    ensures ComesFrom(Added(families, q)[i], q) ||
            (i < |families| && forall p :: ComesFrom(families[i], p) ==> ComesFrom(Added(families, q)[i], p))
    decreases |families|
  {
    if families != [] && families[0].name != q.name && i > 0 {
      AddedComesFrom(families[1..], q, i - 1);
    }
  }

  /** Every registered family was asked for. */
  lemma {:induction false} AdmittedComesFrom(requests: seq<Request>, i: nat) returns (k: nat)
    requires i < |Admitted(requests)|
    ensures k < |requests| && ComesFrom(Admitted(requests)[i], requests[k])
    decreases |requests|
  {
    var n := |requests| - 1;
    var before, q := Admitted(requests[..n]), requests[n];
    if Admissible(before, q) {
      AddedComesFrom(before, q, i);
      if ComesFrom(Added(before, q)[i], q) {
        return n;
      }
    }
    k := AdmittedComesFrom(requests[..n], i);
  }

  /** What callers can see to when they register: label names the exporter knows, and no name
      that a histogram of theirs uses for its samples. */
  ghost predicate Careful(requests: seq<Request>) {
    && (forall k :: 0 <= k < |requests| ==> LegalLabels(requests[k].labels))
    && (forall k, l, suffix :: 0 <= k < |requests| && 0 <= l < |requests| && requests[k].kind == HistogramKind && suffix in SUFFIXES ==>
          requests[k].name + suffix != requests[l].name)
  }

  lemma SortedStaysLegal(labels: Labels)
    requires LegalLabels(labels)
    ensures LegalLabels(SortLabels(labels))
  {
    SortKeeps(LabelLe, Whole, labels);
    SameLength(SortLabels(labels), labels);
    forall i | 0 <= i < |SortLabels(labels)| ensures IsLegacyLabelName(SortLabels(labels)[i].name) {
      assert SortLabels(labels)[i] in labels;
    }
  }

  /** Careful registrations leave only the numbers to go wrong. */
  lemma CarefulIsLegal(requests: seq<Request>)
    requires Careful(requests)
    ensures NoSuffixCollision(Admitted(requests))
    ensures forall i :: 0 <= i < |Admitted(requests)| ==> LegalNames(Admitted(requests)[i])
  {
    var families := Admitted(requests);
    forall i | 0 <= i < |families| ensures LegalNames(families[i]) {
      var k := AdmittedComesFrom(requests, i);
      SortedStaysLegal(requests[k].labels);
      NamesAreLegal(families[i], SortLabels(requests[k].labels));
    }
    forall i, j, suffix | 0 <= i < |families| && 0 <= j < |families| && families[i].kind == HistogramKind && suffix in SUFFIXES
      ensures families[i].name + suffix != families[j].name
    {
      var k := AdmittedComesFrom(requests, i);
      var l := AdmittedComesFrom(requests, j);
    }
  }

  // ---- registrations that the exporter rejects

  function Plain(kind: Kind, name: string, labels: Labels): Request {
    Request(kind, name, Some("h"), labels, [])
  }

  const RESERVED: seq<Request> := [Plain(CounterKind, "a", [Label("__x", "v")])]

  const COLLIDING: seq<Request> := [Plain(HistogramKind, "a", []), Plain(CounterKind, "a_sum", [])]

  lemma FirstAdmitted(q: Request)
    requires WellFormed(q)
    ensures Admitted([q]) == [RegisteredFamily(q.name, q.help.value, Names(SortLabels(q.labels)), q.kind, [NewEntry(q)])]
  {
    assert [q][..0] == [];
    assert Admitted([]) == [];
    assert Admissible([], q);
  }

  /** A label name that starts with two underscores can be registered, not exported. */
  lemma ReservedLabelIsRejected(read: Reading)
    ensures |Admitted(RESERVED)| == |RESERVED| && !AllSuitable(read, Admitted(RESERVED))
  {
    var labels := [Label("__x", "v")];
    SortAscending(labels);
    FirstAdmitted(RESERVED[0]);
    assert "__" <= "__x";
    assert Names(labels)[0] == "__x";
    assert !LegalNames(Admitted(RESERVED)[0]);
  }

  /** A histogram and a counter named like its sum can be registered together, not exported. */
  lemma SuffixCollisionIsRejected()
    ensures |Admitted(COLLIDING)| == |COLLIDING| && !NoSuffixCollision(Admitted(COLLIDING))
  {
    var h, c := COLLIDING[0], COLLIDING[1];
    FirstAdmitted(h);
    var before := Admitted([h]);
    assert COLLIDING[..1] == [h];
    assert !HasSeries(before, (c.name, SortLabels(c.labels)));
    assert Admissible(before, c);
    AddedNew(before, c);
    var families := Admitted(COLLIDING);
    assert "_sum" == SUFFIXES[1] && "_sum" in SUFFIXES;
    assert families[0].name + "_sum" == families[1].name;
  }

  /** Neither is exported, whatever the metrics hold. */
  method ExportRejected(read: Reading) returns (reserved: Exporter.Result<seq<Family>>, colliding: Exporter.Result<seq<Family>>)
    ensures reserved.Err? && colliding.Err?
  {
    ReservedLabelIsRejected(read);
    SuffixCollisionIsRejected();
    reserved := ExportRegistry(RESERVED, read);
    colliding := ExportRegistry(COLLIDING, read);
  }
}
