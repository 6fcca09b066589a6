# Limpid: verified models

Dafny models of the parts of limpid whose behaviour is an algorithm rather than plumbing, with
proofs of what the code and its documentation promise. `dafny verify dfyconfig.toml` checks
everything. Nothing here executes limpid.

The main results:

- **Control pipe** (`RequestWire`, `ControlPipe`, `PipeListener`). Whatever way the stream fragments, stalls
  or fails, the reader has a prefix of what the writer accepted, and reports a clean end only after a shutdown
  with everything delivered; a call that does not complete passes on what an inner call answered, and if none
  stalls everything is accepted and the end is reached. The blocking client writes the same format; a broken
  write is never taken for a complete request. The listener never drops a connected client and hands each out
  once.
- **Include loader** (`IncludeGraph`, `IncludeLoader`, `IncludeOrder`). Loading succeeds if and only if the
  reachable graph is sound, acyclic, declares each identity at most once, and the first route to each file, in
  include order, is within the depth cap. Success collects every reachable file exactly once; every error is
  justified by the graph. The same include edges can load in one order and be too deep in another.
- **Prometheus exporter** (`MetricsSchema`, `ProcessPaths`, `Exposition`, `OwnDrops`, `HistogramLabels`,
  `Exporter`, `Canonical`, `Samples`, `TextFormat`, `Readings`, `Scraping`). Exactly the acceptable snapshots
  are accepted; the text is independent of family and series order; a reader of the text format gets back
  every number of the snapshot under its own name and labels, with help and types, and nothing else; no two
  samples share an identity and no two families a name, each with one exactly characterised exception; own
  drops are conserved exactly when nothing is clamped.
- **Registry and histogram** (`Registry`, `Publishing`, `Delivery`, `HistogramRace`). Any run of registrations
  keeps the registry consistent and every admitted metric as it was asked for, up to the text that a scraper
  reads, and the exporter accepts a snapshot of it, read at any moment, under an exact condition. Batched
  merging is invisible; under every interleaving no addition is lost, a snapshot lies between what was held at
  its start and at its end with a skew bounded by the updates in flight, an undisturbed one is exact, and
  nobody waits for anybody.
- **LTP frames** (`LtpFrame`), **shutdown latch** (`ShutdownLatch`), **snippet inventory** (`TextSearch`,
  `MarkedRegions`, `CallScan`). Exact, prefix-free framing; a latch that loses no work done while observed;
  region rewriting that is idempotent, order-independent and keeps every byte outside the regions; a call scan
  that is right about every line exactly when the name hides no call in itself.

`Bytes` and `Ordering` hold big-endian lengths, total orders, sorting and facts about rearranged sequences.

## Model

| member | source | states |
|---|---|---|
| `RequestWire.ScanConcat` | crates/limpid-windows/src/request.rs:39-75 | reading a wire in two chunks is reading it in one: fragmentation is invisible to the decoder |
| `RequestWire.ScanPrefix` | crates/limpid-windows/src/request.rs:29-77 | on any prefix of any well-formed wire the decoder holds a prefix of the data, meets no oversized block, and is at END exactly when the whole closed wire was read |
| `RequestWire.EndToEnd` | crates/limpid-windows/src/request.rs:1-2 | the same from the start of the stream: delivered is a prefix of what was encoded, and all of it once the whole encoding was read |
| `RequestWire.EncodeAppend` | crates/limpid-windows/src/request.rs:124-129 | one more accepted block extends the wire by its encoding and the data by its bytes |
| `RequestWire.EncodeEnd` | crates/limpid-windows/src/request.rs:140-143 | shutdown extends the wire by one zero-length block |
| `RequestWire.WireDeterminesData` | crates/limpid-windows/src/request.rs:1-2 | two encodings that agree on the wire carry the same bytes and the same END |
| `Bytes.Be32Orders` | crates/limpid-windows/src/request.rs:124-127 | lengths are encoded big-endian: the order of the bytes is the order of the lengths |
| `RequestWire.EndIsLast` | crates/limpid-windows/src/request.rs:39-60 | the length field that turns out to be END was completed by the last byte consumed |
| `ControlPipe.Writer.Drain` | crates/limpid-windows/src/request.rs:98-111 | wire plus buffer stay the encoding of the accepted blocks; a completed drain has everything on the wire; any other ends with the answer of the inner write of what is left |
| `ControlPipe.Writer.PollWrite` | crates/limpid-windows/src/request.rs:114-131 | a completed write accepts exactly the first 65536 bytes at most, as one block, after all before it is on the wire; a pending or failed one accepts nothing and passes on an inner answer; with an empty buffer it completes without an inner call; after shutdown it is BrokenPipe |
| `ControlPipe.Writer.PollFlush` | crates/limpid-windows/src/request.rs:132-136 | a completed flush has all accepted blocks on the wire and flushed the stream; any other passes on an inner answer |
| `ControlPipe.Writer.PollShutdown` | crates/limpid-windows/src/request.rs:137-146 | END is encoded once however often shutdown is retried; completed means the closed encoding is on the wire and flushed; anything else passes on an inner answer |
| `ControlPipe.FirstBlockIsLongest` | crates/limpid-windows/src/request.rs:124-130 | the block of a write is the longest beginning of at most 65536 bytes |
| `ControlPipe.Reader.PollRead` | crates/limpid-windows/src/request.rs:30-76 | the fields always equal the scan of the bytes consumed; the last inner read decides the answer: its bytes are returned as they are, Pending and errors are passed on, no bytes are UnexpectedEof; END, and only END, is zero bytes and nothing after it is consumed; an oversized block is rejected; no more is asked for than fits buffer and block |
| `ControlPipe.Reader.FillHeader` | crates/limpid-windows/src/request.rs:39-62 | filling the length field in any number of reads gives the state of the byte-wise scan |
| `ControlPipe.Reader.ReadData` | crates/limpid-windows/src/request.rs:63-75 | a read inside a data block stays inside it, and delivers exactly what it consumed |
| `ControlPipe.Client.Write` | crates/limpid-windows/src/pipe.rs:199-215 | the wire is always a prefix of the encoding of the blocks written, missing something exactly when poisoned; it fails only if a write to the file broke off; a poisoned or ended client writes nothing |
| `ControlPipe.Client.Shutdown` | crates/limpid-windows/src/pipe.rs:176-191 | success means the closed encoding is on the wire, once; a broken END poisons, and it fails for no other reason |
| `ControlPipe.Converse` | crates/limpid-windows/src/request.rs:29-147 | for every schedule of polls and every outcome of every inner call: delivered is a prefix of accepted, end of stream is reported only after a shutdown with delivered equal to accepted and nothing left unread, no frame is ever rejected; if no inner call stalls or fails, every write before shutdown is accepted, and one read more than there are bytes after a shutdown reaches the end |
| `ControlPipe.ConverseBlocking` | crates/limpid-windows/src/pipe.rs:176-219 | the same for the blocking client: a reader may see the beginning of a block whose write broke off but never takes it for a complete request; without failures the same is accepted and the end is reached as soon |
| `PipeListener.StepInv` | crates/limpid-windows/src/pipe.rs:78-91 | one step of connects, accepts, failures and cancellation keeps every created instance owned or handed out, never both |
| `PipeListener.RunInv` | crates/limpid-windows/src/pipe.rs:57-92 | so does every run; at most two instances are pending and the spare exists whenever a connection is awaited |
| `PipeListener.ConnectedIsKept` | crates/limpid-windows/src/pipe.rs:59-61 | a connected client is at every later moment either held or handed out, exactly once |
| `PipeListener.AcceptsServeBoth` | crates/limpid-windows/src/pipe.rs:82-90 | from any state of any run an undisturbed accept serves a waiting client and the next one the client of the former spare |
| `PipeListener.ServesNewClient` | crates/limpid-windows/src/pipe.rs:82-90 | a client that connects to the accepting instance is the next one handed out |
| `PipeListener.LockIsFreed` | crates/limpid-windows/src/pipe.rs:78-91 | whatever an accept waits for, it can end and free the lock |
| `IncludeLoader.IncludeState.LoadRecursive` | crates/limpid/src/config.rs:117-152 | success restores `loading`, extends the source map by files reachable within the cap and returns exactly their content, each completed file having been entered in time; every error names a real defect of the graph, a depth error a first route above the cap; recursion ends by cycle detection alone |
| `IncludeLoader.IncludeState.LoadText` | crates/limpid/src/config.rs:153-220 | a parsed file is loading while its includes are loaded, and complete afterwards with all of them complete before it |
| `IncludeLoader.IncludeState.LoadPatterns` | crates/limpid/src/config.rs:163-193 | every pattern matched something and every match is loaded, or the error is justified |
| `IncludeLoader.IncludeState.LoadTargets` | crates/limpid/src/config.rs:195-214 | every file a pattern matched is loaded and permitted, or the error is justified |
| `IncludeLoader.IncludeState.LoadTarget` | crates/limpid/src/config.rs:196-213 | a nested load extends the collection, or two different files clash over an identity field |
| `IncludeLoader.Merge` | crates/limpid/src/config.rs:202-213 | merging fails exactly when both sides declare the same identity field |
| `IncludeLoader.LoadConfig` | crates/limpid/src/config.rs:245-251 | success if and only if the reachable graph is loadable and every file is first come to within the cap; without chains above the cap that is loadability alone; on success every reachable file is collected exactly once and completion order is topological |
| `IncludeLoader.JustifiedRefutes` | crates/limpid/src/config.rs:124-215 | each error other than the depth cap refutes loadability |
| `IncludeLoader.OneDeclarer` | crates/limpid/src/config.rs:202-211 | a merged identity field has at most one declaring file |
| `IncludeLoader.EntryIsFirst` | crates/limpid/src/config.rs:135-153 | when the loader enters a file, the route it took is the first route to that file in include order |
| `IncludeLoader.EnteredInTime` | crates/limpid/src/config.rs:124-130 | if every completed file was entered in time, no first route is above the cap |
| `IncludeGraph.FirstRouteUnique` | crates/limpid/src/config.rs:163-201 | a file has at most one first route |
| `IncludeGraph.ShortChainsSuffice` | crates/limpid/src/config.rs:124-130 | without chains above the cap every first route is within it |
| `IncludeOrder.DownEntries` | crates/limpid/src/config.rs:163-201 | with the deepest file included first, every file is entered directly, however long the chains |
| `IncludeOrder.UpOverruns` | crates/limpid/src/config.rs:124-130 | with the order reversed, the first routes exceed the cap |
| `IncludeOrder.LoadLadders` | crates/limpid/src/config.rs:245-251 | two trees with the same include edges and chains above the cap: one loads, the other is too deep |
| `IncludeGraph.ChainDescends` | crates/limpid/src/config.rs:217-218 | an include chain descends the completion order by at least one place per edge |
| `IncludeGraph.TopologicalIsAcyclic` | crates/limpid/src/config.rs:135-140 | a graph with a completion order has no reachable cycle |
| `IncludeGraph.ReachableIsOrdered` | crates/limpid/src/config.rs:141-152 | everything reachable from a completed file is completed |
| `Exporter.ParseSnapshot` | crates/limpid-prometheus/src/main.rs:293-382 | accepts exactly the acceptable snapshots, produces the canonical families, and every error names a defect of the snapshot and where it is |
| `Exporter.ParseFamily` | crates/limpid-prometheus/src/main.rs:311-374 | a family is accepted exactly when it is good, and becomes its sorted exposition |
| `Exporter.ParseLabels` | crates/limpid-prometheus/src/main.rs:506-518 | accepted exactly when every name is legal; the final sort changes nothing |
| `Exporter.MetricNameGrammar` | crates/limpid-prometheus/src/main.rs:526-532 | the grammar of metric names |
| `Exporter.LabelNameGrammar` | crates/limpid-prometheus/src/main.rs:538-545 | the grammar of label names, with the reserved prefix |
| `Exporter.ParseBuckets` | crates/limpid-prometheus/src/main.rs:547-568 | accepted exactly when bounds are finite and strictly increasing and counts never fall; which error is returned is justified |
| `Exporter.CheckLabelsets` | crates/limpid-prometheus/src/main.rs:348-366 | accepted exactly when no label set repeats and all use one label-name set |
| `Exporter.ValidateExportedLabelsets` | crates/limpid-prometheus/src/main.rs:466-484 | accepted exactly when the exported label sets differ pairwise |
| `Exporter.ExportedStayDistinct` | crates/limpid-prometheus/src/main.rs:466-484 | the duplicate-exported-labelset error can never fire after the earlier checks |
| `Exporter.ValidateHistogramNamespaces` | crates/limpid-prometheus/src/main.rs:486-504 | accepted exactly when no histogram sample name is declared |
| `Exporter.NamespacesAgree` | crates/limpid-prometheus/src/main.rs:486-504 | the loop over exposed families decides the collision property of the snapshot |
| `Exporter.DefectIsUnacceptable` | crates/limpid-prometheus/src/main.rs:285-292 | a snapshot with any of the reported defects is not acceptable |
| `Exporter.SourceIsUnique` | crates/limpid-prometheus/src/main.rs:385-387 | the family found first is the only one of that name |
| `HistogramLabels.ShiftInjective` | crates/limpid-prometheus/src/main.rs:628-656 | the `le` shift is injective on names and never yields `le` |
| `HistogramLabels.MappedFreesLe` | crates/limpid-prometheus/src/main.rs:636-656 | mapped labels are again sorted with distinct names, and `le` is free |
| `HistogramLabels.MappedInjective` | crates/limpid-prometheus/src/main.rs:636-656 | within one label-name set the mapping never merges two label sets |
| `HistogramLabels.BoundInjective` | crates/limpid-prometheus/src/main.rs:658-663 | bound and labels can be read back from bucket labels |
| `HistogramLabels.MappedIsRelabelled` | crates/limpid-prometheus/src/main.rs:636-656 | with `le` present each name of the chain `le`, `le_`, ... gets one more underscore and every other label stays; without it nothing changes |
| `HistogramLabels.BoundIsAdded` | crates/limpid-prometheus/src/main.rs:658-663 | bucket labels are the labels and the bound |
| `OwnDrops.IndexHolders` | crates/limpid-prometheus/src/main.rs:399-423 | the two index maps hold the last series at each place of the hierarchy |
| `OwnDrops.FindParent` | crates/limpid-prometheus/src/main.rs:433-446 | looking a series up by its parent key finds the holder of the parent's place |
| `OwnDrops.DeriveOwn` | crates/limpid-prometheus/src/main.rs:425-450 | each own value is the total less the totals of all direct children, not below zero, whatever their order |
| `OwnDrops.DeriveDroppedOwn` | crates/limpid-prometheus/src/main.rs:384-458 | derived from the first family of the name if it is a counter, otherwise nothing |
| `OwnDrops.KeysAreTheTree` | crates/limpid-metrics-schema/src/lib.rs:49-53 | key lookup finds exactly the direct children: one path part more and, below the root, agreement on every label but path and name; at the root, on the pipeline |
| `OwnDrops.ParentIndexIsParent` | crates/limpid-prometheus/src/main.rs:433-446 | a total is subtracted from the last listed of the series it is a direct child of, and from none if there is none |
| `OwnDrops.DimensionsAgree` | crates/limpid-prometheus/src/main.rs:391-397 | dimensions are equal exactly when all labels but path and name agree |
| `OwnDrops.OwnIsTotalLessChildren` | crates/limpid-prometheus/src/main.rs:425-450 | with one series per place the own value is the total less the totals of exactly the direct children, not below zero |
| `OwnDrops.Conservation` | crates/limpid-prometheus/src/main.rs:425-450 | own drops sum to the drops of parentless nodes plus what was clamped |
| `OwnDrops.ConservedIffUnclamped` | crates/limpid-prometheus/src/main.rs:447-449 | the sum is conserved if and only if no node is smaller than its children |
| `ProcessPaths.PathOfParts` | crates/limpid-metrics-schema/src/lib.rs:55-62 | rooted paths over non-empty, slash-free parts are process paths |
| `ProcessPaths.PartsOfPath` | crates/limpid-metrics-schema/src/lib.rs:55-62 | every process path is such a path |
| `ProcessPaths.ParentOfPath` | crates/limpid-metrics-schema/src/lib.rs:29-47 | parent and leaf undo appending a part |
| `ProcessPaths.DirectChildIsOnePartMore` | crates/limpid-metrics-schema/src/lib.rs:49-53 | the string test holds if and only if the child has one part more |
| `Canonical.SameFamilyGood` | crates/limpid-prometheus/src/main.rs:317-374 | reordering series does not change whether a family is accepted |
| `Canonical.SameFamilyExpose` | crates/limpid-prometheus/src/main.rs:368-374 | reordering series does not change what it becomes |
| `Canonical.SortedListsAgree` | crates/limpid-prometheus/src/main.rs:376-380 | the derived family does not disturb the sorted order, even under a repeated name |
| `Canonical.CanonicalExposition` | crates/limpid-prometheus/src/main.rs:285-292 | reordering families and series changes neither acceptance nor result |
| `Samples.SeriesDistinct` | crates/limpid-prometheus/src/main.rs:586-620 | the bucket, `+Inf`, sum and count samples of one series differ pairwise, if the bounds of that series print differently and none as `+Inf` |
| `Samples.FamilyDistinct` | crates/limpid-prometheus/src/main.rs:581-622 | so do all samples of one family |
| `Samples.DeclaredApart` | crates/limpid-prometheus/src/main.rs:486-504 | samples of two declared families never coincide |
| `Samples.DerivedApart` | crates/limpid-prometheus/src/main.rs:377-379 | samples of the derived family coincide with no other unless the snapshot declares that family |
| `Samples.SamplesAreUnique` | crates/limpid-prometheus/src/main.rs:293-382 | for any printing that tells the bounds of each series apart: no two samples share name and label set, if and only if the snapshot does not itself declare the derived family, as plain values, with a label set of the hierarchy |
| `Samples.ClashIsAccepted` | crates/limpid-prometheus/src/main.rs:376-380 | a snapshot for which uniqueness fails is accepted |
| `Samples.FamilyNamesDistinct` | crates/limpid-prometheus/src/main.rs:376-380 | no two exposed families share a name, so a name gets one HELP and one TYPE line, if and only if the snapshot does not declare the derived family beside the hierarchy |
| `TextFormat.EscapeLabel` | crates/limpid-prometheus/src/main.rs:693-704 | the loop computes the escaped value |
| `TextFormat.EscapeHelpText` | crates/limpid-prometheus/src/main.rs:680-690 | the loop computes the escaped help text |
| `TextFormat.QuotedRoundTrip` | crates/limpid-prometheus/src/main.rs:692-704 | reading a quoted value undoes escaping |
| `TextFormat.EscapeInjective` | crates/limpid-prometheus/src/main.rs:692-704 | escaping is injective |
| `TextFormat.EscapeNoNewline` | crates/limpid-prometheus/src/main.rs:680-704 | escaped text has no raw newline |
| `TextFormat.DecimalRoundTrip` | crates/limpid-prometheus/src/main.rs:677-677 | a printed integer reads back as itself |
| `TextFormat.HelpRoundTrip` | crates/limpid-prometheus/src/main.rs:680-690 | escaped help reads back as it was |
| `TextFormat.HeaderRoundTrip` | crates/limpid-prometheus/src/main.rs:574-580 | HELP and TYPE lines read back as name, help and type |
| `TextFormat.WriteSample` | crates/limpid-prometheus/src/main.rs:665-678 | appends exactly one line for the sample |
| `TextFormat.RenderSeries` | crates/limpid-prometheus/src/main.rs:582-621 | appends exactly the lines of the samples of the series |
| `TextFormat.RenderFamily` | crates/limpid-prometheus/src/main.rs:573-623 | comments, samples and a blank line |
| `TextFormat.RenderSnapshot` | crates/limpid-prometheus/src/main.rs:570-626 | the text is the document of all families |
| `TextFormat.LineRoundTrip` | crates/limpid-prometheus/src/main.rs:665-678 | a reader of the text format 0.0.4 gets name, labels and value back from the line |
| `TextFormat.LineInjective` | crates/limpid-prometheus/src/main.rs:665-678 | integer samples that print alike are equal |
| `Scraping.ScrapeRoundTrip` | crates/limpid-prometheus/src/main.rs:570-626 | a scraper reads exactly the samples from the whole text, in order, if sums print without a newline |
| `Readings.ReadingsComplete` | crates/limpid-prometheus/src/main.rs:293-382 | each counter and gauge value, each bucket, sum and count of an acceptable snapshot is read under its own name and labels, each own-drops value as total less children, and every reading is one of these |
| `Scraping.HeadersRoundTrip` | crates/limpid-prometheus/src/main.rs:571-580 | a scraper reads help and type of every exposed family, in order |
| `Scraping.HeadersDescribe` | crates/limpid-prometheus/src/main.rs:571-580 | these are help and type of the snapshot's families and of the derived one |
| `Scraping.ExposedSorted` | crates/limpid-prometheus/src/main.rs:376-380 | families are exposed in the order of their names, series in the order of their labels |
| `Scraping.Translate` | crates/limpid-prometheus/src/main.rs:223-228 | acceptance, justified rejection, the text as the document of the exposed families, complete read-back of the snapshot's own numbers, help and types, and uniqueness of identities and family names |
| `Scraping.TextReadsBack` | crates/limpid-prometheus/src/main.rs:570-626 | the text of an accepted snapshot reads back to its samples, without repetition under the exact conditions |
| `Scraping.TranslateBoth` | crates/limpid-prometheus/src/main.rs:285-292 | two translations of rearranged snapshots succeed together, with the same text |
| `Scraping.PrinterExists` | crates/limpid-prometheus/src/main.rs:586-618 | every snapshot has a printing of numbers that meets the assumptions on printing |
| `Scraping.TextIsCanonical` | crates/limpid-prometheus/src/main.rs:285-292 | reordering families and series changes no byte of the text |
| `Registry.UniqueLabelNames` | crates/limpid/src/metrics.rs:1246-1259 | comparing neighbours of sorted labels finds every repeated name |
| `Registry.ValidBoundaries` | crates/limpid/src/metrics.rs:1261-1276 | true exactly for finite, strictly increasing boundaries |
| `Registry.LabelNamesAscending` | crates/limpid/src/metrics.rs:1278-1283 | sorting and deduplicating changes nothing once the label checks passed |
| `Registry.Registry.FindFamily` | crates/limpid/src/metrics.rs:1310-1341 | finds the first family of the name and reports a conflict exactly when kind, help or label names differ |
| `Registry.Registry.Prepare` | crates/limpid/src/metrics.rs:1080-1090 | the checks before the lock pass exactly for well-formed requests |
| `Registry.Registry.Register` | crates/limpid/src/metrics.rs:983-1121 | succeeds exactly when admissible, then adds exactly this series; a failure changes nothing and its error holds of the request; the invariant is kept |
| `Registry.AddToFamily` | crates/limpid/src/metrics.rs:1100-1107 | adding to a family keeps the registry consistent |
| `Registry.AddNewFamily` | crates/limpid/src/metrics.rs:1108-1119 | so does adding a family |
| `Registry.AddedSeries` | crates/limpid/src/metrics.rs:1347-1364 | a registration adds its own series and no other |
| `Registry.AdmittedIsConsistent` | crates/limpid/src/metrics.rs:938-942 | whatever is registered in whatever order, failures included, families and label sets are unique, the key set is exactly the stored series, and nothing is held that was not asked for |
| `Registry.RegisterAll` | crates/limpid/src/metrics.rs:938-942 | every sequence of registrations, failures included, leaves a consistent registry holding exactly what the admissible requests add |
| `Registry.AdmittedStays` | crates/limpid/src/metrics.rs:1092-1119 | an admitted request keeps its entry, with its own name, kind, help, labels and boundaries, whatever is registered later |
| `Registry.EntryWasAdmitted` | crates/limpid/src/metrics.rs:1092-1119 | every entry is that of an admitted request |
| `Registry.AdmittedIsReported` | crates/limpid/src/metrics.rs:1380-1419 | every later snapshot reports it: the value read, or its own boundaries with the running totals, the sum and the count read |
| `Registry.CumulativeIffNoWrap` | crates/limpid/src/metrics.rs:1398-1408 | cumulative buckets never fall if and only if their exact sum fits 64 bits |
| `Registry.SnapshotGoodIffSuitable` | crates/limpid/src/metrics.rs:1380-1419 | a snapshotted family suits the exporter exactly when names, sums and totals do |
| `Registry.SnapshotAcceptedIffSuitable` | crates/limpid/src/metrics.rs:974-981 | whatever the atomics hold, the exporter accepts the snapshot of a consistent registry if and only if label names are legal, sums finite, no total overflows and no histogram name collides |
| `Registry.ExportRegistry` | crates/limpid/src/metrics.rs:974-1121 | any run of registrations, a snapshot at any moment, then the exporter: accepted exactly under that condition; if callers kept to legal label names and free sample names, exactly when sums are finite and totals fit |
| `Registry.AdmittedComesFrom` | crates/limpid/src/metrics.rs:1092-1119 | every registered family has name, kind and label names of some request |
| `Registry.CarefulIsLegal` | crates/limpid/src/metrics.rs:1241-1259 | requests with legal label names and no colliding sample names leave only the numbers to go wrong |
| `Registry.ReservedLabelIsRejected` | crates/limpid/src/metrics.rs:1246-1259 | a reserved label name can be registered and is never exported |
| `Registry.SuffixCollisionIsRejected` | crates/limpid/src/metrics.rs:1285-1294 | a histogram and a counter named like its sum can be registered together and are never exported |
| `Registry.ExportRejected` | crates/limpid-prometheus/src/main.rs:293-382 | the exporter returns an error for both |
| `Publishing.Publish` | crates/limpid/src/metrics.rs:938-981 | from registrations through a snapshot and the exporter to the text: every admitted metric is read by a scraper with the numbers that the snapshot got |
| `Delivery.TallyConcat` | crates/limpid/src/metrics.rs:852-874 | the tally of two bursts is the sum of their tallies |
| `Delivery.Position` | crates/limpid/src/metrics.rs:828-834 | finds the first boundary not below the value |
| `Delivery.DeliveryDelta.Record` | crates/limpid/src/metrics.rs:59-70 | the delta is the tally of the burst so far |
| `Delivery.DeliveryMetrics.Observe` | crates/limpid/src/metrics.rs:610-620 | one observation extends the tally by one |
| `Delivery.DeliveryMetrics.Merge` | crates/limpid/src/metrics.rs:625-635 | one merge extends the tally by the burst |
| `Delivery.ObserveSingly` | crates/limpid/src/metrics.rs:827-850 | observing one by one gives the tally |
| `Delivery.ObserveInBursts` | crates/limpid/src/metrics.rs:47-75 | recording in bursts and merging each once gives the same tally for every split |
| `HistogramRace.StepInv` | crates/limpid/src/metrics.rs:827-874 | every atomic step keeps buckets, count and sum equal to what the updates have added |
| `HistogramRace.AlwaysAccounted` | crates/limpid/src/metrics.rs:811-818 | so does every interleaving: no compare-and-swap loses an addition |
| `HistogramRace.BooksBalance` | crates/limpid/src/metrics.rs:852-859 | bucket hits exceed the count by no more than what is in flight |
| `HistogramRace.SnapshotSkew` | crates/limpid/src/metrics.rs:1397-1415 | the sum and the count of a snapshot were held at moments of it, and its last bucket exceeds the count by at most the updates between bucket and count at that moment |
| `HistogramRace.SnapshotBounds` | crates/limpid/src/metrics.rs:1397-1415 | each cumulative bucket and the count lie between what was held when the snapshot began and when it was done, and buckets never fall |
| `HistogramRace.SnapshotExact` | crates/limpid/src/metrics.rs:1397-1415 | a snapshot that no update disturbs reports exactly the buckets, count and sum held |
| `HistogramRace.HitsPlusAbove` | crates/limpid/src/metrics.rs:828-835 | every observation is in one bucket or above all boundaries |
| `HistogramRace.QuiescentIsTally` | crates/limpid/src/metrics.rs:826-874 | when all updates are complete the histogram is the tally of all observations, and count less the last bucket is those above the top boundary |
| `HistogramRace.QuiescentSnapshot` | crates/limpid/src/metrics.rs:1397-1415 | a snapshot taken then reports the tally of all observations, the top bucket short of the count by those above the top boundary |
| `HistogramRace.FinishesAlone` | crates/limpid/src/metrics.rs:827-874 | from any state an update can complete by its own steps alone |
| `HistogramRace.SnapshotAlone` | crates/limpid/src/metrics.rs:1397-1415 | so can a snapshot |
| `LtpFrame.EncodeFrame` | crates/limpid/src/ltp.rs:100-118 | encodes exactly when both parts are within their limits, otherwise names the one that is not |
| `LtpFrame.RoundTrip` | crates/limpid/src/ltp.rs:92-172 | decoding an encoded frame returns its inputs; with bytes after it, it is Trailing |
| `LtpFrame.PrefixIsTruncated` | crates/limpid/src/ltp.rs:120-165 | every proper prefix of a frame is Truncated |
| `LtpFrame.AcceptedIsFrame` | crates/limpid/src/ltp.rs:120-172 | an accepted buffer is exactly the frame of its own metadata and payload |
| `LtpFrame.PrefixFree` | crates/limpid/src/ltp.rs:163-168 | no accepted frame is a proper prefix of another |
| `LtpFrame.ErrorIsDiagnosis` | crates/limpid/src/ltp.rs:120-172 | every error but Truncated is returned exactly for the buffers it fits: wrong magic, version, a length above its limit, bytes after a frame, a frame whose metadata does not decode |
| `ShutdownLatch.StepInv` | crates/limpid/src/shutdown_progress.rs:21-56 | every atomic step keeps the latch in agreement with the observable log |
| `ShutdownLatch.AlwaysLawful` | crates/limpid/src/shutdown_progress.rs:18-56 | so does every interleaving |
| `ShutdownLatch.LogPromises` | crates/limpid/src/shutdown_progress.rs:13-14 | a lawful log reports exactly the won marks: each success follows a mark won since, each won mark is reported by the next call, nothing follows a drop |
| `ShutdownLatch.EveryRunKeepsPromises` | crates/limpid/src/shutdown_progress.rs:18-56 | the same of every interleaving of marks and observer calls |
| `ShutdownLatch.MarkIsNotLost` | crates/limpid/src/shutdown_progress.rs:19-27 | a mark that ends while shutdown is observed, by whatever step, is reported by the next take |
| `ShutdownLatch.UndisturbedMarkWins` | crates/limpid/src/shutdown_progress.rs:19-27 | a mark that nothing disturbs wins on an active latch and the next take reports it, once |
| `ShutdownLatch.QuietTakes` | crates/limpid/src/shutdown_progress.rs:29-56 | a take without a mark reports nothing; begin activates an idle latch; drop closes it |
| `ShutdownLatch.ClosedIsFinal` | crates/limpid/src/shutdown_progress.rs:51-56 | a closed latch stays closed and silent |
| `ShutdownLatch.EarlyMarksAreForgotten` | crates/limpid/src/shutdown_progress.rs:29-37 | before `begin` no mark leaves a trace |
| `TextSearch.Find` | crates/xtask/src/inventory.rs:379-386 | the first occurrence at or after a position, or none |
| `MarkedRegions.ReplaceMarkedRegion` | crates/xtask/src/inventory.rs:376-397 | succeeds exactly when both tags are found in order, and replaces only what is between them |
| `MarkedRegions.SpliceIs` | crates/xtask/src/inventory.rs:388-396 | between the tags go a line break, the generated text and, unless it ends a line, another |
| `MarkedRegions.OwnRegion` | crates/xtask/src/inventory.rs:388-396 | the replaced region is found again around the new text |
| `MarkedRegions.OtherRegion` | crates/xtask/src/inventory.rs:376-397 | every other region is found again, moved with the text |
| `MarkedRegions.IdempotentIffEndFree` | crates/xtask/src/inventory.rs:372-375 | replacing twice is replacing once if and only if the new text has no END tag of the marker |
| `MarkedRegions.Commute` | crates/xtask/src/gen_snippet_inventory.rs:61-71 | replacements of disjoint regions commute |
| `MarkedRegions.StaysReady` | crates/xtask/src/gen_snippet_inventory.rs:61-71 | regions stay found and disjoint |
| `MarkedRegions.LastRegenerationWins` | crates/xtask/src/gen_snippet_inventory.rs:61-71 | regenerating over any earlier regeneration gives the same text as regenerating once, so regeneration is idempotent |
| `MarkedRegions.OutsideIsKept` | crates/xtask/src/gen_snippet_inventory.rs:61-71 | the regenerated text is the old one, byte for byte, outside the regions, with the blocks between the tags |
| `MarkedRegions.FromTheEnd` | crates/xtask/src/inventory.rs:388-396 | replacing regions from the last to the first assembles that text |
| `MarkedRegions.NoNewRegion` | crates/xtask/src/inventory.rs:376-397 | generated text without tags creates no region |
| `MarkedRegions.FoundIffTagged` | crates/xtask/src/inventory.rs:379-386 | for regions that do not touch and blocks without tags, all replacements succeed exactly when every marker has its tags in the original text |
| `MarkedRegions.OrderIsIrrelevant` | crates/xtask/src/gen_snippet_inventory.rs:63-71 | the order of the markers does not matter |
| `MarkedRegions.Regenerate` | crates/xtask/src/gen_snippet_inventory.rs:61-71 | the loop computes the regeneration, and succeeds exactly when each region is found in turn; for separate regions and blocks without tags, exactly when every marker has its tags |
| `MarkedRegions.RunCommand` | crates/xtask/src/gen_snippet_inventory.rs:73-94 | for every text and block: `--check` passes exactly when all regions are found and regeneration changes nothing, and writes nothing; otherwise the regeneration is written exactly when all regions are found |
| `MarkedRegions.WriteThenCheck` | crates/xtask/src/gen_snippet_inventory.rs:10-13 | `--check` right after a write always passes |
| `CallScan.OverlapNeedsParenthesis` | crates/xtask/src/inventory.rs:269-284 | matches of `name(` overlap only if the name has a parenthesis |
| `CallScan.ContainsCall` | crates/xtask/src/inventory.rs:265-287 | the skip-ahead loop ends and never reports a call that is not there; for every name that hides no call in itself, identifiers among them, it finds a call exactly when there is one |
| `CallScan.ScanIsExactIff` | crates/xtask/src/inventory.rs:265-287 | the scan is right about every line if and only if the name hides no call in itself |
| `CallScan.HiddenCallIsMissed` | crates/xtask/src/inventory.rs:269-284 | a line on which a name that hides a call is overlooked |
| `CallScan.IdentifierHidesNothing` | crates/xtask/src/inventory.rs:269-284 | names without a parenthesis hide nothing |
| `CallScan.ScanFile` | crates/xtask/src/inventory.rs:237-263 | true exactly when the scan finds a call on some body line that is no comment and not the declaration; for names that hide no call, exactly when there is such a call |
| `CallScan.FileCallsIffSomeLine` | crates/xtask/src/inventory.rs:240-263 | skipping the header never loses a call: a file calls exactly when some line that is no comment and not the declaration has one |
| `CallScan.DeriveUsedBy` | crates/xtask/src/inventory.rs:219-235 | exactly the files found to call the function, in path order; for names that hide no call, exactly the calling files |

## Left out

- Sockets, HTTP, permits, timeouts, async scheduling, file modes and security descriptors: operating-system behaviour. Each poll of `Writer` and `Reader` is one step of a schedule.
- JSON, protobuf, PEM and TLS: library code. `LtpFrame` takes the metadata codec as a parameter with its round-trip law; snapshots are taken after JSON decoding, and only the kind of an error is kept, not its message.
- Floating point: sums, bounds and durations are exact numbers, and the sign of zero is not distinguished. How a number is printed is a parameter: uniqueness asks that the bounds of each series print differently and not as `+Inf`, reading back that sums print without a newline.
- HistogramRace: atomics are interleaved in one order, an idealisation of `Relaxed`, and counters are unbounded; a zero-hit bucket is a step that adds nothing.
- Delivery: counters are unbounded, so wrap-around after 2^64 observations is not modelled; `Registry` does model the wrap-around of a snapshot's cumulative count.
- IncludeLoader: files are keyed by canonical path and include edges depend on that path only; glob expansion, canonicalisation and path permission are inputs.
- Registry.Registry.Register: the three `register_*` functions share their steps and are one method with a kind; handles are read through an arbitrary reading instead of being objects.
- ShutdownLatch and PipeListener: these two components are state machines over their atomic steps and await points rather than classes, because what is proved is about interleavings and cancellation between those steps.
- ControlPipe.Converse: the environment of an untrusted writer is not modelled, so a reader polled again after it rejected an oversized length, which then takes the following bytes as data of that block, is covered by the contract of `ControlPipe.Reader.PollRead` only.
- CallScan: lines are given already split, and paths as components.
- Event workspace, event JSON, pipeline execution, node-key loading, site generator and highlighter: not part of this model.
- Where code and documentation disagree: the loader's documentation says depth is capped, while the code caps the depth at which its traversal first comes to a file; the model follows the code, and `IncludeOrder.LoadLadders` shows the difference.
