/** The lock-free histogram under every interleaving of updates and snapshots. Each atomic
    access is one step; the order of steps is arbitrary. */
module HistogramRace {
  import opened Bytes
  import opened Ordering
  import opened Delivery

  /** Where an update is: next bucket to add, then the count, then the compare-and-swap loop. */
  datatype Pc = Bucketing(next: nat) | Loading | Swapping(seen: real) | Done

  /** One `observe`, or one merge of a burst; `delta` is what it adds. */
  datatype Update = Update(burst: seq<Elapsed>, delta: Totals, pc: Pc)

  /** What the histogram holds at one moment; `swaps` counts the additions to the sum. */
  datatype Held = Held(raw: seq<nat>, count: nat, sum: real, swaps: nat)

  datatype Phase = Reading(next: nat) | AtSum | AtCount | Finished

  /** One snapshot: cumulative buckets in order, then the sum, then the count. `start` is what was
      held when it began, `skew` the weight of the updates that had reached buckets but not the
      count when the count was read. */
  datatype Reader = Reader(phase: Phase, start: Held, cumulative: seq<nat>, sum: real, count: nat, skew: nat)

  datatype State = State(boundaries: seq<real>, raw: seq<nat>, count: nat, sum: real, swaps: nat,
                         updates: seq<Update>, readers: seq<Reader>)

  datatype Step =
    | Begin(burst: seq<Elapsed>)
    | AddBucket(u: nat)
    | AddCount(u: nat)
    | Load(u: nat)
    | Swap(u: nat)
    | Retry(u: nat)
    | StartRead
    | ReadBucket(r: nat)
    | ReadSum(r: nat)
    | ReadCount(r: nat)

  ghost function Init(boundaries: seq<real>): State {
    State(boundaries, seq(|boundaries|, i => 0), 0, 0.0, 0, [], [])
  }

  // ---- sums

  ghost function Prefix(s: seq<nat>, k: nat): nat {
    if k == 0 then 0 else Prefix(s, k - 1) + if k - 1 < |s| then s[k - 1] else 0
  }

  ghost function SumOver(f: Update -> nat, us: seq<Update>): nat {
    if us == [] then 0 else SumOver(f, us[..|us| - 1]) + f(us[|us| - 1])
  }

  ghost function SumReal(us: seq<Update>): real {
    if us == [] then 0.0 else SumReal(us[..|us| - 1]) + Summed(us[|us| - 1])
  }

  // ---- how far an update has come

  ghost function Passed(u: Update): nat {
    if u.pc.Bucketing? then u.pc.next else |u.delta.hits|
  }

  ghost function AppliedAt(k: nat): Update -> nat {
    (u: Update) => if k < Passed(u) && k < |u.delta.hits| then u.delta.hits[k] else 0
  }

  ghost function Applied(u: Update): nat {
    Prefix(u.delta.hits, Passed(u))
  }

  ghost function Counted(u: Update): nat {
    if u.pc.Bucketing? then 0 else u.delta.count
  }

  ghost function Summed(u: Update): real {
    if u.pc.Done? then u.delta.sum else 0.0
  }

  /** Bucket hits of an update that has not added its count yet. */
  ghost function InFlight(u: Update): nat {
    if u.pc.Bucketing? then Applied(u) else 0
  }

  // ---- one step of one thread; a step that is not possible changes nothing

  ghost function Move(s: State, i: nat, pc: Pc): seq<Update>
    requires i < |s.updates|
  {
    s.updates[i := s.updates[i].(pc := pc)]
  }

  ghost function Apply(s: State, step: Step): State {
    match step
    case Begin(burst) => s.(updates := s.updates + [Update(burst, Tally(s.boundaries, burst), Bucketing(0))])
    case AddBucket(i) =>
      if i < |s.updates| && s.updates[i].pc.Bucketing? && s.updates[i].pc.next < |s.raw| && s.updates[i].pc.next < |s.updates[i].delta.hits| then
        var k := s.updates[i].pc.next;
        s.(raw := s.raw[k := s.raw[k] + s.updates[i].delta.hits[k]], updates := Move(s, i, Bucketing(k + 1)))
      else s
    case AddCount(i) =>
      if i < |s.updates| && s.updates[i].pc == Bucketing(|s.raw|) then
        s.(count := s.count + s.updates[i].delta.count, updates := Move(s, i, Loading))
      else s
    case Load(i) =>
      if i < |s.updates| && s.updates[i].pc.Loading? then s.(updates := Move(s, i, Swapping(s.sum))) else s
    case Swap(i) =>
      if i < |s.updates| && s.updates[i].pc == Swapping(s.sum) then
        s.(sum := s.updates[i].pc.seen + s.updates[i].delta.sum, swaps := s.swaps + 1, updates := Move(s, i, Done))
      else s
    case Retry(i) => // a failed exchange, spurious or not, reports the current value
      if i < |s.updates| && s.updates[i].pc.Swapping? then s.(updates := Move(s, i, Swapping(s.sum))) else s
    case StartRead => s.(readers := s.readers + [Reader(Reading(0), Held(s.raw, s.count, s.sum, s.swaps), [], 0.0, 0, 0)])
    case ReadBucket(r) =>
      if r < |s.readers| && s.readers[r].phase.Reading? then s.(readers := s.readers[r := BucketRead(s, s.readers[r])]) else s
    case ReadSum(r) =>
      if r < |s.readers| && s.readers[r].phase.AtSum? then
        s.(readers := s.readers[r := s.readers[r].(phase := AtCount, sum := s.sum)])
      else s
    case ReadCount(r) =>
      if r < |s.readers| && s.readers[r].phase.AtCount? then
        s.(readers := s.readers[r := s.readers[r].(phase := Finished, count := s.count, skew := SumOver(InFlight, s.updates))])
      else s
  }

  /** The next bucket added to the running total, or the end of the buckets. */
  ghost function BucketRead(s: State, r: Reader): Reader
    requires r.phase.Reading?
  {
    var k := r.phase.next;
    if k < |s.raw| then r.(phase := Reading(k + 1), cumulative := r.cumulative + [Last(r.cumulative) + s.raw[k]])
    else r.(phase := AtSum)
  }

  ghost function Last(cumulative: seq<nat>): nat {
    if cumulative == [] then 0 else cumulative[|cumulative| - 1]
  }

  ghost function Run(s: State, steps: seq<Step>): State {
    if steps == [] then s else Apply(Run(s, steps[..|steps| - 1]), steps[|steps| - 1])
  }

  // ---- the invariant

  ghost predicate GoodUpdate(s: State, u: Update) {
    && u.delta == Tally(s.boundaries, u.burst)
    && (u.pc.Bucketing? ==> u.pc.next <= |s.boundaries|)
  }

  /** Nothing is ever taken back, and the sum changes only when an addition to it wins. */
  ghost predicate Since(h: Held, s: State) {
    && |h.raw| == |s.raw| && (forall k :: 0 <= k < |h.raw| ==> h.raw[k] <= s.raw[k])
    && h.count <= s.count
    && h.swaps <= s.swaps && (h.swaps == s.swaps ==> h.sum == s.sum)
  }

  /** The running totals lie between those of the start and those of now, and never fall. */
  ghost predicate Between(cumulative: seq<nat>, low: seq<nat>, high: seq<nat>) {
    && (forall i :: 0 <= i < |cumulative| ==> Prefix(low, i + 1) <= cumulative[i] <= Prefix(high, i + 1))
    && (forall i, j :: 0 <= i < j < |cumulative| ==> cumulative[i] <= cumulative[j])
  }

  ghost predicate GoodReader(s: State, r: Reader) {
    && Since(r.start, s)
    && Between(r.cumulative, r.start.raw, s.raw)
    && |r.cumulative| == (if r.phase.Reading? then r.phase.next else |s.raw|) <= |s.raw|
    && (r.phase.AtCount? || r.phase.Finished? ==> r.start.swaps == s.swaps ==> r.sum == r.start.sum)
    && (r.phase.Finished? ==> r.start.count <= r.count <= s.count && Last(r.cumulative) <= r.count + r.skew)
  }

  ghost predicate UpdatesGood(s: State) {
    |s.raw| == |s.boundaries| && forall i :: 0 <= i < |s.updates| ==> GoodUpdate(s, s.updates[i])
  }

  ghost predicate Accounted(s: State) {
    && (forall k :: 0 <= k < |s.raw| ==> s.raw[k] == SumOver(AppliedAt(k), s.updates))
    && Prefix(s.raw, |s.raw|) == SumOver(Applied, s.updates)
    && s.count == SumOver(Counted, s.updates)
    && s.sum == SumReal(s.updates)
  }

  ghost predicate ReadersGood(s: State) {
    forall i :: 0 <= i < |s.readers| ==> GoodReader(s, s.readers[i])
  }

  ghost predicate Inv(s: State) {
    UpdatesGood(s) && Accounted(s) && ReadersGood(s)
  }

  // ---- lemmas on sums

  lemma {:induction false} SumMove(f: Update -> nat, us: seq<Update>, i: nat, u: Update)
    requires i < |us|
    ensures SumOver(f, us[i := u]) + f(us[i]) == SumOver(f, us) + f(u)
    decreases |us|
  {
    var vs := us[i := u];
    var n := |us| - 1;
    if i == n {
      assert vs[..n] == us[..n];
    } else {
      assert vs[..n] == us[..n][i := u];
      SumMove(f, us[..n], i, u);
    }
  }

  lemma {:induction false} SumRealMove(us: seq<Update>, i: nat, u: Update)
    requires i < |us|
    ensures SumReal(us[i := u]) + Summed(us[i]) == SumReal(us) + Summed(u)
    decreases |us|
  {
    var vs := us[i := u];
    var n := |us| - 1;
    if i == n {
      assert vs[..n] == us[..n];
    } else {
      assert vs[..n] == us[..n][i := u];
      SumRealMove(us[..n], i, u);
    }
  }

  lemma {:induction false} PrefixAdd(s: seq<nat>, k: nat, h: nat, j: nat)
    requires k < |s|
    ensures Prefix(s[k := s[k] + h], j) == Prefix(s, j) + if k < j then h else 0
    decreases j
  {
    if j > 0 {
      PrefixAdd(s, k, h, j - 1);
    }
  }

  lemma {:induction false} PrefixZero(n: nat, j: nat)
    ensures Prefix(seq(n, i => 0), j) == 0
    decreases j
  {
    if j > 0 {
      PrefixZero(n, j - 1);
    }
  }

  // ---- each step keeps the books

  lemma InitInv(boundaries: seq<real>)
    ensures Inv(Init(boundaries))
  {
    PrefixZero(|boundaries|, |boundaries|);
  }

  /** What a step of an update may do to what is held. */
  ghost predicate Grows(s: State, t: State) {
    Since(Held(s.raw, s.count, s.sum, s.swaps), t)
  }

  lemma {:induction false} PrefixGrows(low: seq<nat>, high: seq<nat>, j: nat)
    requires |low| == |high| && forall k :: 0 <= k < |low| ==> low[k] <= high[k]
    ensures Prefix(low, j) <= Prefix(high, j)
    decreases j
  {
    if j > 0 {
      PrefixGrows(low, high, j - 1);
    }
  }

  lemma ReaderSurvives(s: State, t: State, r: Reader)
    requires GoodReader(s, r) && Grows(s, t)
    ensures GoodReader(t, r)
  {
    forall i | 0 <= i < |r.cumulative| ensures Prefix(r.start.raw, i + 1) <= r.cumulative[i] <= Prefix(t.raw, i + 1) {
      PrefixGrows(s.raw, t.raw, i + 1);
    }
  }

  lemma ReadersSurvive(s: State, t: State)
    requires ReadersGood(s) && t.readers == s.readers && Grows(s, t)
    ensures ReadersGood(t)
  {
    forall i | 0 <= i < |t.readers| ensures GoodReader(t, t.readers[i]) {
      assert GoodReader(s, s.readers[i]);
      ReaderSurvives(s, t, s.readers[i]);
    }
  }

  /** A step that only moves one update, and what it must leave unchanged. */
  lemma MovedGood(s: State, t: State, i: nat, pc: Pc)
    requires UpdatesGood(s) && i < |s.updates| && t.updates == Move(s, i, pc)
    requires t.boundaries == s.boundaries && |t.raw| == |s.raw|
    requires pc.Bucketing? ==> pc.next <= |s.boundaries|
    ensures UpdatesGood(t)
  {
    forall k | 0 <= k < |t.updates| ensures GoodUpdate(t, t.updates[k]) {
      assert GoodUpdate(s, s.updates[k]);
    }
  }

  lemma OneMoreBucket(u: Update, k: nat, j: nat)
    requires u.pc == Bucketing(k) && k < |u.delta.hits|
    ensures AppliedAt(j)(u.(pc := Bucketing(k + 1))) == AppliedAt(j)(u) + if j == k then u.delta.hits[k] else 0
    ensures Applied(u.(pc := Bucketing(k + 1))) == Applied(u) + u.delta.hits[k]
  {
  }

  lemma AddBucketHits(s: State, i: nat)
    requires UpdatesGood(s) && Accounted(s)
    requires i < |s.updates| && s.updates[i].pc.Bucketing? && s.updates[i].pc.next < |s.raw|
    ensures var t := Apply(s, AddBucket(i)); forall j :: 0 <= j < |t.raw| ==> t.raw[j] == SumOver(AppliedAt(j), t.updates)
  {
    assert GoodUpdate(s, s.updates[i]);
    var t := Apply(s, AddBucket(i));
    forall j | 0 <= j < |t.raw| ensures t.raw[j] == SumOver(AppliedAt(j), t.updates) {
      AddBucketAt(s.updates, i, s.updates[i].pc.next, j);
    }
  }

  lemma AddBucketAt(us: seq<Update>, i: nat, k: nat, j: nat)
    requires i < |us| && us[i].pc == Bucketing(k) && k < |us[i].delta.hits|
    ensures SumOver(AppliedAt(j), us[i := us[i].(pc := Bucketing(k + 1))]) ==
            SumOver(AppliedAt(j), us) + if j == k then us[i].delta.hits[k] else 0
  {
    SumMove(AppliedAt(j), us, i, us[i].(pc := Bucketing(k + 1)));
    OneMoreBucket(us[i], k, j);
  }

  lemma AddBucketTotals(s: State, i: nat)
    requires i < |s.updates| && s.updates[i].pc.Bucketing?
    requires s.updates[i].pc.next < |s.raw| && s.updates[i].pc.next < |s.updates[i].delta.hits|
    requires Prefix(s.raw, |s.raw|) == SumOver(Applied, s.updates)
    requires s.count == SumOver(Counted, s.updates) && s.sum == SumReal(s.updates)
    ensures var t := Apply(s, AddBucket(i));
            && Prefix(t.raw, |t.raw|) == SumOver(Applied, t.updates)
            && t.count == SumOver(Counted, t.updates) && t.sum == SumReal(t.updates)
  {
    AddBucketPrefix(s.raw, s.updates, i, s.updates[i].pc.next);
    AddBucketRest(s.updates, i, s.updates[i].pc.next);
  }

  lemma AddBucketPrefix(raw: seq<nat>, us: seq<Update>, i: nat, k: nat)
    requires i < |us| && us[i].pc == Bucketing(k) && k < |raw| && k < |us[i].delta.hits|
    requires Prefix(raw, |raw|) == SumOver(Applied, us)
    ensures Prefix(raw[k := raw[k] + us[i].delta.hits[k]], |raw|) == SumOver(Applied, us[i := us[i].(pc := Bucketing(k + 1))])
  {
    SumMove(Applied, us, i, us[i].(pc := Bucketing(k + 1)));
    OneMoreBucket(us[i], k, k);
    PrefixAdd(raw, k, us[i].delta.hits[k], |raw|);
  }

  lemma AddBucketRest(us: seq<Update>, i: nat, k: nat)
    requires i < |us| && us[i].pc == Bucketing(k)
    ensures var vs := us[i := us[i].(pc := Bucketing(k + 1))];
            SumOver(Counted, vs) == SumOver(Counted, us) && SumReal(vs) == SumReal(us)
  {
    SumMove(Counted, us, i, us[i].(pc := Bucketing(k + 1)));
    SumRealMove(us, i, us[i].(pc := Bucketing(k + 1)));
  }

  lemma AddBucketInv(s: State, i: nat)
    requires Inv(s) && i < |s.updates| && s.updates[i].pc.Bucketing? && s.updates[i].pc.next < |s.raw|
    ensures Inv(Apply(s, AddBucket(i)))
  {
    assert GoodUpdate(s, s.updates[i]);
    var t, k := Apply(s, AddBucket(i)), s.updates[i].pc.next;
    MovedGood(s, t, i, Bucketing(k + 1));
    AddBucketHits(s, i);
    AddBucketTotals(s, i);
    ReadersSurvive(s, t);
  }

  /** Steps after the buckets: bucket sums stay, count and sum change by what the step adds. */
  lemma PastBuckets(s: State, t: State, i: nat, pc: Pc)
    requires Inv(s) && i < |s.updates| && t.updates == Move(s, i, pc) && !pc.Bucketing?
    requires s.updates[i].pc.Bucketing? ==> s.updates[i].pc.next == |s.raw|
    requires t.boundaries == s.boundaries && t.raw == s.raw && t.readers == s.readers
    requires t.count == s.count + if s.updates[i].pc.Bucketing? then s.updates[i].delta.count else 0
    requires t.sum + Summed(s.updates[i]) == s.sum + if pc.Done? then s.updates[i].delta.sum else 0.0
    requires s.swaps <= t.swaps && (s.swaps == t.swaps ==> s.sum == t.sum)
    ensures Inv(t)
  {
    assert GoodUpdate(s, s.updates[i]);
    var u, v := s.updates[i], s.updates[i].(pc := pc);
    MovedGood(s, t, i, pc);
    forall j | 0 <= j < |t.raw| ensures t.raw[j] == SumOver(AppliedAt(j), t.updates) {
      SumMove(AppliedAt(j), s.updates, i, v);
      assert AppliedAt(j)(v) == AppliedAt(j)(u);
    }
    SumMove(Applied, s.updates, i, v);
    SumMove(Counted, s.updates, i, v);
    SumRealMove(s.updates, i, v);
    ReadersSurvive(s, t);
  }

  lemma BeginInv(s: State, burst: seq<Elapsed>)
    requires Inv(s)
    ensures Inv(Apply(s, Begin(burst)))
  {
    var t := Apply(s, Begin(burst));
    var n := |s.updates|;
    assert t.updates[..n] == s.updates;
    forall k | 0 <= k < |t.updates| ensures GoodUpdate(t, t.updates[k]) {
      if k < n {
        assert GoodUpdate(s, s.updates[k]);
      }
    }
    ReadersSurvive(s, t);
  }

  /** Bucket hits never exceed the count by more than what is in flight. */
  lemma {:induction false} BooksBalance(s: State, us: seq<Update>)
    requires forall i :: 0 <= i < |us| ==> GoodUpdate(s, us[i])
    ensures SumOver(Applied, us) <= SumOver(Counted, us) + SumOver(InFlight, us)
    decreases |us|
  {
    if us != [] {
      var u := us[|us| - 1];
      assert GoodUpdate(s, u);
      HitsWithinCount(s.boundaries, u.burst);
      BooksBalance(s, us[..|us| - 1]);
    }
  }

  /** A step that only touches readers. */
  lemma ReaderMoved(s: State, readers: seq<Reader>)
    requires Inv(s) && forall i :: 0 <= i < |readers| ==> GoodReader(s, readers[i])
    ensures Inv(s.(readers := readers))
  {
    var t := s.(readers := readers);
    forall i | 0 <= i < |s.updates| ensures GoodUpdate(t, t.updates[i]) {
      assert GoodUpdate(s, s.updates[i]);
    }
    forall i | 0 <= i < |readers| ensures GoodReader(t, readers[i]) {
      assert GoodReader(s, readers[i]);
    }
  }

  lemma OneReaderMoved(s: State, r: nat, reader: Reader)
    requires Inv(s) && r < |s.readers| && GoodReader(s, reader)
    ensures Inv(s.(readers := s.readers[r := reader]))
  {
    var readers := s.readers[r := reader];
    forall i | 0 <= i < |readers| ensures GoodReader(s, readers[i]) {
      assert GoodReader(s, s.readers[i]);
    }
    ReaderMoved(s, readers);
  }

  lemma ReadBucketInv(s: State, r: nat)
    requires Inv(s)
    ensures Inv(Apply(s, ReadBucket(r)))
  {
    if r < |s.readers| && s.readers[r].phase.Reading? {
      assert GoodReader(s, s.readers[r]);
      BucketReadGood(s, s.readers[r]);
      OneReaderMoved(s, r, BucketRead(s, s.readers[r]));
    }
  }

  lemma BucketReadGood(s: State, r: Reader)
    requires GoodReader(s, r) && r.phase.Reading?
    ensures GoodReader(s, BucketRead(s, r))
  {
    var k := r.phase.next;
    if k < |s.raw| {
      var c := r.cumulative + [Last(r.cumulative) + s.raw[k]];
      assert Prefix(r.start.raw, k) <= Last(r.cumulative) <= Prefix(s.raw, k);
      forall i | 0 <= i < |c| ensures Prefix(r.start.raw, i + 1) <= c[i] <= Prefix(s.raw, i + 1) {
        assert i < k ==> c[i] == r.cumulative[i];
      }
      forall i, j | 0 <= i < j < |c| ensures c[i] <= c[j] {
        assert i < k && c[i] == r.cumulative[i] && (j < k ==> c[j] == r.cumulative[j]);
      }
    }
  }

  lemma ReadSumInv(s: State, r: nat)
    requires Inv(s)
    ensures Inv(Apply(s, ReadSum(r)))
  {
    if r < |s.readers| && s.readers[r].phase.AtSum? {
      assert GoodReader(s, s.readers[r]);
      OneReaderMoved(s, r, s.readers[r].(phase := AtCount, sum := s.sum));
    }
  }

  lemma ReadCountInv(s: State, r: nat)
    requires Inv(s)
    ensures Inv(Apply(s, ReadCount(r)))
  {
    if r < |s.readers| && s.readers[r].phase.AtCount? {
      assert GoodReader(s, s.readers[r]);
      BooksBalance(s, s.updates);
      assert Last(s.readers[r].cumulative) <= Prefix(s.raw, |s.raw|);
      OneReaderMoved(s, r, s.readers[r].(phase := Finished, count := s.count, skew := SumOver(InFlight, s.updates)));
    }
  }

  lemma StepInv(s: State, step: Step)
    requires Inv(s)
    ensures Inv(Apply(s, step))
  {
    var t := Apply(s, step);
    match step
    case Begin(burst) => BeginInv(s, burst);
    case AddBucket(i) =>
      if t != s {
        AddBucketInv(s, i);
      }
    case AddCount(i) =>
      if i < |s.updates| && s.updates[i].pc == Bucketing(|s.raw|) {
        PastBuckets(s, t, i, Loading);
      }
    case Load(i) =>
      if i < |s.updates| && s.updates[i].pc.Loading? {
        PastBuckets(s, t, i, Swapping(s.sum));
      }
    case Swap(i) =>
      if i < |s.updates| && s.updates[i].pc == Swapping(s.sum) {
        PastBuckets(s, t, i, Done);
      }
    case Retry(i) =>
      if i < |s.updates| && s.updates[i].pc.Swapping? {
        PastBuckets(s, t, i, Swapping(s.sum));
      }
    case StartRead => ReaderMoved(s, t.readers);
    case ReadBucket(r) => ReadBucketInv(s, r);
    case ReadSum(r) => ReadSumInv(s, r);
    case ReadCount(r) => ReadCountInv(s, r);
  }

  /** Every interleaving keeps the books: buckets, count and sum are at all times the sums of
      what the updates have added so far, so no compare-and-swap loses an addition. */
  lemma {:induction false} AlwaysAccounted(boundaries: seq<real>, steps: seq<Step>)
    ensures Inv(Run(Init(boundaries), steps))
    decreases |steps|
  {
    if steps == [] {
      InitInv(boundaries);
    } else {
      AlwaysAccounted(boundaries, steps[..|steps| - 1]);
      StepInv(Run(Init(boundaries), steps[..|steps| - 1]), steps[|steps| - 1]);
    }
  }

  // ---- what a snapshot gets

  /** The snapshot begun in `s`, after `more`. */
  ghost function Snapshot(s: State, more: seq<Step>): Option<Reader> {
    var t := Run(Apply(s, StartRead), more);
    if |s.readers| < |t.readers| && t.readers[|s.readers|].phase.Finished? then Some(t.readers[|s.readers|]) else None
  }

  ghost function HeldIn(s: State): Held {
    Held(s.raw, s.count, s.sum, s.swaps)
  }

  lemma {:induction false} ReaderStays(s: State, steps: seq<Step>, r: nat)
    requires r < |s.readers|
    ensures var t := Run(s, steps); r < |t.readers| && t.readers[r].start == s.readers[r].start
    decreases |steps|
  {
    if steps != [] {
      ReaderStays(s, steps[..|steps| - 1], r);
      StepKeepsReader(Run(s, steps[..|steps| - 1]), steps[|steps| - 1], r);
    }
  }

  lemma StepKeepsReader(s: State, step: Step, r: nat)
    requires r < |s.readers|
    ensures var t := Apply(s, step); r < |t.readers| && t.readers[r].start == s.readers[r].start
  {
  }

  /** Only reading the count finishes a snapshot. */
  lemma FinishingStep(s: State, step: Step, r: nat)
    requires r < |s.readers| && !s.readers[r].phase.Finished?
    requires r < |Apply(s, step).readers| && Apply(s, step).readers[r].phase.Finished?
    ensures s.readers[r].phase.AtCount?
    ensures var reader := Apply(s, step).readers[r];
            && reader.count == s.count && reader.skew == SumOver(InFlight, s.updates)
            && reader.cumulative == s.readers[r].cumulative && reader.sum == s.readers[r].sum
  {
  }

  /** A finished snapshot stays as it is. */
  lemma FinishedStays(s: State, step: Step, r: nat)
    requires r < |s.readers| && s.readers[r].phase.Finished?
    ensures r < |Apply(s, step).readers| && Apply(s, step).readers[r] == s.readers[r]
  {
  }

  lemma {:induction false} RunInv(s: State, steps: seq<Step>)
    requires Inv(s)
    ensures Inv(Run(s, steps))
    decreases |steps|
  {
    if steps != [] {
      RunInv(s, steps[..|steps| - 1]);
      StepInv(Run(s, steps[..|steps| - 1]), steps[|steps| - 1]);
    }
  }

  lemma StartedGood(s: State, more: seq<Step>)
    requires Inv(s)
    ensures var t, r := Run(Apply(s, StartRead), more), |s.readers|;
            Inv(t) && r < |t.readers| && GoodReader(t, t.readers[r]) && t.readers[r].start == HeldIn(s)
  {
    StepInv(s, StartRead);
    RunInv(Apply(s, StartRead), more);
    ReaderStays(Apply(s, StartRead), more, |s.readers|);
  }

  /** Whatever happens meanwhile, each cumulative bucket a snapshot reports, and its count, lie
      between what was held when it began and what is held when it is done. */
  lemma SnapshotBounds(s: State, more: seq<Step>)
    requires Inv(s) && Snapshot(s, more).Some?
    ensures var r, t := Snapshot(s, more).value, Run(Apply(s, StartRead), more);
            && |r.cumulative| == |s.boundaries| && Between(r.cumulative, s.raw, t.raw)
            && s.count <= r.count <= t.count
  {
    StartedGood(s, more);
  }

  /** The count and the sum are those held at moments of the snapshot, and the last cumulative
      bucket exceeds the count by at most the weight of the updates that were then between their
      buckets and their count. */
  lemma SnapshotSkew(s: State, more: seq<Step>) returns (p: nat, q: nat)
    requires Inv(s) && Snapshot(s, more).Some?
    ensures p <= q < |more|
    ensures var r := Snapshot(s, more).value;
            var atSum, atCount := Run(Apply(s, StartRead), more[..p]), Run(Apply(s, StartRead), more[..q]);
            && r.sum == atSum.sum && r.count == atCount.count
            && Last(r.cumulative) <= r.count + SumOver(InFlight, atCount.updates)
  {
    StartedGood(s, more);
    q := CountRead(Apply(s, StartRead), more, |s.readers|);
    p := SumRead(Apply(s, StartRead), more[..q], |s.readers|);
    assert more[..q][..p] == more[..p];
  }

  /** The step that finished a snapshot read the count. */
  lemma {:induction false} CountRead(s: State, steps: seq<Step>, r: nat) returns (q: nat)
    requires r < |s.readers| && !s.readers[r].phase.Finished?
    requires r < |Run(s, steps).readers| && Run(s, steps).readers[r].phase.Finished?
    ensures q < |steps|
    ensures var t, reader := Run(s, steps[..q]), Run(s, steps).readers[r];
            && r < |t.readers| && t.readers[r].phase.AtCount?
            && reader.count == t.count && reader.skew == SumOver(InFlight, t.updates)
            && reader.cumulative == t.readers[r].cumulative && reader.sum == t.readers[r].sum
    decreases |steps|
  {
    var n := |steps| - 1;
    var before := Run(s, steps[..n]);
    ReaderStays(s, steps[..n], r);
    if before.readers[r].phase.Finished? {
      FinishedStays(before, steps[n], r);
      q := CountRead(s, steps[..n], r);
      assert steps[..n][..q] == steps[..q];
    } else {
      FinishingStep(before, steps[n], r);
      q := n;
    }
  }

  /** The sum was read on the way to the count. */
  lemma {:induction false} SumRead(s: State, steps: seq<Step>, r: nat) returns (p: nat)
    requires r < |s.readers| && (s.readers[r].phase.Reading? || s.readers[r].phase.AtSum?)
    requires r < |Run(s, steps).readers| && Run(s, steps).readers[r].phase.AtCount?
    ensures p < |steps| && Run(s, steps).readers[r].sum == Run(s, steps[..p]).sum
    decreases |steps|
  {
    var n := |steps| - 1;
    var before := Run(s, steps[..n]);
    ReaderStays(s, steps[..n], r);
    if before.readers[r].phase.AtCount? {
      p := SumRead(s, steps[..n], r);
      assert steps[..n][..p] == steps[..p];
    } else {
      p := n;
    }
  }

  /** No step of `steps` adds to a bucket, to the count or to the sum. */
  ghost predicate Quiet(steps: seq<Step>) {
    forall i :: 0 <= i < |steps| ==> !steps[i].AddBucket? && !steps[i].AddCount? && !steps[i].Swap?
  }

  lemma {:induction false} QuietKeeps(s: State, steps: seq<Step>)
    requires Quiet(steps)
    ensures HeldIn(Run(s, steps)) == HeldIn(s)
    decreases |steps|
  {
    if steps != [] {
      QuietKeeps(s, steps[..|steps| - 1]);
    }
  }

  /** A snapshot that no update disturbs is exact. */
  lemma SnapshotExact(s: State, more: seq<Step>)
    requires Inv(s) && Quiet(more) && Snapshot(s, more).Some?
    ensures var r := Snapshot(s, more).value;
            && |r.cumulative| == |s.boundaries| && (forall i :: 0 <= i < |r.cumulative| ==> r.cumulative[i] == Prefix(s.raw, i + 1))
            && r.count == s.count && r.sum == s.sum
  {
    StartedGood(s, more);
    QuietKeeps(Apply(s, StartRead), more);
  }

  // ---- when all updates are complete

  ghost function Above(boundaries: seq<real>, es: seq<Elapsed>): nat {
    if es == [] then 0
    else Above(boundaries, es[..|es| - 1]) + if AboveAll(boundaries, es[|es| - 1].seconds) then 1 else 0
  }

  ghost predicate AboveAll(boundaries: seq<real>, v: real) {
    forall k :: 0 <= k < |boundaries| ==> v > boundaries[k]
  }

  lemma {:induction false} FindBucket(boundaries: seq<real>, v: real, n: nat) returns (b: nat)
    requires n <= |boundaries| && forall k :: 0 <= k < n ==> v > boundaries[k]
    ensures b <= |boundaries|
    ensures b < |boundaries| ==> InBucket(boundaries, b, v) && !AboveAll(boundaries, v)
    ensures b == |boundaries| ==> AboveAll(boundaries, v)
    decreases |boundaries| - n
  {
    if n == |boundaries| || v <= boundaries[n] {
      return n;
    }
    b := FindBucket(boundaries, v, n + 1);
  }

  /** Every observation is in one bucket or above them all. */
  lemma {:induction false} HitsPlusAbove(boundaries: seq<real>, es: seq<Elapsed>)
    ensures Prefix(Tally(boundaries, es).hits, |boundaries|) + Above(boundaries, es) == |es|
    decreases |es|
  {
    if es == [] {
      AllZero(Tally(boundaries, es).hits, |boundaries|);
    } else {
      var es', e := es[..|es| - 1], es[|es| - 1];
      assert es == es' + [e];
      HitsPlusAbove(boundaries, es');
      var b := FindBucket(boundaries, e.seconds, 0);
      TallySnoc(boundaries, es', e, b);
      if b < |boundaries| {
        var hits := Tally(boundaries, es').hits;
        assert Tally(boundaries, es).hits == hits[b := hits[b] + 1];
        PrefixAdd(hits, b, 1, |boundaries|);
      } else {
        assert Tally(boundaries, es).hits == Tally(boundaries, es').hits;
      }
    }
  }

  lemma {:induction false} AllZero(s: seq<nat>, j: nat)
    requires forall i :: 0 <= i < |s| ==> s[i] == 0
    ensures Prefix(s, j) == 0
    decreases j
  {
    if j > 0 {
      AllZero(s, j - 1);
    }
  }

  lemma HitsWithinCount(boundaries: seq<real>, es: seq<Elapsed>)
    ensures Prefix(Tally(boundaries, es).hits, |boundaries|) <= Tally(boundaries, es).count
  {
    HitsPlusAbove(boundaries, es);
  }

  function BurstOf(u: Update): seq<Elapsed> {
    u.burst
  }

  ghost function Observations(us: seq<Update>): seq<Elapsed> {
    Flatten(Map(BurstOf, us))
  }

  ghost predicate AllDone(us: seq<Update>) {
    forall i :: 0 <= i < |us| ==> us[i].pc.Done?
  }

  lemma {:induction false} DoneSums(s: State, us: seq<Update>)
    requires AllDone(us) && forall i :: 0 <= i < |us| ==> GoodUpdate(s, us[i])
    ensures var t := Tally(s.boundaries, Observations(us));
            && (forall k :: 0 <= k < |s.boundaries| ==> SumOver(AppliedAt(k), us) == t.hits[k])
            && SumOver(Counted, us) == t.count && SumReal(us) == t.sum
    decreases |us|
  {
    if us == [] {
      assert Map(BurstOf, us) == [];
    } else {
      var n := |us| - 1;
      var u := us[n];
      DoneSums(s, us[..n]);
      assert GoodUpdate(s, u);
      var bursts := Map(BurstOf, us);
      assert bursts[..n] == Map(BurstOf, us[..n]) && bursts[..n + 1] == bursts;
      FlattenSnoc(bursts, n);
      TallyConcat(s.boundaries, Observations(us[..n]), u.burst);
      forall k | 0 <= k < |s.boundaries| ensures SumOver(AppliedAt(k), us) == Tally(s.boundaries, Observations(us)).hits[k] {
        assert AppliedAt(k)(u) == u.delta.hits[k];
      }
    }
  }

  /** Once every update is complete the histogram is the tally of all observations, and the
      count exceeds the last cumulative bucket by those above the top boundary. */
  lemma QuiescentIsTally(boundaries: seq<real>, steps: seq<Step>)
    requires AllDone(Run(Init(boundaries), steps).updates)
    ensures var s := Run(Init(boundaries), steps); var es := Observations(s.updates); var t := Tally(boundaries, es);
            && s.raw == t.hits && s.count == t.count && s.sum == t.sum
            && s.count == Prefix(s.raw, |s.raw|) + Above(boundaries, es)
  {
    var s := Run(Init(boundaries), steps);
    AlwaysAccounted(boundaries, steps);
    BoundariesStay(boundaries, steps);
    DoneSums(s, s.updates);
    HitsPlusAbove(boundaries, Observations(s.updates));
  }

  /** A snapshot taken then, undisturbed, reports the tally of all observations. */
  lemma QuiescentSnapshot(boundaries: seq<real>, steps: seq<Step>, more: seq<Step>)
    requires var s := Run(Init(boundaries), steps); AllDone(s.updates) && Quiet(more) && Snapshot(s, more).Some?
    ensures var s := Run(Init(boundaries), steps);
            var r, es := Snapshot(s, more).value, Observations(s.updates);
            && |r.cumulative| == |boundaries|
            && (forall i :: 0 <= i < |boundaries| ==> r.cumulative[i] == Prefix(Tally(boundaries, es).hits, i + 1))
            && r.count == |es| && r.sum == Sum(es) && r.count == Last(r.cumulative) + Above(boundaries, es)
  {
    var s := Run(Init(boundaries), steps);
    AlwaysAccounted(boundaries, steps);
    BoundariesStay(boundaries, steps);
    QuiescentIsTally(boundaries, steps);
    SnapshotExact(s, more);
  }

  // ---- nobody has to wait for anybody

  lemma {:induction false} RunConcat(s: State, a: seq<Step>, b: seq<Step>)
    ensures Run(s, a + b) == Run(Run(s, a), b)
    decreases |b|
  {
    if b == [] {
      assert a + b == a;
    } else {
      assert (a + b)[..|a + b| - 1] == a + b[..|b| - 1];
      RunConcat(s, a, b[..|b| - 1]);
      RunLast(s, a + b);
      RunLast(Run(s, a), b);
    }
  }

  lemma RunLast(s: State, steps: seq<Step>)
    requires steps != []
    ensures Run(s, steps) == Apply(Run(s, steps[..|steps| - 1]), steps[|steps| - 1])
  {
  }

  lemma RunOne(s: State, step: Step, rest: seq<Step>)
    ensures Run(s, [step] + rest) == Run(Apply(s, step), rest)
  {
    assert [step][..0] == [];
    assert Run(s, [step]) == Apply(s, step);
    RunConcat(s, [step], rest);
  }

  /** The steps of one update. */
  ghost predicate StepOf(step: Step, i: nat) {
    step == AddBucket(i) || step == AddCount(i) || step == Load(i) || step == Swap(i) || step == Retry(i)
  }

  /** The step an update can take now that leads on. */
  ghost function Next(s: State, i: nat): Step
    requires i < |s.updates|
  {
    match s.updates[i].pc
    case Bucketing(k) => if k < |s.raw| then AddBucket(i) else AddCount(i)
    case Loading => Load(i)
    case Swapping(seen) => if seen == s.sum then Swap(i) else Retry(i)
    case Done => Load(i)
  }

  ghost function Left(s: State, i: nat): nat
    requires i < |s.updates|
  {
    match s.updates[i].pc
    case Bucketing(k) => if k <= |s.raw| then |s.raw| - k + 4 else 4
    case Loading => 3
    case Swapping(seen) => if seen == s.sum then 1 else 2
    case Done => 0
  }

  lemma NextLeads(s: State, i: nat)
    requires Inv(s) && i < |s.updates| && !s.updates[i].pc.Done?
    ensures var t := Apply(s, Next(s, i)); i < |t.updates| && Left(t, i) < Left(s, i)
  {
    assert GoodUpdate(s, s.updates[i]);
  }

  /** From any state an update can finish by its own steps alone, so the code is lock-free. */
  lemma {:induction false} FinishesAlone(s: State, i: nat) returns (steps: seq<Step>)
    requires Inv(s) && i < |s.updates|
    ensures forall k :: 0 <= k < |steps| ==> StepOf(steps[k], i)
    ensures i < |Run(s, steps).updates| && Run(s, steps).updates[i].pc.Done?
    decreases Left(s, i)
  {
    if s.updates[i].pc.Done? {
      return [];
    }
    var step := Next(s, i);
    NextLeads(s, i);
    StepInv(s, step);
    var rest := FinishesAlone(Apply(s, step), i);
    RunOne(s, step, rest);
    steps := [step] + rest;
  }

  ghost function NextRead(s: State, r: nat): Step
    requires r < |s.readers|
  {
    match s.readers[r].phase
    case Reading(_) => ReadBucket(r)
    case AtSum => ReadSum(r)
    case _ => ReadCount(r)
  }

  ghost function LeftToRead(s: State, r: nat): nat
    requires r < |s.readers|
  {
    match s.readers[r].phase
    case Reading(k) => if k <= |s.raw| then |s.raw| - k + 3 else 3
    case AtSum => 2
    case AtCount => 1
    case Finished => 0
  }

  lemma NextReadLeads(s: State, r: nat)
    requires Inv(s) && r < |s.readers| && !s.readers[r].phase.Finished?
    ensures var t := Apply(s, NextRead(s, r)); r < |t.readers| && LeftToRead(t, r) < LeftToRead(s, r)
  {
    assert GoodReader(s, s.readers[r]);
  }

  /** So can a snapshot. */
  lemma {:induction false} ReadsAlone(s: State, r: nat) returns (steps: seq<Step>)
    requires Inv(s) && r < |s.readers|
    ensures forall k :: 0 <= k < |steps| ==> steps[k] in {ReadBucket(r), ReadSum(r), ReadCount(r)}
    ensures r < |Run(s, steps).readers| && Run(s, steps).readers[r].phase.Finished?
    decreases LeftToRead(s, r)
  {
    if s.readers[r].phase.Finished? {
      return [];
    }
    var step := NextRead(s, r);
    NextReadLeads(s, r);
    StepInv(s, step);
    var rest := ReadsAlone(Apply(s, step), r);
    RunOne(s, step, rest);
    steps := [step] + rest;
  }

  /** There is always an undisturbed snapshot to be had. */
  lemma SnapshotAlone(s: State) returns (more: seq<Step>)
    requires Inv(s)
    ensures Quiet(more) && Snapshot(s, more).Some?
  {
    StepInv(s, StartRead);
    more := ReadsAlone(Apply(s, StartRead), |s.readers|);
  }

  lemma {:induction false} BoundariesStay(boundaries: seq<real>, steps: seq<Step>)
    ensures Run(Init(boundaries), steps).boundaries == boundaries
    decreases |steps|
  {
    if steps != [] {
      BoundariesStay(boundaries, steps[..|steps| - 1]);
    }
  }
}
