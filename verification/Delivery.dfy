/** Delivery histograms: observing durations one by one and merging them in bursts. Counters
    are unbounded and sums exact. */
module Delivery {
  import opened Ordering

  /** A measured duration, clamped to zero and flagged when the clock ran backwards. */
  datatype Elapsed = Elapsed(seconds: real, reversed: bool)

  /** Everything an output's delivery metrics hold. */
  datatype Totals = Totals(hits: seq<nat>, count: nat, sum: real, negative: nat)

  // ---- what the totals of a set of observations are

  ghost predicate InBucket(boundaries: seq<real>, b: int, v: real) {
    0 <= b < |boundaries| && v <= boundaries[b] && forall k :: 0 <= k < b ==> v > boundaries[k]
  }

  ghost function HitsIn(boundaries: seq<real>, b: int, es: seq<Elapsed>): nat {
    if es == [] then 0
    else HitsIn(boundaries, b, es[..|es| - 1]) + if InBucket(boundaries, b, es[|es| - 1].seconds) then 1 else 0
  }

  ghost function Sum(es: seq<Elapsed>): real {
    if es == [] then 0.0 else Sum(es[..|es| - 1]) + es[|es| - 1].seconds
  }

  ghost function Reversals(es: seq<Elapsed>): nat {
    if es == [] then 0 else Reversals(es[..|es| - 1]) + if es[|es| - 1].reversed then 1 else 0
  }

  /** Each observation counted in its bucket, once, and summed. */
  ghost function Tally(boundaries: seq<real>, es: seq<Elapsed>): (t: Totals)
    ensures |t.hits| == |boundaries|
  {
    Totals(seq(|boundaries|, b requires 0 <= b < |boundaries| => HitsIn(boundaries, b, es)), |es|, Sum(es), Reversals(es))
  }

  ghost function Plus(a: Totals, b: Totals): Totals
    requires |a.hits| == |b.hits|
  {
    Totals(seq(|a.hits|, i requires 0 <= i < |a.hits| => a.hits[i] + b.hits[i]),
           a.count + b.count, a.sum + b.sum, a.negative + b.negative)
  }

  lemma {:induction false} TallyConcat(boundaries: seq<real>, a: seq<Elapsed>, b: seq<Elapsed>)
    ensures Tally(boundaries, a + b) == Plus(Tally(boundaries, a), Tally(boundaries, b))
    decreases |b|
  {
    if b == [] {
      assert a + b == a;
      assert Plus(Tally(boundaries, a), Tally(boundaries, b)).hits == Tally(boundaries, a).hits;
    } else {
      var b', e := b[..|b| - 1], b[|b| - 1];
      TallyConcat(boundaries, a, b');
      assert (a + b)[..|a + b| - 1] == a + b';
      forall k | 0 <= k < |boundaries|
        ensures HitsIn(boundaries, k, a + b) == HitsIn(boundaries, k, a) + HitsIn(boundaries, k, b)
      {
        assert Tally(boundaries, a + b').hits[k] == Tally(boundaries, a).hits[k] + Tally(boundaries, b').hits[k];
      }
    }
  }

  /** The tally after one more observation. */
  lemma TallySnoc(boundaries: seq<real>, es: seq<Elapsed>, e: Elapsed, bucket: int)
    requires 0 <= bucket <= |boundaries|
    requires bucket < |boundaries| ==> InBucket(boundaries, bucket, e.seconds)
    requires bucket == |boundaries| ==> forall k :: 0 <= k < |boundaries| ==> e.seconds > boundaries[k]
    ensures var t, u := Tally(boundaries, es), Tally(boundaries, es + [e]);
            && u.hits == (if bucket < |boundaries| then t.hits[bucket := t.hits[bucket] + 1] else t.hits)
            && u.count == t.count + 1 && u.sum == t.sum + e.seconds
            && u.negative == t.negative + if e.reversed then 1 else 0
  {
    assert (es + [e])[..|es|] == es;
  }

  // ---- the code

  method Position(boundaries: seq<real>, value: real) returns (bucket: nat)
    ensures bucket <= |boundaries|
    ensures bucket < |boundaries| ==> InBucket(boundaries, bucket, value)
    ensures bucket == |boundaries| ==> forall k :: 0 <= k < |boundaries| ==> value > boundaries[k]
  {
    bucket := 0;
    while bucket < |boundaries| && value > boundaries[bucket]
      invariant bucket <= |boundaries|
      invariant forall k :: 0 <= k < bucket ==> value > boundaries[k]
    {
      bucket := bucket + 1;
    }
  }

  /** `DeliveryDelta`: observations of one burst, kept apart from the shared histogram. */
  class DeliveryDelta {
    const boundaries: seq<real>
    const bucketHits: array<nat>
    var count: nat
    var sum: real
    var reversed: nat

    ghost function Held(): Totals
      reads this, bucketHits
    {
      Totals(bucketHits[..], count, sum, reversed)
    }

    constructor (boundaries: seq<real>)
      ensures this.boundaries == boundaries && bucketHits.Length == |boundaries| && fresh(bucketHits)
      ensures Held() == Tally(boundaries, [])
    {
      this.boundaries := boundaries;
      bucketHits := new nat[|boundaries|](_ => 0);
      count, sum, reversed := 0, 0.0, 0;
      new;
      assert bucketHits[..] == Tally(boundaries, []).hits;
    }

    method Record(elapsed: Elapsed, ghost before: seq<Elapsed>)
      requires bucketHits.Length == |boundaries| && Held() == Tally(boundaries, before)
      modifies this, bucketHits
      ensures Held() == Tally(boundaries, before + [elapsed])
    {
      var bucket := Position(boundaries, elapsed.seconds);
      TallySnoc(boundaries, before, elapsed, bucket);
      ghost var hits := bucketHits[..];
      if bucket < |boundaries| {
        bucketHits[bucket] := bucketHits[bucket] + 1;
        assert bucketHits[..] == hits[bucket := hits[bucket] + 1];
      }
      count := count + 1;
      sum := sum + elapsed.seconds;
      reversed := reversed + if elapsed.reversed then 1 else 0;
    }
  }

  /** `OutputMetrics`, as far as delivery goes: the histogram and the negative-delta counter. */
  class DeliveryMetrics {
    const boundaries: seq<real>
    const bucketCounts: array<nat>
    var count: nat
    var sum: real
    var negative: nat

    ghost function Held(): Totals
      reads this, bucketCounts
    {
      Totals(bucketCounts[..], count, sum, negative)
    }

    constructor (boundaries: seq<real>)
      ensures this.boundaries == boundaries && bucketCounts.Length == |boundaries| && fresh(bucketCounts)
      ensures Held() == Tally(boundaries, [])
    {
      this.boundaries := boundaries;
      bucketCounts := new nat[|boundaries|](_ => 0);
      count, sum, negative := 0, 0.0, 0;
      new;
      assert bucketCounts[..] == Tally(boundaries, []).hits;
    }

    /** `observe_delivery`: the counter and the histogram, one duration at a time. */
    method Observe(elapsed: Elapsed, ghost before: seq<Elapsed>)
      requires bucketCounts.Length == |boundaries| && Held() == Tally(boundaries, before)
      modifies this, bucketCounts
      ensures Held() == Tally(boundaries, before + [elapsed])
    {
      var bucket := Position(boundaries, elapsed.seconds);
      TallySnoc(boundaries, before, elapsed, bucket);
      ghost var hits := bucketCounts[..];
      if elapsed.reversed {
        negative := negative + 1;
      }
      if bucket < |boundaries| {
        bucketCounts[bucket] := bucketCounts[bucket] + 1;
        assert bucketCounts[..] == hits[bucket := hits[bucket] + 1];
      }
      count := count + 1;
      sum := sum + elapsed.seconds;
    }

    /** `merge_delivery_delta`: one pass over the buckets, zero hits and empty bursts skipped. */
    method Merge(delta: DeliveryDelta, ghost before: seq<Elapsed>, ghost burst: seq<Elapsed>)
      requires delta.boundaries == boundaries && delta.bucketHits.Length == bucketCounts.Length == |boundaries|
      requires delta.bucketHits != bucketCounts
      requires Held() == Tally(boundaries, before) && delta.Held() == Tally(boundaries, burst)
      modifies this, bucketCounts
      ensures Held() == Tally(boundaries, before + burst)
    {
      TallyConcat(boundaries, before, burst);
      if delta.count == 0 {
        assert burst == [];
        assert before + burst == before;
        return;
      }
      ghost var hits := bucketCounts[..];
      for b := 0 to bucketCounts.Length
        modifies bucketCounts
        invariant forall k :: 0 <= k < b ==> bucketCounts[k] == hits[k] + delta.bucketHits[k]
        invariant forall k :: b <= k < bucketCounts.Length ==> bucketCounts[k] == hits[k]
        invariant delta.bucketHits[..] == old(delta.bucketHits[..])
      {
        if delta.bucketHits[b] != 0 {
          bucketCounts[b] := bucketCounts[b] + delta.bucketHits[b];
        }
      }
      ghost var whole := Tally(boundaries, before + burst);
      assert bucketCounts[..] == whole.hits by {
        forall k | 0 <= k < |boundaries| ensures bucketCounts[k] == whole.hits[k] {
          assert hits[k] == Tally(boundaries, before).hits[k];
          assert delta.bucketHits[..][k] == Tally(boundaries, burst).hits[k];
        }
      }
      count := count + delta.count;
      sum := sum + delta.sum;
      if delta.reversed != 0 {
        negative := negative + delta.reversed;
      }
    }
  }

  // ---- batching is invisible

  method ObserveSingly(boundaries: seq<real>, es: seq<Elapsed>) returns (counts: seq<nat>, count: nat, sum: real, negative: nat)
    ensures Totals(counts, count, sum, negative) == Tally(boundaries, es)
  {
    var m := new DeliveryMetrics(boundaries);
    assert es[..0] == [];
    for i := 0 to |es|
      invariant m.boundaries == boundaries && m.bucketCounts.Length == |boundaries| && fresh(m) && fresh(m.bucketCounts)
      invariant m.Held() == Tally(boundaries, es[..i])
    {
      assert es[..i + 1] == es[..i] + [es[i]];
      m.Observe(es[i], es[..i]);
    }
    assert es[..|es|] == es;
    return m.bucketCounts[..], m.count, m.sum, m.negative;
  }

  /** Recording in bursts and merging each burst once gives the tally of all observations,
      however they are split; `ObserveSingly` gives the same. */
  method ObserveInBursts(boundaries: seq<real>, bursts: seq<seq<Elapsed>>)
    returns (counts: seq<nat>, count: nat, sum: real, negative: nat)
    ensures Totals(counts, count, sum, negative) == Tally(boundaries, Flatten(bursts))
  {
    var m := new DeliveryMetrics(boundaries);
    assert Flatten(bursts[..0]) == [];
    for i := 0 to |bursts|
      invariant m.boundaries == boundaries && m.bucketCounts.Length == |boundaries| && fresh(m) && fresh(m.bucketCounts)
      invariant m.Held() == Tally(boundaries, Flatten(bursts[..i]))
    {
      var burst := bursts[i];
      var delta := new DeliveryDelta(boundaries);
      assert burst[..0] == [];
      for j := 0 to |burst|
        invariant delta.boundaries == boundaries && delta.bucketHits.Length == |boundaries|
        invariant fresh(delta) && fresh(delta.bucketHits) && delta.bucketHits != m.bucketCounts
        invariant m.boundaries == boundaries && m.bucketCounts.Length == |boundaries| && fresh(m) && fresh(m.bucketCounts)
        invariant m.Held() == Tally(boundaries, Flatten(bursts[..i]))
        invariant delta.Held() == Tally(boundaries, burst[..j])
      {
        assert burst[..j + 1] == burst[..j] + [burst[j]];
        delta.Record(burst[j], burst[..j]);
      }
      assert burst[..|burst|] == burst;
      FlattenSnoc(bursts, i);
      m.Merge(delta, Flatten(bursts[..i]), burst);
    }
    assert bursts[..|bursts|] == bursts;
    return m.bucketCounts[..], m.count, m.sum, m.negative;
  }
}
