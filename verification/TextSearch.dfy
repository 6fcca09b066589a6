/** `str::find` and what editing a text does to it. */
module TextSearch {
  import opened Bytes

  predicate OccursAt(text: string, pattern: string, i: int) {
    0 <= i && i + |pattern| <= |text| && text[i..i + |pattern|] == pattern
  }

  /** The first occurrence at or after `from`. */
  ghost predicate First(text: string, pattern: string, from: int, i: int) {
    from <= i && OccursAt(text, pattern, i) && forall j :: from <= j < i ==> !OccursAt(text, pattern, j)
  }

  method Find(text: string, pattern: string, from: nat) returns (r: Option<nat>)
    requires from <= |text|
    ensures r.Some? ==> First(text, pattern, from, r.value)
    ensures r.None? ==> forall i :: from <= i ==> !OccursAt(text, pattern, i)
  {
    var i := from;
    while i + |pattern| <= |text|
      invariant from <= i
      invariant forall j :: from <= j < i ==> !OccursAt(text, pattern, j)
    {
      if text[i..i + |pattern|] == pattern {
        return Some(i);
      }
      i := i + 1;
    }
    return None;
  }

  lemma {:induction false} FirstFrom(text: string, pattern: string, from: int, i: int) returns (k: int)
    requires OccursAt(text, pattern, i) && from <= i
    ensures First(text, pattern, from, k) && k <= i
    decreases i - from
  {
    if j :| from <= j < i && OccursAt(text, pattern, j) {
      k := FirstFrom(text, pattern, from, j);
    } else {
      k := i;
    }
  }

  /** Texts that agree on a stretch have the same occurrences inside it. */
  lemma OccursShift(s: string, t: string, pattern: string, i: int, j: int)
    requires 0 <= i && i + |pattern| <= |s| && 0 <= j && j + |pattern| <= |t|
    requires s[i..i + |pattern|] == t[j..j + |pattern|]
    ensures OccursAt(s, pattern, i) <==> OccursAt(t, pattern, j)
  {
  }

  /** Whatever an occurrence covers is in the pattern. */
  lemma Covered(text: string, pattern: string, i: int, k: int)
    requires OccursAt(text, pattern, i) && i <= k < i + |pattern|
    ensures text[k] in pattern
  {
    assert text[i..i + |pattern|][k - i] == text[k];
  }
}
