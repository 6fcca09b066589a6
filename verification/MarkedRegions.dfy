/** Regenerating the marked regions of the snippet README. */
module MarkedRegions {
  import opened Bytes
  import opened Ordering
  import opened TextSearch

  const MARKERS: seq<string> := ["inventory:parsers", "inventory:composers", "inventory:filters", "inventory:functions"]

  function BeginTag(marker: string): string {
    "<!-- BEGIN: " + marker + " -->"
  }

  function EndTag(marker: string): string {
    "<!-- END: " + marker + " -->"
  }

  /** `a` is just after the first BEGIN tag, `e` at the first END tag from there. */
  ghost predicate Located(text: string, marker: string, a: int, e: int) {
    First(text, BeginTag(marker), 0, a - |BeginTag(marker)|) && First(text, EndTag(marker), a, e)
  }

  /** What goes between the tags: always starts and ends with a newline. */
  function Wrapped(generated: string): string {
    "\n" + generated + if generated != [] && generated[|generated| - 1] == '\n' then [] else "\n"
  }

  function Splice(text: string, a: int, e: int, generated: string): string
    requires 0 <= a <= e <= |text|
  {
    text[..a] + Wrapped(generated) + text[e..]
  }

  lemma LocatedBounds(text: string, marker: string, a: int, e: int)
    requires Located(text, marker, a, e)
    ensures |BeginTag(marker)| <= a <= e && e + |EndTag(marker)| <= |text|
  {
  }

  lemma LocatedUnique(text: string, marker: string, a: int, e: int, b: int, f: int)
    requires Located(text, marker, a, e) && Located(text, marker, b, f)
    ensures a == b && e == f
  {
    var tag := BeginTag(marker);
    assert OccursAt(text, tag, a - |tag|) && OccursAt(text, tag, b - |tag|);
  }

  ghost predicate EndsLine(s: string) {
    exists rest :: s == rest + "\n"
  }

  lemma EndsLineIs(s: string)
    ensures EndsLine(s) <==> s != [] && s[|s| - 1] == '\n'
  {
    if s != [] && s[|s| - 1] == '\n' {
      assert s == s[..|s| - 1] + "\n";
    }
  }

  /** Between the tags go a line break, the generated text and, unless it ends a line, another. */
  lemma SpliceIs(text: string, a: int, e: int, generated: string)
    requires 0 <= a <= e <= |text|
    ensures Splice(text, a, e, generated) ==
            text[..a] + ("\n" + generated + (if EndsLine(generated) then "" else "\n")) + text[e..]
  {
    EndsLineIs(generated);
  }

  datatype Result = Ok(text: string) | Err(message: string)

  method ReplaceMarkedRegion(text: string, marker: string, generated: string) returns (r: Result)
    ensures r.Ok? <==> exists a, e :: Located(text, marker, a, e)
    ensures r.Ok? ==> forall a, e :: Located(text, marker, a, e) ==> 0 <= a <= e <= |text| && r.text == Splice(text, a, e, generated)
  {
    var beginTag, endTag := BeginTag(marker), EndTag(marker);
    var beginPos := Find(text, beginTag, 0);
    if beginPos.None? {
      return Err("BEGIN marker not found: " + beginTag);
    }
    var afterBegin := beginPos.value + |beginTag|;
    var endPos := Find(text, endTag, afterBegin);
    if endPos.None? {
      forall a, e ensures !Located(text, marker, a, e) {
        assert OccursAt(text, beginTag, afterBegin - |beginTag|);
        assert Located(text, marker, a, e) ==> OccursAt(text, beginTag, a - |beginTag|);
      }
      return Err("END marker not found after BEGIN: " + endTag);
    }
    assert Located(text, marker, afterBegin, endPos.value);
    var out := text[..afterBegin];
    out := out + "\n";
    out := out + generated;
    if generated == [] || generated[|generated| - 1] != '\n' {
      out := out + "\n";
    }
    out := out + text[endPos.value..];
    forall a, e | Located(text, marker, a, e)
      ensures 0 <= a <= e <= |text| && out == Splice(text, a, e, generated)
    {
      LocatedUnique(text, marker, a, e, afterBegin, endPos.value);
      assert out == text[..a] + Wrapped(generated) + text[e..];
    }
    return Ok(out);
  }

  // ---- one replacement as a function

  ghost predicate HasRegion(text: string, marker: string) {
    exists a, e :: Located(text, marker, a, e)
  }

  ghost function Replace(text: string, marker: string, generated: string): string {
    if HasRegion(text, marker) then
      var a, e :| Located(text, marker, a, e);
      LocatedBounds(text, marker, a, e);
      Splice(text, a, e, generated)
    else text
  }

  lemma ReplaceIs(text: string, marker: string, generated: string, a: int, e: int)
    requires Located(text, marker, a, e)
    ensures 0 <= a <= e <= |text| && Replace(text, marker, generated) == Splice(text, a, e, generated)
  {
    var b, f :| Located(text, marker, b, f) && Replace(text, marker, generated) == Splice(text, b, f, generated);
    LocatedUnique(text, marker, a, e, b, f);
  }

  ghost predicate SingleLine(marker: string) {
    '\n' !in BeginTag(marker) && '\n' !in EndTag(marker)
  }

  /** Generated text does not contain the tags of `marker`. */
  ghost predicate TagFree(generated: string, marker: string) {
    forall i :: !OccursAt(generated, BeginTag(marker), i) && !OccursAt(generated, EndTag(marker), i)
  }

  ghost predicate EndFree(generated: string, marker: string) {
    forall i :: !OccursAt(generated, EndTag(marker), i)
  }

  // ---- how a splice moves occurrences

  /** A one-line tag that starts around the new part lies inside the generated text. */
  lemma InNewPart(text: string, a: int, e: int, generated: string, tag: string, i: int)
    requires 0 <= a <= e <= |text| && '\n' !in tag && tag != []
    requires a - |tag| < i < a + |Wrapped(generated)| && OccursAt(Splice(text, a, e, generated), tag, i)
    ensures OccursAt(generated, tag, i - a - 1)
  {
    var out, w := Splice(text, a, e, generated), Wrapped(generated);
    var last := a + |w| - 1;
    assert out[a] == '\n' && out[last] == w[|w| - 1] == '\n';
    if i <= a {
      Covered(out, tag, i, a);
    } else if i + |tag| > last {
      Covered(out, tag, i, last);
    } else {
      var k := i - a - 1;
      assert out[i..i + |tag|] == generated[k..k + |tag|];
    }
  }

  lemma NotInNewPart(text: string, a: int, e: int, generated: string, tag: string, i: int)
    requires 0 <= a <= e <= |text| && '\n' !in tag && tag != []
    requires forall k :: !OccursAt(generated, tag, k)
    requires a - |tag| < i < a + |Wrapped(generated)|
    ensures !OccursAt(Splice(text, a, e, generated), tag, i)
  {
    if OccursAt(Splice(text, a, e, generated), tag, i) {
      InNewPart(text, a, e, generated, tag, i);
    }
  }

  lemma BeforeSplice(text: string, a: int, e: int, generated: string, tag: string, i: int)
    requires 0 <= a <= e <= |text| && i + |tag| <= a
    ensures OccursAt(Splice(text, a, e, generated), tag, i) <==> OccursAt(text, tag, i)
  {
    if 0 <= i {
      OccursShift(Splice(text, a, e, generated), text, tag, i, i);
    }
  }

  lemma AfterSplice(text: string, a: int, e: int, generated: string, tag: string, i: int)
    requires 0 <= a <= e <= |text| && e <= i
    ensures OccursAt(Splice(text, a, e, generated), tag, i + a + |Wrapped(generated)| - e) <==> OccursAt(text, tag, i)
  {
    var out := Splice(text, a, e, generated);
    var j := i + a + |Wrapped(generated)| - e;
    assert out[a + |Wrapped(generated)|..] == text[e..];
    if i + |tag| <= |text| {
      assert out[j..j + |tag|] == out[a + |Wrapped(generated)|..][i - e..i - e + |tag|] == text[i..i + |tag|];
    }
  }

  // ---- where regions are afterwards

  /** The replaced region itself. */
  lemma OwnRegion(text: string, m: string, a: int, e: int, generated: string)
    requires Located(text, m, a, e) && 0 <= a <= e <= |text| && SingleLine(m) && EndFree(generated, m)
    ensures Located(Splice(text, a, e, generated), m, a, a + |Wrapped(generated)|)
  {
    var out, b, n := Splice(text, a, e, generated), BeginTag(m), EndTag(m);
    var at := a - |b|;
    forall i | i <= at ensures OccursAt(out, b, i) <==> OccursAt(text, b, i) {
      BeforeSplice(text, a, e, generated, b, i);
    }
    AfterSplice(text, a, e, generated, n, e);
    forall j | a <= j < a + |Wrapped(generated)| ensures !OccursAt(out, n, j) {
      NotInNewPart(text, a, e, generated, n, j);
    }
  }

  /** A region before the replaced one stays where it is. */
  lemma EarlierRegion(text: string, a: int, e: int, generated: string, n: string, b: int, f: int)
    requires 0 <= a <= e <= |text| && Located(text, n, b, f) && f + |EndTag(n)| <= a
    ensures Located(Splice(text, a, e, generated), n, b, f)
  {
    var out := Splice(text, a, e, generated);
    var tag, end := BeginTag(n), EndTag(n);
    forall i | i <= b - |tag| ensures OccursAt(out, tag, i) <==> OccursAt(text, tag, i) {
      BeforeSplice(text, a, e, generated, tag, i);
    }
    forall i | i <= f ensures OccursAt(out, end, i) <==> OccursAt(text, end, i) {
      BeforeSplice(text, a, e, generated, end, i);
    }
  }

  /** The first occurrence of a tag, if it is after the splice, stays the first. */
  lemma LaterFirst(text: string, a: int, e: int, generated: string, tag: string, at: int)
    requires 0 <= a <= e <= |text| && e <= at && First(text, tag, 0, at)
    requires '\n' !in tag && tag != [] && forall k :: !OccursAt(generated, tag, k)
    ensures First(Splice(text, a, e, generated), tag, 0, at + a + |Wrapped(generated)| - e)
  {
    var out, d := Splice(text, a, e, generated), a + |Wrapped(generated)| - e;
    AfterSplice(text, a, e, generated, tag, at);
    forall j | 0 <= j < at + d ensures !OccursAt(out, tag, j) {
      if j + |tag| <= a {
        BeforeSplice(text, a, e, generated, tag, j);
      } else if j < a + |Wrapped(generated)| {
        NotInNewPart(text, a, e, generated, tag, j);
      } else {
        AfterSplice(text, a, e, generated, tag, j - d);
      }
    }
  }

  lemma LaterFrom(text: string, a: int, e: int, generated: string, tag: string, from: int, at: int)
    requires 0 <= a <= e <= |text| && e <= from && First(text, tag, from, at)
    ensures var d := a + |Wrapped(generated)| - e; First(Splice(text, a, e, generated), tag, from + d, at + d)
  {
    var out, d := Splice(text, a, e, generated), a + |Wrapped(generated)| - e;
    AfterSplice(text, a, e, generated, tag, at);
    forall j | from + d <= j < at + d ensures !OccursAt(out, tag, j) {
      AfterSplice(text, a, e, generated, tag, j - d);
    }
  }

  /** A region after the replaced one moves with the text. */
  lemma LaterRegion(text: string, a: int, e: int, generated: string, n: string, b: int, f: int)
    requires 0 <= a <= e <= |text| && Located(text, n, b, f) && e <= b - |BeginTag(n)|
    requires SingleLine(n) && TagFree(generated, n)
    ensures var d := a + |Wrapped(generated)| - e; Located(Splice(text, a, e, generated), n, b + d, f + d)
  {
    LaterFirst(text, a, e, generated, BeginTag(n), b - |BeginTag(n)|);
    LaterFrom(text, a, e, generated, EndTag(n), b, f);
  }

  // ---- two regions

  /** The region of `m`, tags included, ends before that of `n` begins. */
  ghost predicate Before(m: string, e: int, n: string, b: int) {
    e + |EndTag(m)| <= b - |BeginTag(n)|
  }

  ghost predicate Disjoint(text: string, m: string, n: string) {
    exists a, e, b, f :: Located(text, m, a, e) && Located(text, n, b, f) && (Before(m, e, n, b) || Before(n, f, m, a))
  }

  lemma DisjointAt(text: string, m: string, n: string, a: int, e: int, b: int, f: int)
    requires Disjoint(text, m, n) && Located(text, m, a, e) && Located(text, n, b, f)
    ensures Before(m, e, n, b) || Before(n, f, m, a)
  {
    var a', e', b', f' := RegionsOf(text, m, n);
    LocatedUnique(text, m, a, e, a', e');
    LocatedUnique(text, n, b, f, b', f');
  }

  /** Where another region is after a replacement, and that it keeps its place among the others. */
  ghost function Moved(a: int, e: int, generated: string, x: int): int {
    if x <= a then x else x + a + |Wrapped(generated)| - e
  }

  lemma OtherRegion(text: string, m: string, a: int, e: int, generated: string, n: string, b: int, f: int)
    requires Located(text, m, a, e) && Located(text, n, b, f) && (Before(m, e, n, b) || Before(n, f, m, a))
    requires SingleLine(n) && TagFree(generated, n)
    ensures 0 <= a <= e <= |text|
    ensures Located(Splice(text, a, e, generated), n, Moved(a, e, generated, b), Moved(a, e, generated, f))
  {
    LocatedBounds(text, m, a, e);
    LocatedBounds(text, n, b, f);
    if Before(m, e, n, b) {
      LaterRegion(text, a, e, generated, n, b, f);
    } else {
      EarlierRegion(text, a, e, generated, n, b, f);
    }
  }

  lemma DisjointIntro(text: string, m: string, n: string, a: int, e: int, b: int, f: int)
    requires Located(text, m, a, e) && Located(text, n, b, f) && (Before(m, e, n, b) || Before(n, f, m, a))
    ensures Disjoint(text, m, n)
  {
  }

  lemma TagLengths(m: string)
    ensures |BeginTag(m)| > 0 && |EndTag(m)| > 0
  {
  }

  /** Three stretches of text that do not touch keep their order when the first one changes size.
      `l..` are the lengths of the tags in front of and behind each stretch. */
  lemma MovedKeepsOrder(a: int, e: int, w: string, lb: nat, le: nat, b: int, f: int, mb: nat, me: nat, c: int, g: int, nb: nat, ne: nat)
    requires a <= e && b <= f && c <= g && lb > 0 && le > 0 && mb > 0 && me > 0 && nb > 0 && ne > 0
    requires e + le <= b - mb || f + me <= a - lb
    requires e + le <= c - nb || g + ne <= a - lb
    requires f + me <= c - nb
    ensures Moved(a, e, w, f) + me <= Moved(a, e, w, c) - nb
  {
  }

  lemma KeepsDisjoint(text: string, m: string, generated: string, n: string, p: string)
    requires Disjoint(text, m, n) && Disjoint(text, m, p) && Disjoint(text, n, p)
    requires SingleLine(n) && SingleLine(p) && TagFree(generated, n) && TagFree(generated, p)
    ensures Disjoint(Replace(text, m, generated), n, p)
  {
    var a, e, b, f := RegionsOf(text, m, n);
    var _, _, c, g := RegionsOf(text, m, p);
    KeepsDisjointAt(text, m, a, e, generated, n, b, f, p, c, g);
  }

  lemma RegionsOf(text: string, m: string, n: string) returns (a: int, e: int, b: int, f: int)
    requires Disjoint(text, m, n)
    ensures Located(text, m, a, e) && Located(text, n, b, f) && (Before(m, e, n, b) || Before(n, f, m, a))
  {
    a, e, b, f :| Located(text, m, a, e) && Located(text, n, b, f) && (Before(m, e, n, b) || Before(n, f, m, a));
  }

  lemma KeepsDisjointAt(text: string, m: string, a: int, e: int, generated: string, n: string, b: int, f: int, p: string, c: int, g: int)
    requires Located(text, m, a, e) && Located(text, n, b, f) && Located(text, p, c, g)
    requires Disjoint(text, m, n) && Disjoint(text, m, p) && Disjoint(text, n, p)
    requires SingleLine(n) && SingleLine(p) && TagFree(generated, n) && TagFree(generated, p)
    ensures Disjoint(Replace(text, m, generated), n, p)
  {
    DisjointAt(text, m, n, a, e, b, f);
    DisjointAt(text, m, p, a, e, c, g);
    DisjointAt(text, n, p, b, f, c, g);
    OtherRegion(text, m, a, e, generated, n, b, f);
    OtherRegion(text, m, a, e, generated, p, c, g);
    ReplaceIs(text, m, generated, a, e);
    LocatedBounds(text, n, b, f);
    LocatedBounds(text, p, c, g);
    TagLengths(m);
    TagLengths(n);
    TagLengths(p);
    if Before(n, f, p, c) {
      MovedKeepsOrder(a, e, generated, |BeginTag(m)|, |EndTag(m)|, b, f, |BeginTag(n)|, |EndTag(n)|, c, g, |BeginTag(p)|, |EndTag(p)|);
    } else {
      MovedKeepsOrder(a, e, generated, |BeginTag(m)|, |EndTag(m)|, c, g, |BeginTag(p)|, |EndTag(p)|, b, f, |BeginTag(n)|, |EndTag(n)|);
    }
    DisjointIntro(Splice(text, a, e, generated), n, p, Moved(a, e, generated, b), Moved(a, e, generated, f),
                  Moved(a, e, generated, c), Moved(a, e, generated, g));
  }

  lemma MovedAround(a: int, e: int, generated: string, lb: nat, le: nat, b: int, f: int, mb: nat, me: nat)
    requires a <= e && b <= f && lb > 0 && le > 0 && mb > 0 && me > 0
    requires e + le <= b - mb || f + me <= a - lb
    ensures a + |Wrapped(generated)| + le <= Moved(a, e, generated, b) - mb || Moved(a, e, generated, f) + me <= a - lb
  {
  }

  lemma KeepsDisjointOwn(text: string, m: string, generated: string, n: string)
    requires Disjoint(text, m, n) && SingleLine(m) && SingleLine(n) && TagFree(generated, m) && TagFree(generated, n)
    ensures Disjoint(Replace(text, m, generated), m, n)
  {
    var a, e, b, f := RegionsOf(text, m, n);
    KeepsDisjointOwnAt(text, m, generated, n, a, e, b, f);
  }

  lemma KeepsDisjointOwnAt(text: string, m: string, generated: string, n: string, a: int, e: int, b: int, f: int)
    requires Located(text, m, a, e) && Located(text, n, b, f) && (Before(m, e, n, b) || Before(n, f, m, a))
    requires SingleLine(m) && SingleLine(n) && TagFree(generated, m) && TagFree(generated, n)
    ensures Disjoint(Replace(text, m, generated), m, n)
  {
    OtherRegion(text, m, a, e, generated, n, b, f);
    OwnRegion(text, m, a, e, generated);
    ReplaceIs(text, m, generated, a, e);
    LocatedBounds(text, n, b, f);
    TagLengths(m);
    TagLengths(n);
    MovedAround(a, e, generated, |BeginTag(m)|, |EndTag(m)|, b, f, |BeginTag(n)|, |EndTag(n)|);
    DisjointIntro(Splice(text, a, e, generated), m, n, a, a + |Wrapped(generated)|,
                  Moved(a, e, generated, b), Moved(a, e, generated, f));
  }

  /** A second replacement of the same region undoes the first. */
  lemma Overwrite(text: string, m: string, first: string, second: string)
    requires HasRegion(text, m) && SingleLine(m) && EndFree(first, m)
    ensures Replace(Replace(text, m, first), m, second) == Replace(text, m, second)
  {
    var a, e :| Located(text, m, a, e);
    ReplaceIs(text, m, first, a, e);
    ReplaceIs(text, m, second, a, e);
    OwnRegion(text, m, a, e, first);
    var out := Splice(text, a, e, first);
    ReplaceIs(out, m, second, a, a + |Wrapped(first)|);
    assert out[..a] == text[..a] && out[a + |Wrapped(first)|..] == text[e..];
  }

  /** An END tag inside the generated text is taken for the real one the next time. */
  lemma EndTagInside(text: string, m: string, a: int, e: int, generated: string, i: int)
    requires Located(text, m, a, e) && 0 <= a <= e <= |text| && SingleLine(m) && First(generated, EndTag(m), 0, i)
    ensures Located(Splice(text, a, e, generated), m, a, a + 1 + i)
  {
    var out, b, n := Splice(text, a, e, generated), BeginTag(m), EndTag(m);
    var at := a - |b|;
    forall j | j <= at ensures OccursAt(out, b, j) <==> OccursAt(text, b, j) {
      BeforeSplice(text, a, e, generated, b, j);
    }
    assert out[a + 1 + i..a + 1 + i + |n|] == generated[i..i + |n|];
    forall j | a <= j < a + 1 + i ensures !OccursAt(out, n, j) {
      if OccursAt(out, n, j) {
        InNewPart(text, a, e, generated, n, j);
      }
    }
  }

  /** Replacing a region twice is replacing it once exactly when the new text has no END tag. */
  lemma IdempotentIffEndFree(text: string, m: string, generated: string)
    requires HasRegion(text, m) && SingleLine(m)
    ensures Replace(Replace(text, m, generated), m, generated) == Replace(text, m, generated) <==> EndFree(generated, m)
  {
    if EndFree(generated, m) {
      Overwrite(text, m, generated, generated);
    } else {
      var i :| OccursAt(generated, EndTag(m), i);
      var k := FirstFrom(generated, EndTag(m), 0, i);
      var a, e :| Located(text, m, a, e);
      GrowsEachTime(text, m, a, e, generated, k);
    }
  }

  lemma GrowsEachTime(text: string, m: string, a: int, e: int, generated: string, k: int)
    requires Located(text, m, a, e) && SingleLine(m) && First(generated, EndTag(m), 0, k)
    ensures |Replace(Replace(text, m, generated), m, generated)| > |Replace(text, m, generated)|
  {
    ReplaceIs(text, m, generated, a, e);
    EndTagInside(text, m, a, e, generated, k);
    ReplaceIs(Splice(text, a, e, generated), m, generated, a, a + 1 + k);
    TagLengths(m);
  }

  /** Two splices, the later part of the text first or last. */
  lemma SpliceTwice(text: string, a: int, e: int, gm: string, b: int, f: int, gn: string)
    requires 0 <= a <= e <= b <= f <= |text|
    ensures var d := a + |Wrapped(gm)| - e; Splice(Splice(text, a, e, gm), b + d, f + d, gn) == Splice(Splice(text, b, f, gn), a, e, gm)
  {
    var x, y, d := Splice(text, a, e, gm), Splice(text, b, f, gn), a + |Wrapped(gm)| - e;
    assert x[..b + d] == text[..a] + Wrapped(gm) + text[e..b];
    assert x[f + d..] == text[f..];
    assert y[..a] == text[..a];
    assert y[e..] == text[e..b] + Wrapped(gn) + text[f..];
  }

  lemma ReplaceOther(text: string, m: string, gm: string, a: int, e: int, n: string, gn: string, b: int, f: int)
    requires Located(text, m, a, e) && Located(text, n, b, f) && (Before(m, e, n, b) || Before(n, f, m, a))
    requires SingleLine(n) && TagFree(gm, n)
    ensures var x, b', f' := Replace(text, m, gm), Moved(a, e, gm, b), Moved(a, e, gm, f);
            0 <= a <= e <= |text| && x == Splice(text, a, e, gm) && 0 <= b' <= f' <= |x| && Replace(x, n, gn) == Splice(x, b', f', gn)
  {
    ReplaceIs(text, m, gm, a, e);
    OtherRegion(text, m, a, e, gm, n, b, f);
    ReplaceIs(Splice(text, a, e, gm), n, gn, Moved(a, e, gm, b), Moved(a, e, gm, f));
  }

  lemma CommuteOrdered(text: string, m: string, gm: string, n: string, gn: string, a: int, e: int, b: int, f: int)
    requires Located(text, m, a, e) && Located(text, n, b, f) && Before(m, e, n, b)
    requires SingleLine(m) && SingleLine(n) && TagFree(gm, n) && TagFree(gn, m)
    ensures Replace(Replace(text, m, gm), n, gn) == Replace(Replace(text, n, gn), m, gm)
  {
    LocatedBounds(text, n, b, f);
    TagLengths(m);
    TagLengths(n);
    ReplaceOther(text, m, gm, a, e, n, gn, b, f);
    ReplaceOther(text, n, gn, b, f, m, gm, a, e);
    SpliceTwice(text, a, e, gm, b, f, gn);
  }

  /** Replacements of disjoint regions commute. */
  lemma Commute(text: string, m: string, gm: string, n: string, gn: string)
    requires Disjoint(text, m, n) && SingleLine(m) && SingleLine(n) && TagFree(gm, n) && TagFree(gn, m)
    ensures Replace(Replace(text, m, gm), n, gn) == Replace(Replace(text, n, gn), m, gm)
  {
    var a, e, b, f := RegionsOf(text, m, n);
    if Before(m, e, n, b) {
      CommuteOrdered(text, m, gm, n, gn, a, e, b, f);
    } else {
      CommuteOrdered(text, n, gn, m, gm, b, f, a, e);
    }
  }

  // ---- all regions

  /** Every marker of the set has a region, and no two regions touch. */
  ghost predicate Ready(text: string, markers: set<string>) {
    && (forall m :: m in markers ==> SingleLine(m))
    && (forall m {:trigger HasRegion(text, m)} :: m in markers ==> HasRegion(text, m))
    && (forall m, n {:trigger Disjoint(text, m, n)} :: m in markers && n in markers && m != n ==> Disjoint(text, m, n))
  }

  ghost predicate Clean(block: string -> string, markers: set<string>) {
    forall m, n :: m in markers && n in markers ==> TagFree(block(m), n)
  }

  /** The substitutions of `run`, in the given order. */
  ghost function Regenerated(text: string, markers: seq<string>, block: string -> string): string
    decreases |markers|
  {
    if markers == [] then text
    else Regenerated(Replace(text, markers[0], block(markers[0])), markers[1..], block)
  }

  lemma StaysDisjoint(text: string, all: set<string>, m: string, generated: string, n: string, p: string)
    requires Ready(text, all) && m in all && forall x :: x in all ==> TagFree(generated, x)
    requires n in all && p in all && n != p
    ensures Disjoint(Replace(text, m, generated), n, p)
  {
    if n == m {
      KeepsDisjointOwn(text, m, generated, p);
    } else if p == m {
      KeepsDisjointOwn(text, m, generated, n);
      DisjointSymmetric(Replace(text, m, generated), m, n);
    } else {
      KeepsDisjoint(text, m, generated, n, p);
    }
  }

  lemma OwnRegionStays(text: string, m: string, generated: string)
    requires HasRegion(text, m) && SingleLine(m) && TagFree(generated, m)
    ensures HasRegion(Replace(text, m, generated), m)
  {
    var a, e :| Located(text, m, a, e);
    ReplaceIs(text, m, generated, a, e);
    OwnRegion(text, m, a, e, generated);
  }

  lemma StaysReady(text: string, all: set<string>, m: string, generated: string)
    requires Ready(text, all) && m in all && forall n :: n in all ==> TagFree(generated, n)
    ensures Ready(Replace(text, m, generated), all)
  {
    var out := Replace(text, m, generated);
    forall n, p | n in all && p in all && n != p ensures Disjoint(out, n, p) {
      StaysDisjoint(text, all, m, generated, n, p);
    }
    forall n | n in all ensures HasRegion(out, n) {
      if n == m {
        OwnRegionStays(text, m, generated);
      } else {
        StaysDisjoint(text, all, m, generated, m, n);
        var _, _, b, f := RegionsOf(out, m, n);
      }
    }
  }

  lemma DisjointSymmetric(text: string, m: string, n: string)
    requires Disjoint(text, m, n)
    ensures Disjoint(text, n, m)
  {
    var a, e, b, f := RegionsOf(text, m, n);
    assert Located(text, n, b, f) && Located(text, m, a, e);
  }

  /** A replacement can be done before or after those of other markers. */
  lemma {:induction false} PastOthers(text: string, all: set<string>, m: string, generated: string,
                                      markers: seq<string>, block: string -> string)
    requires Ready(text, all) && Clean(block, all) && m in all && forall n :: n in all ==> TagFree(generated, n)
    requires forall n :: n in markers ==> n in all && n != m
    ensures Replace(Regenerated(text, markers, block), m, generated) ==
            Regenerated(Replace(text, m, generated), markers, block)
    decreases |markers|
  {
    if markers != [] {
      var n := markers[0];
      assert n in markers;
      StaysReady(text, all, n, block(n));
      PastOthers(Replace(text, n, block(n)), all, m, generated, markers[1..], block);
      DisjointSymmetric(text, m, n);
      Commute(text, n, block(n), m, generated);
    }
  }

  /** Only the last regeneration counts: whatever was in the regions before is gone and nothing
      else has changed. */
  lemma {:induction false} LastRegenerationWins(text: string, all: set<string>, markers: seq<string>,
                                                first: string -> string, second: string -> string)
    requires Ready(text, all) && Clean(first, all) && Clean(second, all)
    requires NoDup(markers) && forall m :: m in markers ==> m in all
    ensures Regenerated(Regenerated(text, markers, first), markers, second) == Regenerated(text, markers, second)
    decreases |markers|
  {
    if markers != [] {
      var m, rest := markers[0], markers[1..];
      assert m in markers;
      forall n | n in rest ensures n in all && n != m {
        var i :| 0 <= i < |rest| && rest[i] == n;
        assert markers[i + 1] == n;
      }
      var once := Replace(text, m, first(m));
      StaysReady(text, all, m, first(m));
      StaysReady(text, all, m, second(m));
      PastOthers(once, all, m, second(m), rest, first);
      Overwrite(text, m, first(m), second(m));
      LastRegenerationWins(Replace(text, m, second(m)), all, rest, first, second);
    }
  }

  lemma SwapFirst(text: string, all: set<string>, x: string, m: string, block: string -> string)
    requires Ready(text, all) && Clean(block, all) && x in all && m in all
    ensures Replace(Replace(text, x, block(x)), m, block(m)) == Replace(Replace(text, m, block(m)), x, block(x))
  {
    if x != m {
      Commute(text, x, block(x), m, block(m));
    }
  }

  lemma RegeneratedCons(text: string, x: string, rest: seq<string>, block: string -> string)
    ensures Regenerated(text, [x] + rest, block) == Regenerated(Replace(text, x, block(x)), rest, block)
  {
    assert ([x] + rest)[1..] == rest;
  }

  /** Once a marker is in front of the rest, it can be swapped with the one before it. */
  lemma SwapWithFirst(text: string, all: set<string>, x: string, m: string, rest: seq<string>, others: seq<string>, block: string -> string)
    requires Ready(text, all) && Clean(block, all) && x in all && m in all
    requires var t := Replace(text, x, block(x)); Regenerated(t, rest, block) == Regenerated(Replace(t, m, block(m)), others, block)
    ensures Regenerated(text, [x] + rest, block) == Regenerated(Replace(text, m, block(m)), [x] + others, block)
  {
    RegeneratedCons(text, x, rest, block);
    SwapFirst(text, all, x, m, block);
    RegeneratedCons(Replace(text, m, block(m)), x, others, block);
  }

  lemma FirstOut(front: seq<string>, m: string, back: seq<string>)
    requires front != []
    ensures front + [m] + back == [front[0]] + (front[1..] + [m] + back)
    ensures front + back == [front[0]] + (front[1..] + back)
  {
    assert front == [front[0]] + front[1..];
  }

  lemma {:induction false} BringForward(text: string, all: set<string>, front: seq<string>, m: string, back: seq<string>,
                                        block: string -> string)
    requires Ready(text, all) && Clean(block, all) && m in all && forall i :: 0 <= i < |front| ==> front[i] in all
    ensures Regenerated(text, front + [m] + back, block) == Regenerated(Replace(text, m, block(m)), front + back, block)
    decreases |front|
  {
    if front == [] {
      assert front + [m] + back == [m] + back && front + back == back;
      RegeneratedCons(text, m, back, block);
    } else {
      var x, rest := front[0], front[1..];
      StaysReady(text, all, x, block(x));
      BringForward(Replace(text, x, block(x)), all, rest, m, back, block);
      SwapWithFirst(text, all, x, m, rest + [m] + back, rest + back, block);
      FirstOut(front, m, back);
    }
  }

  /** The order of the markers does not matter. */
  lemma {:induction false} OrderIsIrrelevant(text: string, all: set<string>, p: seq<string>, q: seq<string>, block: string -> string)
    requires Ready(text, all) && Clean(block, all) && multiset(p) == multiset(q)
    requires forall i :: 0 <= i < |p| ==> p[i] in all
    ensures Regenerated(text, p, block) == Regenerated(text, q, block)
    decreases |p|
  {
    if p == [] {
      SameLength(p, q);
    } else {
      var k := TakeOut(p, q);
      var rest := q[..k] + q[k + 1..];
      SameMembers(p, q, all);
      assert q == q[..k] + [p[0]] + q[k + 1..];
      BringForward(text, all, q[..k], p[0], q[k + 1..], block);
      StaysReady(text, all, p[0], block(p[0]));
      OrderIsIrrelevant(Replace(text, p[0], block(p[0])), all, p[1..], rest, block);
    }
  }

  lemma SameMembers<T>(p: seq<T>, q: seq<T>, all: set<T>)
    requires multiset(p) == multiset(q) && forall i :: 0 <= i < |p| ==> p[i] in all
    ensures forall i :: 0 <= i < |q| ==> q[i] in all
  {
    SameLength(q, p);
    forall i | 0 <= i < |q| ensures q[i] in all {
      assert q[i] in p;
    }
  }

  // ---- what is outside the regions

  /** A marker and the stretch of text between its tags. */
  datatype Region = Region(marker: string, a: int, e: int)

  function MarkerOf(r: Region): string {
    r.marker
  }

  ghost predicate Follows(r: Region, s: Region) {
    Before(s.marker, s.e, r.marker, r.a)
  }

  /** Where these regions are in the text, from the last to the first. */
  ghost predicate Placed(text: string, regions: seq<Region>) {
    && (forall i :: 0 <= i < |regions| ==> Located(text, regions[i].marker, regions[i].a, regions[i].e))
    && (forall i, j :: 0 <= i < j < |regions| ==> Follows(regions[i], regions[j]))
  }

  ghost predicate Fits(regions: seq<Region>, end: int) {
    && (forall i :: 0 <= i < |regions| ==> 0 <= regions[i].a <= regions[i].e <= end)
    && (forall i, j :: 0 <= i < j < |regions| ==> regions[j].e <= regions[i].a)
  }

  /** The text up to `end`: every byte outside the regions, with the blocks between the tags. */
  ghost function Assembled(text: string, regions: seq<Region>, end: int, block: string -> string): string
    requires 0 <= end <= |text| && Fits(regions, end)
    decreases |regions|
  {
    if regions == [] then text[..end]
    else
      var r := regions[0];
      Assembled(text, regions[1..], r.a, block) + Wrapped(block(r.marker)) + text[r.e..end]
  }

  lemma {:induction false} AssembledAgrees(x: string, y: string, regions: seq<Region>, end: int, block: string -> string)
    requires 0 <= end <= |x| && end <= |y| && Fits(regions, end) && x[..end] == y[..end]
    ensures Assembled(x, regions, end, block) == Assembled(y, regions, end, block)
    decreases |regions|
  {
    if regions != [] {
      var r := regions[0];
      assert x[..r.a] == x[..end][..r.a] == y[..r.a];
      assert x[r.e..end] == x[..end][r.e..] == y[r.e..end];
      AssembledAgrees(x, y, regions[1..], r.a, block);
    }
  }

  lemma AssembledTail(x: string, regions: seq<Region>, end: int, block: string -> string)
    requires 0 <= end <= |x| && Fits(regions, end)
    ensures Assembled(x, regions, |x|, block) == Assembled(x, regions, end, block) + x[end..]
  {
    if regions == [] {
      assert x[..|x|] == x[..end] + x[end..];
    } else {
      var r := regions[0];
      var head := Assembled(x, regions[1..], r.a, block) + Wrapped(block(r.marker));
      TailSplits(head, x, r.e, end);
    }
  }

  lemma TailSplits(head: string, x: string, from: int, end: int)
    requires 0 <= from <= end <= |x|
    ensures head + x[from..|x|] == head + x[from..end] + x[end..]
  {
    assert x[from..|x|] == x[from..end] + x[end..];
  }

  lemma PlacedFits(text: string, regions: seq<Region>)
    requires Placed(text, regions)
    ensures Fits(regions, |text|)
  {
    forall i | 0 <= i < |regions| ensures 0 <= regions[i].a <= regions[i].e <= |text| {
      LocatedBounds(text, regions[i].marker, regions[i].a, regions[i].e);
    }
    forall i, j | 0 <= i < j < |regions| ensures regions[j].e <= regions[i].a {
      assert Follows(regions[i], regions[j]);
    }
  }

  /** Replacing the last region leaves the others where they are. */
  lemma LastReplaced(text: string, regions: seq<Region>, generated: string)
    requires regions != [] && Placed(text, regions)
    ensures var r := regions[0];
            && 0 <= r.a <= r.e <= |text| && Fits(regions[1..], r.a)
            && Replace(text, r.marker, generated) == Splice(text, r.a, r.e, generated)
            && Placed(Splice(text, r.a, r.e, generated), regions[1..])
  {
    var r, rest := regions[0], regions[1..];
    ReplaceIs(text, r.marker, generated, r.a, r.e);
    PlacedFits(text, regions);
    forall i | 0 <= i < |rest| ensures Located(Splice(text, r.a, r.e, generated), rest[i].marker, rest[i].a, rest[i].e) {
      assert Follows(regions[0], regions[i + 1]);
      EarlierRegion(text, r.a, r.e, generated, rest[i].marker, rest[i].a, rest[i].e);
    }
    forall i, j | 0 <= i < j < |rest| ensures Follows(rest[i], rest[j]) {
      assert Follows(regions[i + 1], regions[j + 1]);
    }
  }

  lemma {:induction false} FromTheEnd(text: string, regions: seq<Region>, block: string -> string)
    requires Placed(text, regions)
    ensures Fits(regions, |text|)
    ensures Regenerated(text, Map(MarkerOf, regions), block) == Assembled(text, regions, |text|, block)
    decreases |regions|
  {
    PlacedFits(text, regions);
    if regions == [] {
      assert text[..|text|] == text;
    } else {
      var r, rest := regions[0], regions[1..];
      var out := Splice(text, r.a, r.e, block(r.marker));
      LastReplaced(text, regions, block(r.marker));
      MapFirst(MarkerOf, regions);
      RegeneratedCons(text, r.marker, Map(MarkerOf, rest), block);
      FromTheEnd(out, rest, block);
      AssembledSplice(text, regions, block);
    }
  }

  lemma AssembledSplice(text: string, regions: seq<Region>, block: string -> string)
    requires regions != [] && Fits(regions, |text|) && Fits(regions[1..], regions[0].a)
    ensures var out := Splice(text, regions[0].a, regions[0].e, block(regions[0].marker));
            Fits(regions[1..], |out|) && Assembled(out, regions[1..], |out|, block) == Assembled(text, regions, |text|, block)
  {
    var r, rest := regions[0], regions[1..];
    var out := Splice(text, r.a, r.e, block(r.marker));
    AssembledTail(out, rest, r.a, block);
    AssembledAgrees(out, text, rest, r.a, block);
    assert out[r.a..] == Wrapped(block(r.marker)) + text[r.e..];
  }

  lemma FollowsThrough(text: string, r: Region, s: Region, t: Region)
    requires Located(text, s.marker, s.a, s.e) && Follows(r, s) && Follows(s, t)
    ensures Follows(r, t)
  {
    LocatedBounds(text, s.marker, s.a, s.e);
  }

  /** Put one more region in its place. */
  lemma {:induction false} Place(text: string, regions: seq<Region>, r: Region) returns (s: seq<Region>)
    requires Placed(text, regions) && Located(text, r.marker, r.a, r.e)
    requires forall i :: 0 <= i < |regions| ==> Follows(r, regions[i]) || Follows(regions[i], r)
    ensures Placed(text, s) && multiset(s) == multiset([r] + regions)
    decreases |regions|
  {
    if regions == [] || Follows(r, regions[0]) {
      s := [r] + regions;
      forall j | 0 <= j < |regions| ensures Follows(r, regions[j]) {
        if j > 0 {
          FollowsThrough(text, r, regions[0], regions[j]);
        }
      }
      PlacedCons(text, r, regions);
    } else {
      var first, rest := regions[0], regions[1..];
      PlacedRest(text, regions);
      var t := Place(text, rest, r);
      s := [first] + t;
      SameLength(t, [r] + rest);
      forall j | 0 <= j < |t| ensures Follows(first, t[j]) {
        assert t[j] in [r] + rest;
      }
      PlacedCons(text, first, t);
      assert regions == [first] + rest;
    }
  }

  lemma PlacedCons(text: string, r: Region, regions: seq<Region>)
    requires Placed(text, regions) && Located(text, r.marker, r.a, r.e)
    requires forall j :: 0 <= j < |regions| ==> Follows(r, regions[j])
    ensures Placed(text, [r] + regions)
  {
  }

  lemma PlacedRest(text: string, regions: seq<Region>)
    requires Placed(text, regions) && regions != []
    ensures Placed(text, regions[1..])
    ensures forall j :: 0 <= j < |regions[1..]| ==> Follows(regions[0], regions[1..][j])
  {
    var rest := regions[1..];
    forall i, j | 0 <= i < j < |rest| ensures Follows(rest[i], rest[j]) {
      assert Follows(regions[i + 1], regions[j + 1]);
    }
  }

  lemma {:induction false} PlaceAll(text: string, all: set<string>, markers: seq<string>) returns (regions: seq<Region>)
    requires Ready(text, all) && NoDup(markers) && forall i :: 0 <= i < |markers| ==> markers[i] in all
    ensures Placed(text, regions) && multiset(Map(MarkerOf, regions)) == multiset(markers)
    decreases |markers|
  {
    if markers == [] {
      return [];
    }
    var m, rest := markers[0], markers[1..];
    var others := PlaceAll(text, all, rest);
    var r := RegionOf(text, all, m);
    forall i | 0 <= i < |others| ensures Follows(r, others[i]) || Follows(others[i], r) {
      assert Map(MarkerOf, others)[i] == others[i].marker;
      var k := MarkerAmong(Map(MarkerOf, others), rest, i);
      assert markers[k + 1] == others[i].marker;
      EitherFollows(text, all, r, others[i]);
    }
    regions := Place(text, others, r);
    OneMoreMarker(regions, r, others, markers);
  }

  lemma RegionOf(text: string, all: set<string>, m: string) returns (r: Region)
    requires Ready(text, all) && m in all
    ensures r.marker == m && Located(text, m, r.a, r.e)
  {
    assert HasRegion(text, m);
    var a, e :| Located(text, m, a, e);
    r := Region(m, a, e);
  }

  lemma MarkerAmong(s: seq<string>, t: seq<string>, i: int) returns (k: int)
    requires multiset(s) == multiset(t) && 0 <= i < |s|
    ensures 0 <= k < |t| && t[k] == s[i]
  {
    SameLength(s, t);
    assert s[i] in t;
    k :| 0 <= k < |t| && t[k] == s[i];
  }

  lemma EitherFollows(text: string, all: set<string>, r: Region, s: Region)
    requires Ready(text, all) && r.marker in all && s.marker in all && r.marker != s.marker
    requires Located(text, r.marker, r.a, r.e) && Located(text, s.marker, s.a, s.e)
    ensures Follows(r, s) || Follows(s, r)
  {
    assert Disjoint(text, r.marker, s.marker);
    DisjointAt(text, r.marker, s.marker, r.a, r.e, s.a, s.e);
  }

  lemma OneMoreMarker(regions: seq<Region>, r: Region, others: seq<Region>, markers: seq<string>)
    requires markers != [] && r.marker == markers[0] && multiset(regions) == multiset([r] + others)
    requires multiset(Map(MarkerOf, others)) == multiset(markers[1..])
    ensures multiset(Map(MarkerOf, regions)) == multiset(markers)
  {
    MapPermutation(MarkerOf, regions, [r] + others);
    MapFirst(MarkerOf, [r] + others);
    assert ([r] + others)[1..] == others && markers == [markers[0]] + markers[1..];
  }

  /** Regeneration, in whatever order, puts the blocks between the tags and keeps every byte
      outside the regions, tags included. */
  lemma OutsideIsKept(text: string, all: set<string>, markers: seq<string>, block: string -> string) returns (regions: seq<Region>)
    requires Ready(text, all) && Clean(block, all)
    requires NoDup(markers) && forall i :: 0 <= i < |markers| ==> markers[i] in all
    ensures Placed(text, regions) && Fits(regions, |text|) && multiset(Map(MarkerOf, regions)) == multiset(markers)
    ensures Regenerated(text, markers, block) == Assembled(text, regions, |text|, block)
  {
    regions := PlaceAll(text, all, markers);
    OrderIsIrrelevant(text, all, markers, Map(MarkerOf, regions), block);
    FromTheEnd(text, regions, block);
  }

  // ---- the command

  /** Each marker has its region in the text as the replacements before it leave it. */
  ghost predicate AllFound(text: string, markers: seq<string>, block: string -> string)
    decreases |markers|
  {
    markers == [] ||
    (HasRegion(text, markers[0]) && AllFound(Replace(text, markers[0], block(markers[0])), markers[1..], block))
  }

  /** No two regions touch, among those of the markers that have one. */
  ghost predicate Separate(text: string, all: set<string>) {
    && (forall m :: m in all ==> SingleLine(m))
    && (forall m, n {:trigger Disjoint(text, m, n)} ::
          m in all && n in all && m != n && HasRegion(text, m) && HasRegion(text, n) ==> Disjoint(text, m, n))
  }

  ghost predicate EachHasRegion(text: string, markers: seq<string>) {
    forall m {:trigger HasRegion(text, m)} :: m in markers ==> HasRegion(text, m)
  }

  /** A tag around a splice was there before, on the same side. */
  lemma TagWasThere(text: string, a: int, e: int, generated: string, tag: string, i: int) returns (k: int)
    requires 0 <= a <= e <= |text| && '\n' !in tag && tag != [] && forall k :: !OccursAt(generated, tag, k)
    requires OccursAt(Splice(text, a, e, generated), tag, i)
    ensures OccursAt(text, tag, k)
    ensures (k == i && k + |tag| <= a) || (k >= e && k == i - a - |Wrapped(generated)| + e)
  {
    if i + |tag| <= a {
      BeforeSplice(text, a, e, generated, tag, i);
      k := i;
    } else if i < a + |Wrapped(generated)| {
      NotInNewPart(text, a, e, generated, tag, i);
      assert false;
    } else {
      k := i - a - |Wrapped(generated)| + e;
      AfterSplice(text, a, e, generated, tag, k);
    }
  }

  lemma TagsMakeRegion(text: string, m: string, i: int, j: int)
    requires OccursAt(text, BeginTag(m), i) && OccursAt(text, EndTag(m), j) && i + |BeginTag(m)| <= j
    ensures HasRegion(text, m)
  {
    var b := FirstFrom(text, BeginTag(m), 0, i);
    var from := b + |BeginTag(m)|;
    var e := FirstFrom(text, EndTag(m), from, j);
    assert Located(text, m, from, e);
  }

  /** Text without tags creates no region. */
  lemma NoNewRegion(text: string, m: string, generated: string, n: string)
    requires SingleLine(n) && TagFree(generated, n) && HasRegion(Replace(text, m, generated), n)
    ensures HasRegion(text, n)
  {
    if HasRegion(text, m) {
      var a, e :| Located(text, m, a, e);
      ReplaceIs(text, m, generated, a, e);
      var out := Splice(text, a, e, generated);
      var b, f :| Located(out, n, b, f);
      var i := TagWasThere(text, a, e, generated, BeginTag(n), b - |BeginTag(n)|);
      var j := TagWasThere(text, a, e, generated, EndTag(n), f);
      TagsMakeRegion(text, n, i, j);
    }
  }

  /** A marker without tags stays without, so the run fails at it. */
  lemma {:induction false} FoundWasThere(text: string, all: set<string>, markers: seq<string>, block: string -> string, m: string)
    requires Clean(block, all) && (forall n :: n in all ==> SingleLine(n)) && m in markers
    requires (forall n :: n in markers ==> n in all) && AllFound(text, markers, block)
    ensures HasRegion(text, m)
    decreases |markers|
  {
    var x, rest := markers[0], markers[1..];
    assert x in markers && markers == [x] + rest;
    if m != x {
      FoundWasThere(Replace(text, x, block(x)), all, rest, block, m);
      NoNewRegion(text, x, block(x), m);
    }
  }

  lemma {:induction false} ReadyIsFound(text: string, all: set<string>, markers: seq<string>, block: string -> string)
    requires Ready(text, all) && Clean(block, all) && forall m :: m in markers ==> m in all
    ensures AllFound(text, markers, block)
    decreases |markers|
  {
    if markers != [] {
      assert markers[0] in markers;
      StaysReady(text, all, markers[0], block(markers[0]));
      ReadyIsFound(Replace(text, markers[0], block(markers[0])), all, markers[1..], block);
    }
  }

  /** For regions that do not touch and blocks without tags, the run succeeds exactly when every
      marker has its tags in the text. */
  lemma FoundIffTagged(text: string, markers: seq<string>, block: string -> string)
    requires Separate(text, Elements(markers)) && Clean(block, Elements(markers))
    ensures AllFound(text, markers, block) <==> EachHasRegion(text, markers)
  {
    var all := Elements(markers);
    if EachHasRegion(text, markers) {
      ReadyIsFound(text, all, markers, block);
    }
    if AllFound(text, markers, block) {
      forall m | m in markers ensures HasRegion(text, m) {
        FoundWasThere(text, all, markers, block, m);
      }
    }
  }

  /** The substitution loop of `run`. */
  method Regenerate(current: string, markers: seq<string>, block: string -> string) returns (r: Result)
    ensures r.Ok? <==> AllFound(current, markers, block)
    ensures r.Ok? ==> r.text == Regenerated(current, markers, block)
    ensures Separate(current, Elements(markers)) && Clean(block, Elements(markers)) ==> (r.Ok? <==> EachHasRegion(current, markers))
  {
    if Separate(current, Elements(markers)) && Clean(block, Elements(markers)) {
      FoundIffTagged(current, markers, block);
    }
    var updated := current;
    for i := 0 to |markers|
      invariant Regenerated(current, markers, block) == Regenerated(updated, markers[i..], block)
      invariant AllFound(current, markers, block) <==> AllFound(updated, markers[i..], block)
    {
      var m := markers[i];
      assert m in markers && markers[i..][1..] == markers[i + 1..];
      var replaced := ReplaceMarkedRegion(updated, m, block(m));
      if replaced.Err? {
        return replaced;
      }
      ghost var a, e :| Located(updated, m, a, e);
      ReplaceIs(updated, m, block(m), a, e);
      updated := replaced.text;
    }
    assert markers[|markers|..] == [];
    return Ok(updated);
  }

  /** `run`: with `check` it only compares, otherwise it writes the regenerated text. */
  method RunCommand(check: bool, file: string, block: string -> string) returns (ok: bool, after: string)
    ensures check ==> after == file
    ensures check ==> (ok <==> AllFound(file, MARKERS, block) && Regenerated(file, MARKERS, block) == file)
    ensures !check ==> (ok <==> AllFound(file, MARKERS, block))
    ensures !check ==> after == if ok then Regenerated(file, MARKERS, block) else file
    ensures Separate(file, Elements(MARKERS)) && Clean(block, Elements(MARKERS)) ==>
              (AllFound(file, MARKERS, block) <==> EachHasRegion(file, MARKERS))
  {
    var updated := Regenerate(file, MARKERS, block);
    if updated.Err? {
      return false, file;
    }
    if check {
      return file == updated.text, file;
    }
    return true, updated.text;
  }

  lemma MarkersDiffer()
    ensures NoDup(MARKERS)
  {
    assert |MARKERS[0]| == 17 && |MARKERS[1]| == 19 && |MARKERS[2]| == 17 && |MARKERS[3]| == 19;
    assert MARKERS[0][10] == 'p' && MARKERS[2][10] == 'f' && MARKERS[1][10] == 'c' && MARKERS[3][10] == 'f';
  }

  /** `--check` right after a write always passes, and changes nothing. */
  method WriteThenCheck(file: string, block: string -> string) returns (ok: bool, after: string)
    requires Ready(file, Elements(MARKERS)) && Clean(block, Elements(MARKERS))
    ensures ok && after == Regenerated(file, MARKERS, block)
  {
    ReadyIsFound(file, Elements(MARKERS), MARKERS, block);
    var written, text := RunCommand(false, file, block);
    MarkersDiffer();
    LastRegenerationWins(file, Elements(MARKERS), MARKERS, block, block);
    RegeneratedStaysReady(file, Elements(MARKERS), MARKERS, block);
    ReadyIsFound(text, Elements(MARKERS), MARKERS, block);
    ok, after := RunCommand(true, text, block);
  }

  lemma {:induction false} RegeneratedStaysReady(text: string, all: set<string>, markers: seq<string>, block: string -> string)
    requires Ready(text, all) && Clean(block, all) && forall m :: m in markers ==> m in all
    ensures Ready(Regenerated(text, markers, block), all)
    decreases |markers|
  {
    if markers != [] {
      assert markers[0] in markers;
      StaysReady(text, all, markers[0], block(markers[0]));
      RegeneratedStaysReady(Replace(text, markers[0], block(markers[0])), all, markers[1..], block);
    }
  }
}
