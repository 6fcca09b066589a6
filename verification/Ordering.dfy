/** Total orders, lexicographic comparison and the stable sort of the standard library,
    with the one fact the exporter relies on: sorting distinct keys forgets the order. */
module Ordering {

  ghost predicate TotalOrder<K(!new)>(le: (K, K) -> bool) {
    && (forall a, b :: le(a, b) || le(b, a))
    && (forall a, b :: le(a, b) && le(b, a) ==> a == b)
    && (forall a, b, c :: le(a, b) && le(b, c) ==> le(a, c))
  }

  // ---- lexicographic order

  predicate LexLe<K(==)>(le: (K, K) -> bool, a: seq<K>, b: seq<K>) {
    if a == [] then true
    else if b == [] then false
    else if a[0] == b[0] then LexLe(le, a[1..], b[1..])
    else le(a[0], b[0])
  }

  lemma {:induction false} LexTotal<K(!new)>(le: (K, K) -> bool, a: seq<K>, b: seq<K>)
    requires TotalOrder(le)
    ensures LexLe(le, a, b) || LexLe(le, b, a)
    ensures LexLe(le, a, b) && LexLe(le, b, a) ==> a == b
    decreases |a|
  {
    if a != [] && b != [] && a[0] == b[0] {
      LexTotal(le, a[1..], b[1..]);
      assert a == [a[0]] + a[1..] && b == [b[0]] + b[1..];
    }
  }

  lemma {:induction false} LexTransitive<K(!new)>(le: (K, K) -> bool, a: seq<K>, b: seq<K>, c: seq<K>)
    requires TotalOrder(le) && LexLe(le, a, b) && LexLe(le, b, c)
    ensures LexLe(le, a, c)
    decreases |a|
  {
    if a != [] && a[0] == b[0] && b[0] == c[0] {
      LexTransitive(le, a[1..], b[1..], c[1..]);
    }
  }

  predicate CharLe(a: char, b: char) {
    a <= b
  }

  /** `str` comparison: code point order. */
  predicate StrLe(a: string, b: string) {
    LexLe(CharLe, a, b)
  }

  /** One string is a beginning of the other, or the first difference decides. */
  lemma {:induction false} StrLeIs(a: string, b: string)
    ensures StrLe(a, b) <==> a <= b || exists i :: 0 <= i < |a| && i < |b| && a[..i] == b[..i] && a[i] < b[i]
    decreases |a|
  {
    if a != [] && b != [] && a[0] == b[0] {
      StrLeIs(a[1..], b[1..]);
      assert a == [a[0]] + a[1..] && b == [b[0]] + b[1..];
      if i :| 0 <= i < |a[1..]| && i < |b[1..]| && a[1..][..i] == b[1..][..i] && a[1..][i] < b[1..][i] {
        assert a[..i + 1] == [a[0]] + a[1..][..i] && b[..i + 1] == [b[0]] + b[1..][..i];
        assert a[i + 1] < b[i + 1];
      }
      if i :| 0 <= i < |a| && i < |b| && a[..i] == b[..i] && a[i] < b[i] {
        assert a[1..][..i - 1] == a[..i][1..] && b[1..][..i - 1] == b[..i][1..];
        assert a[1..][i - 1] < b[1..][i - 1];
      }
    } else if a != [] && b != [] && a[0] < b[0] {
      assert a[..0] == b[..0];
    }
  }

  lemma StrOrder()
    ensures TotalOrder(StrLe)
  {
    assert TotalOrder(CharLe);
    forall a, b ensures (StrLe(a, b) || StrLe(b, a)) && (StrLe(a, b) && StrLe(b, a) ==> a == b) {
      LexTotal(CharLe, a, b);
    }
    forall a, b, c | StrLe(a, b) && StrLe(b, c) ensures StrLe(a, c) {
      LexTransitive(CharLe, a, b, c);
    }
  }

  // ---- sequences without repetition

  ghost predicate NoDup<T>(s: seq<T>) {
    forall i, j :: 0 <= i < j < |s| ==> s[i] != s[j]
  }

  ghost function Elements<T>(s: seq<T>): set<T> {
    set x | x in s
  }

  lemma {:induction false} Multiplicity<T>(s: seq<T>, x: T)
    requires NoDup(s)
    ensures multiset(s)[x] == if x in s then 1 else 0
    decreases |s|
  {
    if s != [] {
      assert s == s[..|s| - 1] + [s[|s| - 1]];
      Multiplicity(s[..|s| - 1], x);
    }
  }

  lemma SameElements<T>(s: seq<T>, t: seq<T>)
    requires NoDup(s) && NoDup(t) && Elements(s) == Elements(t)
    ensures multiset(s) == multiset(t)
  {
    forall x ensures multiset(s)[x] == multiset(t)[x] {
      Multiplicity(s, x);
      Multiplicity(t, x);
      assert x in s <==> x in Elements(s);
      assert x in t <==> x in Elements(t);
    }
  }

  // ---- stable sort by key

  /** The key of what is sorted as it is. */
  function Whole<T>(x: T): T {
    x
  }

  ghost predicate Sorted<T, K>(le: (K, K) -> bool, key: T -> K, s: seq<T>) {
    forall i, j :: 0 <= i < j < |s| ==> le(key(s[i]), key(s[j]))
  }

  ghost predicate Distinct<T, K>(key: T -> K, s: seq<T>) {
    forall i, j :: 0 <= i < j < |s| ==> key(s[i]) != key(s[j])
  }

  function Insert<T, K>(le: (K, K) -> bool, key: T -> K, s: seq<T>, x: T): seq<T> {
    if s == [] then [x]
    else if le(key(s[|s| - 1]), key(x)) then s + [x]
    else Insert(le, key, s[..|s| - 1], x) + [s[|s| - 1]]
  }

  function Sort<T, K>(le: (K, K) -> bool, key: T -> K, s: seq<T>): seq<T> {
    if s == [] then [] else Insert(le, key, Sort(le, key, s[..|s| - 1]), s[|s| - 1])
  }

  lemma {:induction false} InsertKeeps<T, K>(le: (K, K) -> bool, key: T -> K, s: seq<T>, x: T)
    ensures multiset(Insert(le, key, s, x)) == multiset(s) + multiset{x}
    decreases |s|
  {
    if s != [] && !le(key(s[|s| - 1]), key(x)) {
      InsertKeeps(le, key, s[..|s| - 1], x);
      WithoutLast(s);
    }
  }

  lemma {:induction false} SortKeeps<T, K>(le: (K, K) -> bool, key: T -> K, s: seq<T>)
    ensures multiset(Sort(le, key, s)) == multiset(s)
    decreases |s|
  {
    if s != [] {
      SortKeeps(le, key, s[..|s| - 1]);
      InsertKeeps(le, key, Sort(le, key, s[..|s| - 1]), s[|s| - 1]);
      assert s == s[..|s| - 1] + [s[|s| - 1]];
    }
  }

  lemma {:induction false} InsertSorts<T, K(!new)>(le: (K, K) -> bool, key: T -> K, s: seq<T>, x: T)
    requires TotalOrder(le) && Sorted(le, key, s)
    ensures Sorted(le, key, Insert(le, key, s, x))
    decreases |s|
  {
    if s != [] && !le(key(s[|s| - 1]), key(x)) {
      var t, last := s[..|s| - 1], s[|s| - 1];
      InsertSorts(le, key, t, x);
      InsertKeeps(le, key, t, x);
      var r := Insert(le, key, t, x);
      forall i | 0 <= i < |r| ensures le(key(r[i]), key(last)) {
        assert r[i] in multiset(t) + multiset{x};
        assert r[i] == x || r[i] in t;
      }
    }
  }

  lemma {:induction false} SortSorts<T, K(!new)>(le: (K, K) -> bool, key: T -> K, s: seq<T>)
    requires TotalOrder(le)
    ensures Sorted(le, key, Sort(le, key, s))
    decreases |s|
  {
    if s != [] {
      SortSorts(le, key, s[..|s| - 1]);
      InsertSorts(le, key, Sort(le, key, s[..|s| - 1]), s[|s| - 1]);
    }
  }

  lemma {:induction false} SortedStays<T, K(!new)>(le: (K, K) -> bool, key: T -> K, s: seq<T>)
    requires Sorted(le, key, s)
    ensures Sort(le, key, s) == s
    decreases |s|
  {
    if s != [] {
      SortedStays(le, key, s[..|s| - 1]);
      assert s == s[..|s| - 1] + [s[|s| - 1]];
      if |s| > 1 {
        assert le(key(s[|s| - 2]), key(s[|s| - 1]));
      }
    }
  }

  lemma LastIsGreatest<T, K(!new)>(le: (K, K) -> bool, key: T -> K, s: seq<T>, x: T)
    requires TotalOrder(le) && Sorted(le, key, s) && x in s
    ensures le(key(x), key(s[|s| - 1]))
  {
    var i :| 0 <= i < |s| && s[i] == x;
  }

  lemma SameLength<T>(s: seq<T>, t: seq<T>)
    requires multiset(s) == multiset(t)
    ensures |s| == |t|
    ensures forall x :: x in s ==> x in t
  {
    assert |s| == |multiset(s)| && |t| == |multiset(t)|;
    forall x | x in s ensures x in t {
      assert x in multiset(s);
    }
  }

  lemma Cancel<T>(a: multiset<T>, b: multiset<T>, x: T)
    requires a + multiset{x} == b + multiset{x}
    ensures a == b
  {
    forall y ensures a[y] == b[y] {
      assert (a + multiset{x})[y] == a[y] + multiset{x}[y];
      assert (b + multiset{x})[y] == b[y] + multiset{x}[y];
    }
  }

  lemma PrefixSnoc<T>(s: seq<T>, i: nat)
    requires i < |s|
    ensures s[..i + 1] == s[..i] + [s[i]]
  {
  }

  lemma WithoutLast<T>(s: seq<T>)
    requires s != []
    ensures multiset(s) == multiset(s[..|s| - 1]) + multiset{s[|s| - 1]}
  {
    assert s == s[..|s| - 1] + [s[|s| - 1]];
  }

  lemma SameLast<T, K(!new)>(le: (K, K) -> bool, key: T -> K, s: seq<T>, t: seq<T>)
    requires TotalOrder(le) && Sorted(le, key, s) && Sorted(le, key, t) && Distinct(key, s)
    requires s != [] && t != [] && s[|s| - 1] in t && t[|t| - 1] in s
    ensures s[|s| - 1] == t[|t| - 1]
  {
    LastIsGreatest(le, key, s, t[|t| - 1]);
    LastIsGreatest(le, key, t, s[|s| - 1]);
  }

  /** A multiset of elements with distinct keys has one sorted listing. */
  lemma {:induction false} SortedUnique<T, K(!new)>(le: (K, K) -> bool, key: T -> K, s: seq<T>, t: seq<T>)
    requires TotalOrder(le) && Sorted(le, key, s) && Sorted(le, key, t)
    requires Distinct(key, s) && multiset(s) == multiset(t)
    ensures s == t
    decreases |s|
  {
    SameLength(s, t);
    SameLength(t, s);
    if s != [] {
      var s', t' := s[..|s| - 1], t[..|t| - 1];
      var a, b := s[|s| - 1], t[|t| - 1];
      SameLast(le, key, s, t);
      WithoutLast(s);
      WithoutLast(t);
      Cancel(multiset(s'), multiset(t'), a);
      SortedUnique(le, key, s', t');
      assert s == s' + [a] && t == t' + [a];
    }
  }

  lemma Twice<T>(s: seq<T>, x: T) returns (i: int, j: int)
    requires multiset(s)[x] >= 2
    ensures 0 <= i < j < |s| && s[i] == x == s[j]
  {
    var last := s[|s| - 1];
    var t := s[..|s| - 1];
    assert s == t + [last];
    if last == x {
      assert x in multiset(t);
      i :| 0 <= i < |t| && t[i] == x;
      j := |s| - 1;
    } else {
      i, j := Twice(t, x);
    }
  }

  lemma OnceEach<T>(s: seq<T>, i: int, j: int)
    requires 0 <= i < j < |s| && s[i] == s[j]
    ensures multiset(s)[s[i]] >= 2
  {
    assert s == s[..j] + s[j..];
    assert s[i] in s[..j] && s[j] in s[j..];
  }

  lemma DistinctPermutation<T, K>(key: T -> K, s: seq<T>, t: seq<T>)
    requires Distinct(key, s) && multiset(s) == multiset(t)
    ensures Distinct(key, t)
  {
    forall i, j | 0 <= i < j < |t| ensures key(t[i]) != key(t[j]) {
      if t[i] == t[j] {
        OnceEach(t, i, j);
        var k, l := Twice(s, t[i]);
      } else {
        assert t[i] in multiset(s) && t[j] in multiset(s);
        var k :| 0 <= k < |s| && s[k] == t[i];
        var l :| 0 <= l < |s| && s[l] == t[j];
      }
    }
  }

  /** Sorting forgets the original order of elements with distinct keys. */
  lemma SortForgets<T, K(!new)>(le: (K, K) -> bool, key: T -> K, s: seq<T>, t: seq<T>)
    requires TotalOrder(le) && Distinct(key, s) && multiset(s) == multiset(t)
    ensures Sort(le, key, s) == Sort(le, key, t)
  {
    SortSorts(le, key, s);
    SortSorts(le, key, t);
    SortKeeps(le, key, s);
    SortKeeps(le, key, t);
    DistinctPermutation(key, s, Sort(le, key, s));
    SortedUnique(le, key, Sort(le, key, s), Sort(le, key, t));
  }

  // ---- elementwise images

  function Map<T, U>(f: T -> U, s: seq<T>): (r: seq<U>)
    ensures |r| == |s|
    ensures forall i :: 0 <= i < |s| ==> r[i] == f(s[i])
  {
    seq(|s|, i requires 0 <= i < |s| => f(s[i]))
  }

  lemma MapConcat<T, U>(f: T -> U, a: seq<T>, b: seq<T>)
    ensures Map(f, a + b) == Map(f, a) + Map(f, b)
  {
  }

  lemma MapFirst<T, U>(f: T -> U, s: seq<T>)
    requires s != []
    ensures Map(f, s) == [f(s[0])] + Map(f, s[1..])
  {
  }

  // ---- totals

  ghost function Total<T>(weight: T -> nat, s: seq<T>): nat {
    if s == [] then 0 else Total(weight, s[..|s| - 1]) + weight(s[|s| - 1])
  }

  lemma {:induction false} TotalConcat<T>(weight: T -> nat, a: seq<T>, b: seq<T>)
    ensures Total(weight, a + b) == Total(weight, a) + Total(weight, b)
    decreases |b|
  {
    if b == [] {
      assert a + b == a;
    } else {
      assert (a + b)[..|a + b| - 1] == a + b[..|b| - 1];
      TotalConcat(weight, a, b[..|b| - 1]);
    }
  }

  lemma TotalOne<T>(weight: T -> nat, x: T)
    ensures Total(weight, [x]) == weight(x)
  {
    assert [x][..0] == [];
  }

  /** A total does not depend on the order. */
  lemma {:induction false} TotalPermutation<T>(weight: T -> nat, s: seq<T>, t: seq<T>)
    requires multiset(s) == multiset(t)
    ensures Total(weight, s) == Total(weight, t)
    decreases |s|
  {
    if s == [] {
      SameLength(s, t);
    } else {
      var k := TakeOut(s, t);
      TotalPermutation(weight, s[1..], t[..k] + t[k + 1..]);
      assert s == [s[0]] + s[1..] && t == t[..k] + ([t[k]] + t[k + 1..]);
      TotalConcat(weight, [s[0]], s[1..]);
      TotalConcat(weight, t[..k], [t[k]] + t[k + 1..]);
      TotalConcat(weight, [t[k]], t[k + 1..]);
      TotalConcat(weight, t[..k], t[k + 1..]);
      TotalOne(weight, s[0]);
    }
  }

  /** Weights that agree element by element give the same total. */
  lemma {:induction false} TotalMap<T, U>(f: T -> U, weight: T -> nat, image: U -> nat, s: seq<T>)
    requires forall i :: 0 <= i < |s| ==> weight(s[i]) == image(f(s[i]))
    ensures Total(weight, s) == Total(image, Map(f, s))
    decreases |s|
  {
    if s == [] {
      assert Map(f, s) == [];
    } else {
      assert Map(f, s)[..|s| - 1] == Map(f, s[..|s| - 1]);
      TotalMap(f, weight, image, s[..|s| - 1]);
    }
  }

  lemma Without<T>(s: seq<T>, k: int)
    requires 0 <= k < |s|
    ensures multiset(s) == multiset(s[..k] + s[k + 1..]) + multiset{s[k]}
  {
    assert s == s[..k] + [s[k]] + s[k + 1..];
  }

  /** The first element of a sequence has its place in every rearrangement of it. */
  lemma TakeOut<T>(s: seq<T>, t: seq<T>) returns (k: int)
    requires multiset(s) == multiset(t) && s != []
    ensures 0 <= k < |t| && t[k] == s[0]
    ensures multiset(s[1..]) == multiset(t[..k] + t[k + 1..])
  {
    SameLength(s, t);
    assert s[0] in t;
    k :| 0 <= k < |t| && t[k] == s[0];
    assert s[..0] + s[1..] == s[1..];
    Without(s, 0);
    Without(t, k);
    Cancel(multiset(s[1..]), multiset(t[..k] + t[k + 1..]), s[0]);
  }

  lemma MapWithout<T, U>(f: T -> U, s: seq<T>, k: int)
    requires 0 <= k < |s|
    ensures multiset(Map(f, s)) == multiset(Map(f, s[..k] + s[k + 1..])) + multiset{f(s[k])}
  {
    var m := Map(f, s);
    Without(m, k);
    assert m[..k] + m[k + 1..] == Map(f, s[..k] + s[k + 1..]);
  }

  lemma {:induction false} MapPermutation<T, U>(f: T -> U, s: seq<T>, t: seq<T>)
    requires multiset(s) == multiset(t)
    ensures multiset(Map(f, s)) == multiset(Map(f, t))
    decreases |s|
  {
    if s == [] {
      SameLength(s, t);
    } else {
      var k := TakeOut(s, t);
      MapPermutation(f, s[1..], t[..k] + t[k + 1..]);
      assert Map(f, s) == [f(s[0])] + Map(f, s[1..]);
      MapWithout(f, t, k);
    }
  }

  // ---- concatenation

  function Flatten<T>(parts: seq<seq<T>>): seq<T> {
    if parts == [] then [] else parts[0] + Flatten(parts[1..])
  }

  lemma {:induction false} FlattenConcat<T>(a: seq<seq<T>>, b: seq<seq<T>>)
    ensures Flatten(a + b) == Flatten(a) + Flatten(b)
    decreases |a|
  {
    if a == [] {
      assert a + b == b;
    } else {
      assert (a + b)[1..] == a[1..] + b;
      FlattenConcat(a[1..], b);
    }
  }

  /** One more part at the end. */
  lemma FlattenSnoc<T>(parts: seq<seq<T>>, i: int)
    requires 0 <= i < |parts|
    ensures Flatten(parts[..i + 1]) == Flatten(parts[..i]) + parts[i]
  {
    assert parts[..i + 1] == parts[..i] + [parts[i]];
    FlattenConcat(parts[..i], [parts[i]]);
    assert [parts[i]][1..] == [];
    assert parts[i] + [] == parts[i];
  }

  lemma {:induction false} InFlatten<T>(parts: seq<seq<T>>, x: T) returns (i: int)
    requires x in Flatten(parts)
    ensures 0 <= i < |parts| && x in parts[i]
    decreases |parts|
  {
    if x in parts[0] {
      i := 0;
    } else {
      i := InFlatten(parts[1..], x);
      i := i + 1;
    }
  }

  lemma {:induction false} FlattenHas<T>(parts: seq<seq<T>>, i: int, x: T)
    requires 0 <= i < |parts| && x in parts[i]
    ensures x in Flatten(parts)
    decreases |parts|
  {
    if i > 0 {
      FlattenHas(parts[1..], i - 1, x);
    }
  }

  ghost predicate Apart<T, K>(key: T -> K, s: seq<T>, t: seq<T>) {
    forall x, y :: x in s && y in t ==> key(x) != key(y)
  }

  /** Parts without repetition that share no key make a whole without repetition. */
  lemma {:induction false} FlattenDistinct<T, K>(key: T -> K, parts: seq<seq<T>>)
    requires forall i :: 0 <= i < |parts| ==> Distinct(key, parts[i])
    requires forall i, j :: 0 <= i < j < |parts| ==> Apart(key, parts[i], parts[j])
    ensures Distinct(key, Flatten(parts))
    decreases |parts|
  {
    if parts != [] {
      var head, rest := parts[0], Flatten(parts[1..]);
      FlattenDistinct(key, parts[1..]);
      forall i, j | 0 <= i < j < |head + rest| ensures key((head + rest)[i]) != key((head + rest)[j]) {
        if i < |head| <= j {
          var y := rest[j - |head|];
          var k := InFlatten(parts[1..], y);
          assert Apart(key, parts[0], parts[k + 1]);
        }
      }
    }
  }

  lemma {:induction false} FlattenRepeats<T, K>(key: T -> K, parts: seq<seq<T>>, i: int, j: int, x: T, y: T)
    requires 0 <= i < j < |parts| && x in parts[i] && y in parts[j] && key(x) == key(y)
    ensures !Distinct(key, Flatten(parts))
    decreases |parts|
  {
    var head, rest := parts[0], Flatten(parts[1..]);
    assert Flatten(parts) == head + rest;
    if i == 0 {
      FlattenHas(parts[1..], j - 1, y);
      var k :| 0 <= k < |head| && head[k] == x;
      var l :| 0 <= l < |rest| && rest[l] == y;
      assert (head + rest)[k] == x && (head + rest)[|head| + l] == y;
    } else {
      FlattenRepeats(key, parts[1..], i - 1, j - 1, x, y);
      var k, l :| 0 <= k < l < |rest| && key(rest[k]) == key(rest[l]);
      assert (head + rest)[|head| + k] == rest[k] && (head + rest)[|head| + l] == rest[l];
    }
  }

  lemma {:induction false} FlattenWithout<T>(parts: seq<seq<T>>, k: int)
    requires 0 <= k < |parts|
    ensures multiset(Flatten(parts)) == multiset(Flatten(parts[..k] + parts[k + 1..])) + multiset(parts[k])
    decreases k
  {
    var rest := parts[..k] + parts[k + 1..];
    if k == 0 {
      assert rest == parts[1..];
    } else {
      assert rest[0] == parts[0];
      assert rest[1..] == parts[1..][..k - 1] + parts[1..][k..];
      FlattenWithout(parts[1..], k - 1);
    }
  }

  lemma {:induction false} FlattenPermutation<T>(p: seq<seq<T>>, q: seq<seq<T>>)
    requires multiset(p) == multiset(q)
    ensures multiset(Flatten(p)) == multiset(Flatten(q))
    decreases |p|
  {
    if p == [] {
      SameLength(p, q);
    } else {
      var k := TakeOut(p, q);
      FlattenPermutation(p[1..], q[..k] + q[k + 1..]);
      FlattenWithout(q, k);
    }
  }
}
