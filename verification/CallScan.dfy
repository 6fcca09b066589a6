/** The lexical Used-by scan over snippet bodies. */
module CallScan {
  import opened Bytes
  import opened Ordering
  import opened TextSearch

  predicate IsIdentifierChar(c: char) {
    'a' <= c <= 'z' || 'A' <= c <= 'Z' || '0' <= c <= '9' || c == '_'
  }

  /** `name(` at position `i`, not the tail of a longer identifier. */
  ghost predicate CallAt(line: string, name: string, i: int) {
    OccursAt(line, name + "(", i) && (i == 0 || !IsIdentifierChar(line[i - 1]))
  }

  ghost predicate HasCall(line: string, name: string) {
    exists i :: CallAt(line, name, i)
  }

  /** Occurrences of `name(` overlap only if the name itself has a parenthesis. */
  lemma OverlapNeedsParenthesis(line: string, name: string, i: int, j: int)
    requires OccursAt(line, name + "(", i) && OccursAt(line, name + "(", j) && i < j < i + |name| + 1
    ensures '(' in name
  {
    var needle := name + "(";
    var k := i + |name|;
    assert line[k] == line[i..i + |needle|][|name|] == '(';
    assert line[k] == line[j..j + |needle|][k - j] == needle[k - j];
    assert needle[k - j] == name[k - j];
  }

  function Needle(name: string): string {
    name + "("
  }

  ghost predicate AtBoundary(line: string, i: int)
    requires 0 <= i <= |line|
  {
    i == 0 || !IsIdentifierChar(line[i - 1])
  }

  /** What looking at the next match, and after a rejected one only past its end, finds. */
  ghost predicate Scanned(line: string, name: string, start: nat)
    decreases |line| - start
  {
    exists at: nat :: First(line, Needle(name), start, at) && (AtBoundary(line, at) || Scanned(line, name, at + |name| + 1))
  }

  /** The name has a call of itself inside: its own text followed by `(` starts again at `d`,
      after a character that is none of an identifier. */
  ghost predicate HidesAt(name: string, d: int) {
    var w := Needle(name);
    0 < d < |w| && w[d..] == w[..|w| - d] && !IsIdentifierChar(w[d - 1])
  }

  ghost predicate HidesCall(name: string) {
    exists d :: HidesAt(name, d)
  }

  lemma IdentifierHidesNothing(name: string)
    requires '(' !in name
    ensures !HidesCall(name)
  {
    forall d ensures !HidesAt(name, d) {
      if HidesAt(name, d) {
        var w := Needle(name);
        OverlapNeedsParenthesis(w[..d] + w, name, 0, d);
      }
    }
  }

  lemma {:induction false} ScannedIsCall(line: string, name: string, start: nat)
    requires Scanned(line, name, start)
    ensures HasCall(line, name)
    decreases |line| - start
  {
    var at: nat :| First(line, Needle(name), start, at) && (AtBoundary(line, at) || Scanned(line, name, at + |name| + 1));
    if AtBoundary(line, at) {
      assert CallAt(line, name, at);
    } else {
      ScannedIsCall(line, name, at + |name| + 1);
    }
  }

  /** A call inside an earlier match is a call that the name hides. */
  lemma OverlapHides(line: string, name: string, i: int, j: int)
    requires OccursAt(line, Needle(name), i) && CallAt(line, name, j) && i < j < i + |name| + 1
    ensures HidesAt(name, j - i)
  {
    var w, d := Needle(name), j - i;
    assert line[i..i + |w|] == w && line[j..j + |w|] == w;
    assert w[d..] == line[j..i + |w|] == w[..|w| - d];
    assert w[d - 1] == line[i..i + |w|][d - 1] == line[j - 1];
  }

  lemma {:induction false} CallIsScanned(line: string, name: string, start: nat, i: nat)
    requires !HidesCall(name) && CallAt(line, name, i) && start <= i
    ensures Scanned(line, name, start)
    decreases |line| - start
  {
    var at := FirstFrom(line, Needle(name), start, i);
    if !AtBoundary(line, at) {
      if i < at + |name| + 1 {
        OverlapHides(line, name, at, i);
      } else {
        CallIsScanned(line, name, at + |name| + 1, i);
      }
    }
  }

  /** A line on which the call hidden in the name is overlooked. */
  function Overlooked(name: string, d: nat): string
    requires d <= |name|
  {
    (if Needle(name)[0] == '_' then "a" else "_") + Needle(name)[..d] + Needle(name)
  }

  lemma OverlookedOccurs(name: string, d: nat)
    requires HidesAt(name, d)
    ensures CallAt(Overlooked(name, d), name, 1 + d)
  {
    var w, line := Needle(name), Overlooked(name, d);
    assert line[1 + d..1 + d + |w|] == w && line[d] == w[d - 1];
  }

  /** The first match is the one in front of it, as the tail of a longer identifier. */
  lemma OverlookedFirst(name: string, d: nat)
    requires HidesAt(name, d)
    ensures First(Overlooked(name, d), Needle(name), 0, 1) && !AtBoundary(Overlooked(name, d), 1)
  {
    var w, line := Needle(name), Overlooked(name, d);
    Rejoin(w, d);
    assert line[1..1 + |w|] == (w[..d] + w)[..|w|];
    assert line[0] != w[0];
  }

  lemma Rejoin(w: string, d: nat)
    requires d < |w| && w[d..] == w[..|w| - d]
    ensures (w[..d] + w)[..|w|] == w
  {
    assert (w[..d] + w)[..|w|] == w[..d] + w[..|w| - d];
    assert w == w[..d] + w[d..];
  }

  lemma HiddenCallIsMissed(name: string, d: nat)
    requires HidesAt(name, d)
    ensures HasCall(Overlooked(name, d), name) && !Scanned(Overlooked(name, d), name, 0)
  {
    OverlookedOccurs(name, d);
    OverlookedFirst(name, d);
    var w, line := Needle(name), Overlooked(name, d);
    assert OccursAt(line, w, 1);
    forall at: nat | First(line, w, 0, at) ensures at == 1 {
      assert OccursAt(line, w, at);
    }
    assert !Scanned(line, name, 1 + |w|);
  }

  /** The skip-ahead scan is right about every line exactly when the name hides no call. */
  lemma ScanIsExactIff(name: string)
    ensures (forall line :: Scanned(line, name, 0) <==> HasCall(line, name)) <==> !HidesCall(name)
  {
    if HidesCall(name) {
      var d :| HidesAt(name, d);
      HiddenCallIsMissed(name, d);
    } else {
      forall line ensures Scanned(line, name, 0) <==> HasCall(line, name) {
        ScanIsExact(line, name);
      }
    }
  }

  lemma ScanIsExact(line: string, name: string)
    requires !HidesCall(name)
    ensures Scanned(line, name, 0) <==> HasCall(line, name)
  {
    if Scanned(line, name, 0) {
      ScannedIsCall(line, name, 0);
    }
    if HasCall(line, name) {
      var i :| CallAt(line, name, i);
      CallIsScanned(line, name, 0, i);
    }
  }

  lemma ScanMeans(line: string, name: string)
    ensures Scanned(line, name, 0) ==> HasCall(line, name)
    ensures '(' !in name ==> !HidesCall(name)
    ensures !HidesCall(name) ==> (Scanned(line, name, 0) <==> HasCall(line, name))
  {
    if Scanned(line, name, 0) {
      ScannedIsCall(line, name, 0);
    }
    if '(' !in name {
      IdentifierHidesNothing(name);
    }
    if !HidesCall(name) {
      ScanIsExact(line, name);
    }
  }

  lemma NotScanned(line: string, name: string, start: nat)
    requires forall i :: start <= i ==> !OccursAt(line, Needle(name), i)
    ensures !Scanned(line, name, start)
  {
  }

  lemma ScannedFrom(line: string, name: string, start: nat, at: nat)
    requires First(line, Needle(name), start, at)
    ensures Scanned(line, name, start) <==> AtBoundary(line, at) || Scanned(line, name, at + |name| + 1)
  {
    forall k: nat | First(line, Needle(name), start, k) ensures k == at {
      assert OccursAt(line, Needle(name), k) && OccursAt(line, Needle(name), at);
    }
  }

  /** `contains_call`: sound for every name, and for names that hide no call, identifiers among
      them, it misses nothing. */
  method ContainsCall(line: string, name: string) returns (found: bool)
    ensures found <==> Scanned(line, name, 0)
    ensures found ==> HasCall(line, name)
    ensures '(' !in name ==> !HidesCall(name)
    ensures !HidesCall(name) ==> (found <==> HasCall(line, name))
  {
    ScanMeans(line, name);
    var needle := Needle(name);
    var start := 0;
    while true
      invariant start <= |line|
      invariant Scanned(line, name, 0) <==> Scanned(line, name, start)
      decreases |line| - start
    {
      var pos := Find(line, needle, start);
      if pos.None? {
        NotScanned(line, name, start);
        return false;
      }
      var at := pos.value;
      ScannedFrom(line, name, start, at);
      if at == 0 || !IsIdentifierChar(line[at - 1]) {
        return true;
      }
      start := at + |needle|;
    }
  }

  // ---- files

  /** Unicode white space */
  predicate IsSpace(c: char) {
    '\U{9}' <= c <= '\U{D}' || c == ' ' || c == '\U{85}' || c == '\U{A0}' || c == '\U{1680}' || '\U{2000}' <= c <= '\U{200A}'
    || c == '\U{2028}' || c == '\U{2029}' || c == '\U{202F}' || c == '\U{205F}' || c == '\U{3000}'
  }

  function TrimStart(line: string): string {
    if line != [] && IsSpace(line[0]) then TrimStart(line[1..]) else line
  }

  /** What is cut off is white space, and what is left does not start with any. */
  lemma {:induction false} TrimStartCuts(line: string) returns (k: nat)
    ensures k <= |line| && TrimStart(line) == line[k..]
    ensures forall i :: 0 <= i < k ==> IsSpace(line[i])
    ensures k < |line| ==> !IsSpace(line[k])
    decreases |line|
  {
    if line != [] && IsSpace(line[0]) {
      k := TrimStartCuts(line[1..]);
      k := k + 1;
    } else {
      k := 0;
    }
  }

  predicate HeaderLine(line: string) {
    "//" <= line || TrimStart(line) == []
  }

  ghost predicate InHeader(lines: seq<string>, k: int) {
    0 <= k < |lines| && forall j :: 0 <= j <= k ==> HeaderLine(lines[j])
  }

  ghost predicate Contains(text: string, pattern: string) {
    exists i :: OccursAt(text, pattern, i)
  }

  function Declaration(name: string): string {
    "def function " + name + "("
  }

  /** A line of the body that is neither a comment nor the declaration itself. */
  ghost predicate Counts(lines: seq<string>, k: int, name: string, defining: bool) {
    0 <= k < |lines| && !InHeader(lines, k) && IsCode(lines[k], name, defining)
  }

  ghost predicate IsCode(line: string, name: string, defining: bool) {
    !("//" <= TrimStart(line)) && !(defining && Contains(TrimStart(line), Declaration(name)))
  }

  ghost predicate FileCalls(lines: seq<string>, name: string, defining: bool) {
    exists k :: Counts(lines, k, name, defining) && HasCall(lines[k], name)
  }

  /** No call is ever lost to the header: its lines are comments or blank. */
  lemma HeaderHasNoCalls(line: string, name: string, defining: bool)
    requires HeaderLine(line) && IsCode(line, name, defining)
    ensures !HasCall(line, name)
  {
    if HasCall(line, name) {
      CallHasParenthesis(line, name);
      BlankHasNone(line);
    }
  }

  lemma CallHasParenthesis(line: string, name: string)
    requires HasCall(line, name)
    ensures '(' in line
  {
    var i :| CallAt(line, name, i);
    var w := Needle(name);
    assert w[|name|] == '(' && line[i..i + |w|] == w;
    assert line[i + |name|] == line[i..i + |w|][|name|];
  }

  lemma BlankHasNone(line: string)
    ensures TrimStart(line) == [] ==> '(' !in line
  {
    var k := TrimStartCuts(line);
    assert k == |line| ==> forall i :: 0 <= i < |line| ==> IsSpace(line[i]);
  }

  /** So a file calls exactly when any of its lines of code does. */
  lemma FileCallsIffSomeLine(lines: seq<string>, name: string, defining: bool)
    ensures FileCalls(lines, name, defining) <==>
            exists k :: 0 <= k < |lines| && IsCode(lines[k], name, defining) && HasCall(lines[k], name)
  {
    forall k | 0 <= k < |lines| && IsCode(lines[k], name, defining) && HasCall(lines[k], name)
      ensures Counts(lines, k, name, defining)
    {
      if HeaderLine(lines[k]) {
        HeaderHasNoCalls(lines[k], name, defining);
      }
    }
  }

  /** The same of what the scan of a line finds. */
  ghost predicate FileScanned(lines: seq<string>, name: string, defining: bool) {
    exists k :: Counts(lines, k, name, defining) && Scanned(lines[k], name, 0)
  }

  lemma FileScanIsExact(lines: seq<string>, name: string, defining: bool)
    requires !HidesCall(name)
    ensures FileScanned(lines, name, defining) <==> FileCalls(lines, name, defining)
  {
    forall k | 0 <= k < |lines| ensures Scanned(lines[k], name, 0) <==> HasCall(lines[k], name) {
      ScanIsExact(lines[k], name);
    }
  }

  method ScanFile(name: string, lines: seq<string>, defining: bool) returns (calls: bool)
    ensures calls <==> FileScanned(lines, name, defining)
    ensures calls ==> FileCalls(lines, name, defining)
    ensures !HidesCall(name) ==> (calls <==> FileCalls(lines, name, defining))
  {
    if !HidesCall(name) {
      FileScanIsExact(lines, name, defining);
    }
    var inHeader := true;
    for k := 0 to |lines|
      invariant inHeader ==> forall j :: 0 <= j < k ==> HeaderLine(lines[j])
      invariant !inHeader ==> exists j :: 0 <= j < k && !HeaderLine(lines[j])
      invariant forall j :: 0 <= j < k ==> !(Counts(lines, j, name, defining) && Scanned(lines[j], name, 0))
    {
      var line := lines[k];
      if inHeader {
        if HeaderLine(line) {
          assert InHeader(lines, k);
          continue;
        }
        inHeader := false;
      }
      assert !InHeader(lines, k);
      var called := ScanLine(name, line, defining);
      if called {
        assert Counts(lines, k, name, defining);
        return true;
      }
    }
    return false;
  }

  /** A line of the body. */
  method ScanLine(name: string, line: string, defining: bool) returns (called: bool)
    ensures called <==> IsCode(line, name, defining) && Scanned(line, name, 0)
    ensures called ==> HasCall(line, name)
  {
    var trimmed := TrimStart(line);
    if "//" <= trimmed {
      return false;
    }
    if defining {
      var declared := Find(trimmed, Declaration(name), 0);
      if declared.Some? {
        assert Contains(trimmed, Declaration(name));
        return false;
      }
      assert !Contains(trimmed, Declaration(name));
    }
    assert IsCode(line, name, defining);
    called := ContainsCall(line, name);
  }

  type File = seq<string> // path components

  predicate FileLe(a: File, b: File) {
    LexLe(StrLe, a, b)
  }

  datatype Snippet = Snippet(file: File, lines: seq<string>)

  /** Which snippets call the function, and which the scan says do. */
  ghost function Calls(name: string, definedIn: File): Snippet -> bool {
    (s: Snippet) => FileCalls(s.lines, name, s.file == definedIn)
  }

  ghost function Found(name: string, definedIn: File): Snippet -> bool {
    (s: Snippet) => FileScanned(s.lines, name, s.file == definedIn)
  }

  ghost function Users(snippets: seq<Snippet>, uses: Snippet -> bool): multiset<File> {
    if snippets == [] then multiset{}
    else
      var last := snippets[|snippets| - 1];
      Users(snippets[..|snippets| - 1], uses) + if uses(last) then multiset{last.file} else multiset{}
  }

  lemma UsersSnoc(snippets: seq<Snippet>, i: nat, uses: Snippet -> bool)
    requires i < |snippets|
    ensures Users(snippets[..i + 1], uses) ==
            Users(snippets[..i], uses) + if uses(snippets[i]) then multiset{snippets[i].file} else multiset{}
  {
    assert snippets[..i + 1][..i] == snippets[..i];
  }

  lemma {:induction false} UsersAgree(snippets: seq<Snippet>, name: string, definedIn: File)
    requires !HidesCall(name)
    ensures Users(snippets, Found(name, definedIn)) == Users(snippets, Calls(name, definedIn))
    decreases |snippets|
  {
    if snippets != [] {
      var last := snippets[|snippets| - 1];
      FileScanIsExact(last.lines, name, last.file == definedIn);
      UsersAgree(snippets[..|snippets| - 1], name, definedIn);
    }
  }

  /** `derive_used_by`: every file whose body calls the function, once each, in path order. */
  method DeriveUsedBy(name: string, definedIn: File, snippets: seq<Snippet>) returns (callers: seq<File>)
    ensures name == [] ==> callers == []
    ensures name != [] ==> multiset(callers) == Users(snippets, Found(name, definedIn))
    ensures name != [] && !HidesCall(name) ==> multiset(callers) == Users(snippets, Calls(name, definedIn))
    ensures Sorted(FileLe, Whole, callers)
  {
    if name == [] {
      return [];
    }
    if !HidesCall(name) {
      UsersAgree(snippets, name, definedIn);
    }
    callers := [];
    for i := 0 to |snippets|
      invariant multiset(callers) == Users(snippets[..i], Found(name, definedIn))
    {
      UsersSnoc(snippets, i, Found(name, definedIn));
      var calls := ScanFile(name, snippets[i].lines, snippets[i].file == definedIn);
      if calls {
        callers := callers + [snippets[i].file];
      }
    }
    assert snippets[..|snippets|] == snippets;
    callers := SortFiles(callers);
  }

  function SortFiles(files: seq<File>): (r: seq<File>)
    ensures Sorted(FileLe, Whole, r) && multiset(r) == multiset(files)
  {
    FileOrder();
    SortKeeps(FileLe, Whole, files);
    SortSorts(FileLe, Whole, files);
    Sort(FileLe, Whole, files)
  }

  lemma FileOrder()
    ensures TotalOrder(FileLe)
  {
    StrOrder();
    forall a, b ensures (FileLe(a, b) || FileLe(b, a)) && (FileLe(a, b) && FileLe(b, a) ==> a == b) {
      LexTotal(StrLe, a, b);
    }
    forall a, b, c | FileLe(a, b) && FileLe(b, c) ensures FileLe(a, c) {
      LexTransitive(StrLe, a, b, c);
    }
  }
}
