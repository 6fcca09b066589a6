/** Process paths: `/`-separated strings as paths in a tree. */
module ProcessPaths {
  import opened Bytes

  const SEPARATOR := '/'
  const ROOT: string := "/"

  /** `str::split` */
  function Split(s: string, c: char): (parts: seq<string>)
    ensures parts != []
  {
    if s == [] then [[]]
    else
      var rest := Split(s[1..], c);
      if s[0] == c then [[]] + rest else [[s[0]] + rest[0]] + rest[1..]
  }

  /** `str::rsplit_once` */
  function RSplitOnce(s: string, c: char): Option<(string, string)> {
    if s == [] then None
    else
      var last := |s| - 1;
      if s[last] == c then Some((s[..last], []))
      else match RSplitOnce(s[..last], c)
        case None => None
        case Some((a, b)) => Some((a, b + [s[last]]))
  }

  predicate IsProcessPath(path: string) {
    path == ROOT ||
    (path != [] && path[0] == SEPARATOR && path[1..] != [] &&
     forall part :: part in Split(path[1..], SEPARATOR) ==> part != [])
  }

  function Leaf(path: string): Option<string> {
    if !IsProcessPath(path) || path == ROOT then None
    else match RSplitOnce(path, SEPARATOR)
      case None => None
      case Some((_, leaf)) => Some(leaf)
  }

  function Parent(path: string): Option<string> {
    if !IsProcessPath(path) || path == ROOT then None
    else match RSplitOnce(path, SEPARATOR)
      case None => None
      case Some((parent, _)) => Some(if parent == [] then ROOT else parent)
  }

  predicate IsDirectChild(parent: string, child: string) {
    IsProcessPath(parent) && IsProcessPath(child) && Parent(child) == Some(parent)
  }

  // ---- the tree the strings stand for

  ghost predicate IsPart(part: string) {
    part != [] && SEPARATOR !in part
  }

  ghost predicate AreParts(parts: seq<string>) {
    forall i :: 0 <= i < |parts| ==> IsPart(parts[i])
  }

  function Rooted(parts: seq<string>): string {
    if parts == [] then [] else [SEPARATOR] + parts[0] + Rooted(parts[1..])
  }

  function PathOf(parts: seq<string>): string {
    if parts == [] then ROOT else Rooted(parts)
  }

  lemma {:induction false} SplitPart(part: string, rest: string, c: char)
    requires c !in part
    ensures Split(part, c) == [part]
    ensures Split(part + [c] + rest, c) == [part] + Split(rest, c)
    decreases |part|
  {
    var s := part + [c] + rest;
    if part == [] {
      assert s[1..] == rest;
    } else {
      assert s[1..] == part[1..] + [c] + rest;
      SplitPart(part[1..], rest, c);
      assert part == [part[0]] + part[1..];
    }
  }

  lemma {:induction false} RSplitPart(prefix: string, leaf: string)
    requires SEPARATOR !in leaf
    ensures RSplitOnce(prefix + [SEPARATOR] + leaf, SEPARATOR) == Some((prefix, leaf))
    decreases |leaf|
  {
    var s := prefix + [SEPARATOR] + leaf;
    if leaf == [] {
      assert s[..|s| - 1] == prefix;
    } else {
      assert s[..|s| - 1] == prefix + [SEPARATOR] + leaf[..|leaf| - 1];
      RSplitPart(prefix, leaf[..|leaf| - 1]);
      assert leaf == leaf[..|leaf| - 1] + [leaf[|leaf| - 1]];
    }
  }

  lemma {:induction false} RootedSnoc(parts: seq<string>, leaf: string)
    ensures Rooted(parts + [leaf]) == Rooted(parts) + [SEPARATOR] + leaf
    decreases |parts|
  {
    if parts == [] {
      assert (parts + [leaf])[1..] == [];
    } else {
      assert (parts + [leaf])[1..] == parts[1..] + [leaf];
      RootedSnoc(parts[1..], leaf);
    }
  }

  lemma RootedRest(part: string, rest: string)
    requires rest != [] && rest[0] == SEPARATOR
    ensures ([SEPARATOR] + part + rest)[1..] == part + [SEPARATOR] + rest[1..]
  {
  }

  lemma {:induction false} SplitRooted(parts: seq<string>)
    requires parts != [] && AreParts(parts)
    ensures Rooted(parts) != [] && Rooted(parts)[0] == SEPARATOR
    ensures Rooted(parts)[1..] != []
    ensures Split(Rooted(parts)[1..], SEPARATOR) == parts
    decreases |parts|
  {
    var rest := parts[1..];
    if rest == [] {
      assert Rooted(parts)[1..] == parts[0];
      SplitPart(parts[0], [], SEPARATOR);
    } else {
      SplitRooted(rest);
      RootedRest(parts[0], Rooted(rest));
      SplitPart(parts[0], Rooted(rest)[1..], SEPARATOR);
    }
  }

  lemma {:induction false} RootedSplit(s: string)
    ensures var parts := Split(s, SEPARATOR); parts[0] + Rooted(parts[1..]) == s
    ensures forall part :: part in Split(s, SEPARATOR) ==> SEPARATOR !in part
    decreases |s|
  {
    if s != [] {
      RootedSplit(s[1..]);
      var rest, parts := Split(s[1..], SEPARATOR), Split(s, SEPARATOR);
      if s[0] == SEPARATOR {
        assert parts[1..] == rest;
        assert [SEPARATOR] + rest[0] + Rooted(rest[1..]) == [SEPARATOR] + (rest[0] + Rooted(rest[1..]));
      } else {
        assert parts[1..] == rest[1..];
        assert [s[0]] + rest[0] + Rooted(rest[1..]) == [s[0]] + (rest[0] + Rooted(rest[1..]));
      }
    }
  }

  /** Process paths are exactly the rooted paths over non-empty, slash-free parts. */
  lemma PathOfParts(parts: seq<string>)
    requires AreParts(parts)
    ensures IsProcessPath(PathOf(parts))
    ensures PathOf(parts) == ROOT <==> parts == []
  {
    if parts != [] {
      SplitRooted(parts);
      forall part | part in Split(PathOf(parts)[1..], SEPARATOR) ensures part != [] {
        assert part in parts;
      }
    }
  }

  lemma PartsOfPath(path: string) returns (parts: seq<string>)
    requires IsProcessPath(path)
    ensures AreParts(parts) && PathOf(parts) == path
  {
    if path == ROOT {
      parts := [];
    } else {
      parts := Split(path[1..], SEPARATOR);
      RootedSplit(path[1..]);
      assert [SEPARATOR] + parts[0] + Rooted(parts[1..]) == [SEPARATOR] + (parts[0] + Rooted(parts[1..]));
      forall i | 0 <= i < |parts| ensures IsPart(parts[i]) {
        assert parts[i] in parts;
      }
    }
  }

  lemma ParentOfPath(parts: seq<string>, leaf: string)
    requires AreParts(parts) && IsPart(leaf)
    ensures Parent(PathOf(parts + [leaf])) == Some(PathOf(parts))
    ensures Leaf(PathOf(parts + [leaf])) == Some(leaf)
  {
    PathOfParts(parts + [leaf]);
    RootedSnoc(parts, leaf);
    RSplitPart(Rooted(parts), leaf);
    if parts != [] {
      SplitRooted(parts);
    }
  }

  /** The string test and the tree relation agree: a direct child has one part more. */
  lemma DirectChildIsOnePartMore(parent: string, child: string)
    ensures IsDirectChild(parent, child) <==>
            exists parts, leaf :: AreParts(parts) && IsPart(leaf) && parent == PathOf(parts) && child == PathOf(parts + [leaf])
  {
    if IsDirectChild(parent, child) {
      var all := PartsOfPath(child);
      var parts, leaf := all[..|all| - 1], all[|all| - 1];
      assert all == parts + [leaf];
      ParentOfPath(parts, leaf);
    }
    forall parts, leaf | AreParts(parts) && IsPart(leaf) && parent == PathOf(parts) && child == PathOf(parts + [leaf])
      ensures IsDirectChild(parent, child)
    {
      PathOfParts(parts);
      PathOfParts(parts + [leaf]);
      ParentOfPath(parts, leaf);
    }
  }
}
