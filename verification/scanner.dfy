/**
 * `scanDirectory` over an in-memory tree: the entries of a directory are
 * sorted, the ones the filter keeps become nodes at the current depth, and
 * kept directories are scanned one level deeper.
 */
module Scanner {
  import opened Optional
  import opened Text
  import opened Headers
  import opened Tree
  import opened Order

  /** The generated file's name; a file with exactly this name is never scanned. */
  const TargetFilename: string := "toc.md"

  /**
   * `isMarkdownFile`: the lower-cased name ends with ".md". Case only matters
   * for the last two letters, so "A.MD" and "b.Md" qualify.
   */
  function IsMarkdownFile(filename: string): (b: bool)
    ensures b <==>
      && |filename| >= 3
      && filename[|filename| - 3] == '.'
      && (filename[|filename| - 2] == 'm' || filename[|filename| - 2] == 'M')
      && (filename[|filename| - 1] == 'd' || filename[|filename| - 1] == 'D')
  {
    var n := |filename|;
    var low := ToLower(filename);
    if n < 3 then false
    else
      assert low[n - 3..] == [low[n - 3], low[n - 2], low[n - 1]];
      EndsWith(low, ".md")
  }

  /** A directory is descended into unless its name starts with "." or "img". */
  function VisibleDir(name: string): (b: bool)
    ensures b <==>
      && !(|name| >= 1 && name[0] == '.')
      && !(|name| >= 3 && name[0] == 'i' && name[1] == 'm' && name[2] == 'g')
  {
    assert |name| >= 1 ==> (name[..1] == "." <==> name[0] == '.');
    assert |name| >= 3 ==> (name[..3] == "img" <==> name[0] == 'i' && name[1] == 'm' && name[2] == 'g');
    !StartsWith(name, ".") && !StartsWith(name, "img")
  }

  /** A regular file becomes a document if it is Markdown and not the output file. */
  function QualifyingFile(name: string): (b: bool)
    ensures b <==>
      && |name| >= 3
      && name[|name| - 3] == '.'
      && name[|name| - 2] in "mM"
      && name[|name| - 1] in "dD"
      && name != "toc.md"
  {
    IsMarkdownFile(name) && name != TargetFilename
  }

  /**
   * The filter applied to each sorted entry: the name test for directories
   * applies whether or not the directory can be listed, the document test
   * applies to regular files only, and nothing else is kept.
   */
  function Kept(e: Entry): (b: bool)
    ensures e.IsDirectory() ==> (b <==> VisibleDir(e.name))
    ensures e.File? ==> (b <==> QualifyingFile(e.name))
    ensures e.Other? ==> !b
  {
    match e
    case Dir(name, _) => VisibleDir(name)
    case UnlistableDir(name) => VisibleDir(name)
    case File(name, _) => QualifyingFile(name)
    case Other(_) => false
  }

  /** The filter's decisions on directory names: a prefix test, so "images" stays. */
  lemma VisibleDirExamples()
    ensures !VisibleDir(".git") && !VisibleDir("img") && !VisibleDir("imgs")
    ensures VisibleDir("images") && VisibleDir("notes")
  {
  }

  /** The filter's decisions on file names: the output-name test is case-sensitive. */
  lemma QualifyingFileExamples()
    ensures !QualifyingFile("toc.md") && QualifyingFile("TOC.md")
    ensures QualifyingFile("A.MD") && QualifyingFile(".draft.md")
    ensures !QualifyingFile("notes.txt")
  {
  }

  /** The entries of `s` the filter keeps, in order. */
  function KeptOf(s: seq<Entry>): (r: seq<Entry>)
    ensures |r| <= |s|
    ensures forall e :: e in r ==> e in s && Kept(e)
    ensures forall e :: e in s && Kept(e) ==> e in r
  {
    if s == [] then [] else (if Kept(s[0]) then [s[0]] else []) + KeptOf(s[1..])
  }

  /** Filtering distributes over concatenation, so the listing order is kept. */
  lemma {:induction false} KeptOfAppend(a: seq<Entry>, b: seq<Entry>)
    ensures KeptOf(a + b) == KeptOf(a) + KeptOf(b)
  {
    if a == [] {
      assert a + b == b;
    } else {
      assert (a + b)[1..] == a[1..] + b;
      KeptOfAppend(a[1..], b);
    }
  }

  lemma {:induction false} KeptOfSorted(key: string -> real, s: seq<Entry>)
    requires Sorted(key, s)
    ensures Sorted(key, KeptOf(s))
  {
    if s != [] {
      assert Sorted(key, s[1..]);
      KeptOfSorted(key, s[1..]);
      if Kept(s[0]) {
        var t := KeptOf(s[1..]);
        forall k | 0 <= k < |t|
          ensures Compare(key, s[0], t[k]) <= 0
        {
          assert t[k] in s[1..];
        }
        SortedCons(key, s[0], t);
      }
    }
  }

  /** Node `n` was built from entry `e`: same name, same kind, the file's headers. */
  predicate Describes(n: Node, e: Entry)
  {
    && n.name == e.name
    && (n.DirNode? <==> e.IsDirectory())
    && (n.DocNode? ==> e.File? && n.headers == ExtractHeaders(e.content))
  }

  /** `nodes` were built one-to-one and in order from the entries `kept`. */
  predicate DescribesAll(nodes: seq<Node>, kept: seq<Entry>)
  {
    && |nodes| == |kept|
    && (nodes != [] ==> Describes(nodes[0], kept[0]) && DescribesAll(nodes[1..], kept[1..]))
  }

  lemma {:induction false} DescribesAllIndex(nodes: seq<Node>, kept: seq<Entry>)
    requires DescribesAll(nodes, kept)
    ensures |nodes| == |kept|
    ensures forall i :: 0 <= i < |nodes| ==> Describes(nodes[i], kept[i])
  {
    if nodes != [] {
      DescribesAllIndex(nodes[1..], kept[1..]);
      forall i | 1 <= i < |nodes|
        ensures Describes(nodes[i], kept[i])
      {
        assert nodes[i] == nodes[1..][i - 1] && kept[i] == kept[1..][i - 1];
      }
    }
  }

  /**
   * Every node sits at `depth` with path `dir` plus its own name, and the
   * children of a directory node sit one level deeper under its path.
   */
  ghost predicate NodeShaped(n: Node, dir: seq<string>, depth: nat)
    decreases n
  {
    && n.depth == depth
    && n.path == dir + [n.name]
    && (n.DirNode? ==>
          forall i :: 0 <= i < |n.children| ==> NodeShaped(n.children[i], n.path, depth + 1))
  }

  ghost predicate Shaped(nodes: seq<Node>, dir: seq<string>, depth: nat)
  {
    forall i :: 0 <= i < |nodes| ==> NodeShaped(nodes[i], dir, depth)
  }

  /** Directory nodes come first, and nodes of one kind never decrease in collation key. */
  ghost predicate SiblingsOrdered(key: string -> real, nodes: seq<Node>)
  {
    && (forall i, j :: 0 <= i < j < |nodes| && nodes[j].DirNode? ==> nodes[i].DirNode?)
    && (forall i, j :: 0 <= i < j < |nodes| && nodes[i].DirNode? == nodes[j].DirNode?
                       ==> key(nodes[i].name) <= key(nodes[j].name))
  }

  /** Every list of siblings in the structure is ordered. */
  ghost predicate TreeOrdered(key: string -> real, nodes: seq<Node>)
  {
    && SiblingsOrdered(key, nodes)
    && forall i :: 0 <= i < |nodes| && nodes[i].DirNode? ==> TreeOrdered(key, nodes[i].children)
  }

  /** Nodes built one-to-one from sorted entries inherit their order. */
  lemma DescribedOrder(key: string -> real, r: seq<Node>, kept: seq<Entry>)
    requires |r| == |kept| && Sorted(key, kept)
    requires forall i :: 0 <= i < |r| ==> Describes(r[i], kept[i])
    ensures SiblingsOrdered(key, r)
  {
    forall i, j | 0 <= i < j < |r|
      ensures r[j].DirNode? ==> r[i].DirNode?
      ensures r[i].DirNode? == r[j].DirNode? ==> key(r[i].name) <= key(r[j].name)
    {
      assert Compare(key, kept[i], kept[j]) <= 0;
    }
  }

  /**
   * `scanDirectory(dir, depth)` for a directory whose entries are `es`:
   * one node per kept entry, in sorted order (directories first, then by
   * collation key), each at `depth`.
   */
  function Scan(key: string -> real, es: seq<Entry>, dir: seq<string>, depth: nat): (r: seq<Node>)
    ensures DescribesAll(r, KeptOf(Sort(key, es)))
    decreases es, 1
  {
    SortAllIn(key, es);
    ScanSorted(key, es, Sort(key, es), dir, depth)
  }

  /** Every entry of `s` is one of `es`: the scan only descends into entries of the directory. */
  ghost predicate AllIn(s: seq<Entry>, es: seq<Entry>)
  {
    forall i :: 0 <= i < |s| ==> s[i] in es
  }

  lemma AllInTail(s: seq<Entry>, es: seq<Entry>)
    requires s != [] && AllIn(s, es)
    ensures s[0] in es && AllIn(s[1..], es)
  {
    assert forall i :: 0 <= i < |s| - 1 ==> s[1..][i] == s[i + 1];
  }

  lemma SortAllIn(key: string -> real, es: seq<Entry>)
    ensures AllIn(Sort(key, es), es)
  {
    SortMembers(key, es);
  }

  /** The loop of `scanDirectory` over the sorted entries of `es`. */
  function ScanSorted(key: string -> real, ghost es: seq<Entry>, sorted: seq<Entry>, dir: seq<string>, depth: nat)
    : (r: seq<Node>)
    requires AllIn(sorted, es)
    ensures DescribesAll(r, KeptOf(sorted))
    decreases es, 0, |sorted|
  {
    if sorted == [] then []
    else
      AllInTail(sorted, es);
      var rest := ScanSorted(key, es, sorted[1..], dir, depth);
      if Kept(sorted[0]) then
        var n := ScanKept(key, es, sorted[0], dir, depth);
        DescribesCons(n, sorted[0], rest, KeptOf(sorted[1..]));
        [n] + rest
      else
        assert KeptOf(sorted) == KeptOf(sorted[1..]);
        rest
  }

  lemma DescribesCons(n: Node, e: Entry, rest: seq<Node>, kept: seq<Entry>)
    requires Describes(n, e) && DescribesAll(rest, kept)
    ensures DescribesAll([n] + rest, [e] + kept)
  {
    assert ([n] + rest)[1..] == rest && ([e] + kept)[1..] == kept;
  }

  /**
   * The node for one kept entry: a directory node holding the scan of its
   * listing one level deeper (nothing if it cannot be listed), or a
   * document node holding the file's headers.
   */
  function ScanKept(key: string -> real, ghost es: seq<Entry>, e: Entry, dir: seq<string>, depth: nat): (n: Node)
    requires e in es && Kept(e)
    ensures Describes(n, e)
    decreases es, 0, 0
  {
    match e
    case Dir(name, entries) =>
      DirNode(name, dir + [name], depth, Scan(key, entries, dir + [name], depth + 1))
    case UnlistableDir(name) =>
      DirNode(name, dir + [name], depth, [])
    case File(name, content) =>
      DocNode(name, dir + [name], depth, ExtractHeaders(content))
  }

  /**
   * Every node of a scan at `depth` under `dir` sits at `depth` with path
   * `dir` plus its name, and its children sit one level deeper under that path.
   */
  lemma {:induction false} ScanShaped(key: string -> real, es: seq<Entry>, dir: seq<string>, depth: nat)
    ensures Shaped(Scan(key, es, dir, depth), dir, depth)
    decreases es, 1
  {
    SortAllIn(key, es);
    ScanSortedShaped(key, es, Sort(key, es), dir, depth);
  }

  lemma {:induction false} ScanSortedShaped(key: string -> real, es: seq<Entry>, sorted: seq<Entry>,
                                            dir: seq<string>, depth: nat)
    requires AllIn(sorted, es)
    ensures Shaped(ScanSorted(key, es, sorted, dir, depth), dir, depth)
    decreases es, 0, |sorted|
  {
    if sorted != [] {
      AllInTail(sorted, es);
      ScanSortedShaped(key, es, sorted[1..], dir, depth);
      if Kept(sorted[0]) {
        ScanKeptShaped(key, es, sorted[0], dir, depth);
        var n := ScanKept(key, es, sorted[0], dir, depth);
        var rest := ScanSorted(key, es, sorted[1..], dir, depth);
        ShapedCons(n, rest, dir, depth);
      }
    }
  }

  lemma ShapedCons(n: Node, rest: seq<Node>, dir: seq<string>, depth: nat)
    requires NodeShaped(n, dir, depth) && Shaped(rest, dir, depth)
    ensures Shaped([n] + rest, dir, depth)
  {
    var r := [n] + rest;
    forall i | 0 <= i < |r|
      ensures NodeShaped(r[i], dir, depth)
    {
      if i > 0 {
        assert r[i] == rest[i - 1];
      }
    }
  }

  lemma {:induction false} ScanKeptShaped(key: string -> real, es: seq<Entry>, e: Entry, dir: seq<string>, depth: nat)
    requires e in es && Kept(e)
    ensures NodeShaped(ScanKept(key, es, e, dir, depth), dir, depth)
    decreases es, 0, 0
  {
    match e
    case Dir(name, entries) =>
      ScanShaped(key, entries, dir + [name], depth + 1);
    case _ =>
  }

  /** Siblings are ordered at every level of a scan: directories first, then by key. */
  lemma {:induction false} ScanOrdered(key: string -> real, es: seq<Entry>, dir: seq<string>, depth: nat)
    ensures TreeOrdered(key, Scan(key, es, dir, depth))
    decreases es, 1
  {
    var sorted := Sort(key, es);
    SortAllIn(key, es);
    KeptOfSorted(key, sorted);
    ScanSortedOrdered(key, es, sorted, dir, depth);
    DescribesAllIndex(Scan(key, es, dir, depth), KeptOf(sorted));
    DescribedOrder(key, Scan(key, es, dir, depth), KeptOf(sorted));
  }

  lemma {:induction false} ScanSortedOrdered(key: string -> real, es: seq<Entry>, sorted: seq<Entry>,
                                             dir: seq<string>, depth: nat)
    requires AllIn(sorted, es)
    ensures ChildrenOrdered(key, ScanSorted(key, es, sorted, dir, depth))
    decreases es, 0, |sorted|
  {
    if sorted != [] {
      AllInTail(sorted, es);
      ScanSortedOrdered(key, es, sorted[1..], dir, depth);
      if Kept(sorted[0]) {
        ScanKeptOrdered(key, es, sorted[0], dir, depth);
        var n := ScanKept(key, es, sorted[0], dir, depth);
        var rest := ScanSorted(key, es, sorted[1..], dir, depth);
        ChildrenOrderedCons(key, n, rest);
      }
    }
  }

  /** Below every directory node of `nodes` the siblings are ordered. */
  ghost predicate ChildrenOrdered(key: string -> real, nodes: seq<Node>)
  {
    forall i :: 0 <= i < |nodes| && nodes[i].DirNode? ==> TreeOrdered(key, nodes[i].children)
  }

  lemma ChildrenOrderedCons(key: string -> real, n: Node, rest: seq<Node>)
    requires n.DirNode? ==> TreeOrdered(key, n.children)
    requires ChildrenOrdered(key, rest)
    ensures ChildrenOrdered(key, [n] + rest)
  {
    var r := [n] + rest;
    forall i | 0 <= i < |r| && r[i].DirNode?
      ensures TreeOrdered(key, r[i].children)
    {
      if i > 0 {
        assert r[i] == rest[i - 1];
      }
    }
  }

  lemma {:induction false} ScanKeptOrdered(key: string -> real, es: seq<Entry>, e: Entry, dir: seq<string>, depth: nat)
    requires e in es && Kept(e)
    ensures ScanKept(key, es, e, dir, depth).DirNode? ==> TreeOrdered(key, ScanKept(key, es, e, dir, depth).children)
    decreases es, 0, 0
  {
    match e
    case Dir(name, entries) =>
      ScanOrdered(key, entries, dir + [name], depth + 1);
    case _ =>
  }
}
