/**
 * The generator end to end, without its I/O: the entries of the target
 * directory are scanned at depth 0 and the structure is rendered; the text
 * is what `main` writes to "toc.md" in that directory.
 */
module Toc {
  import opened Optional
  import opened Text
  import opened Headers
  import opened Tree
  import opened Order
  import opened Scanner
  import opened Outline

  /** The content of the generated "toc.md" for a root directory holding `root`. */
  function GenerateToc(key: string -> real, root: seq<Entry>): (toc: string)
    ensures toc == [] || toc[|toc| - 1] == '\n'
    ensures toc == [] <==> KeptOf(Sort(key, root)) == []
  {
    StructureToMarkdown(Scan(key, root, [], 0))
  }

  /** No entry name anywhere in the tree contains '\n'. */
  ghost predicate NamesSingleLine(es: seq<Entry>)
  {
    forall i :: 0 <= i < |es| ==> '\n' !in es[i].name && (es[i].Dir? ==> NamesSingleLine(es[i].entries))
  }

  lemma {:induction false} ScanSingleLine(key: string -> real, es: seq<Entry>, dir: seq<string>, depth: nat)
    requires NamesSingleLine(es)
    requires forall k :: 0 <= k < |dir| ==> '\n' !in dir[k]
    ensures SingleLine(Scan(key, es, dir, depth))
    decreases es, 1
  {
    SortAllIn(key, es);
    ScanSortedSingleLine(key, es, Sort(key, es), dir, depth);
  }

  lemma {:induction false} ScanSortedSingleLine(key: string -> real, es: seq<Entry>, sorted: seq<Entry>,
                                                dir: seq<string>, depth: nat)
    requires NamesSingleLine(es)
    requires forall k :: 0 <= k < |dir| ==> '\n' !in dir[k]
    requires AllIn(sorted, es)
    ensures SingleLine(ScanSorted(key, es, sorted, dir, depth))
    decreases es, 0, |sorted|
  {
    if sorted != [] {
      AllInTail(sorted, es);
      ScanSortedSingleLine(key, es, sorted[1..], dir, depth);
      if Kept(sorted[0]) {
        ScanKeptSingleLine(key, es, sorted[0], dir, depth);
        var n := ScanKept(key, es, sorted[0], dir, depth);
        var rest := ScanSorted(key, es, sorted[1..], dir, depth);
        SingleLineCons(n, rest);
      }
    }
  }

  lemma SingleLineCons(n: Node, rest: seq<Node>)
    requires NodeSingleLine(n) && SingleLine(rest)
    ensures SingleLine([n] + rest)
  {
    var r := [n] + rest;
    forall i | 0 <= i < |r|
      ensures NodeSingleLine(r[i])
    {
      if i > 0 {
        assert r[i] == rest[i - 1];
      }
    }
  }

  lemma {:induction false} ScanKeptSingleLine(key: string -> real, es: seq<Entry>, e: Entry,
                                              dir: seq<string>, depth: nat)
    requires NamesSingleLine(es)
    requires forall k :: 0 <= k < |dir| ==> '\n' !in dir[k]
    requires e in es && Kept(e)
    ensures NodeSingleLine(ScanKept(key, es, e, dir, depth))
    decreases es, 0, 0
  {
    var i :| 0 <= i < |es| && es[i] == e;
    var path := dir + [e.name];
    assert forall k :: 0 <= k < |path| ==> '\n' !in path[k] by {
      assert forall k :: 0 <= k < |dir| ==> path[k] == dir[k];
    }
    match e
    case Dir(name, entries) =>
      ScanSingleLine(key, entries, path, depth + 1);
    case _ =>
  }

  /**
   * When no name in the tree contains '\n', reading the generated file back
   * gives exactly the pre-order lines of the scanned structure.
   */
  lemma TocReadsBack(key: string -> real, root: seq<Entry>)
    requires NamesSingleLine(root)
    ensures ParseOutline(GenerateToc(key, root)) == Preorder(Scan(key, root, [], 0))
  {
    ScanSingleLine(key, root, [], 0);
    RoundTrip(Scan(key, root, [], 0));
  }
}
