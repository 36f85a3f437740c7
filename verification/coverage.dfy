/**
 * What the scanned structure contains, independently of its order: one
 * record per directory reachable through directories the filter keeps, and
 * one per qualifying document, each at its nesting depth. Hidden and
 * `img...` directories contribute nothing, not even their descendants.
 */
module Coverage {
  import opened Headers
  import opened Tree
  import opened Order
  import opened Scanner

  /** The outline's view of one node: its path, its depth and a document's headers. */
  datatype Record =
    | DirRecord(path: seq<string>, depth: nat)
    | DocRecord(path: seq<string>, depth: nat, headers: seq<Header>)

  /** The records of a scanned structure, in pre-order. */
  function Records(nodes: seq<Node>): seq<Record>
  {
    if nodes == [] then [] else NodeRecords(nodes[0]) + Records(nodes[1..])
  }

  function NodeRecords(n: Node): seq<Record>
  {
    match n
    case DirNode(_, path, depth, children) => [DirRecord(path, depth)] + Records(children)
    case DocNode(_, path, depth, headers) => [DocRecord(path, depth, headers)]
  }

  /**
   * The records a directory with entries `es` at `dir` must produce, in
   * listing order, read straight off the filter rules; the depth of an
   * entry is the number of directories above it.
   */
  ghost function Expected(es: seq<Entry>, dir: seq<string>): seq<Record>
    decreases es
  {
    if es == [] then [] else EntryExpected(es[0], dir) + Expected(es[1..], dir)
  }

  ghost function EntryExpected(e: Entry, dir: seq<string>): seq<Record>
    decreases e
  {
    match e
    case Dir(name, entries) =>
      if VisibleDir(name) then [DirRecord(dir + [name], |dir|)] + Expected(entries, dir + [name]) else []
    case UnlistableDir(name) =>
      if VisibleDir(name) then [DirRecord(dir + [name], |dir|)] else []
    case File(name, content) =>
      if QualifyingFile(name) then [DocRecord(dir + [name], |dir|, ExtractHeaders(content))] else []
    case Other(_) => []
  }

  lemma {:induction false} InsertExpected(key: string -> real, x: Entry, s: seq<Entry>, dir: seq<string>)
    ensures multiset(Expected(Insert(key, x, s), dir))
         == multiset(EntryExpected(x, dir)) + multiset(Expected(s, dir))
  {
    if s == [] || Compare(key, x, s[0]) <= 0 {
      assert ([x] + s)[1..] == s;
    } else {
      var t := Insert(key, x, s[1..]);
      assert ([s[0]] + t)[1..] == t;
      InsertExpected(key, x, s[1..], dir);
    }
  }

  /** Sorting the entries does not change what is expected, only its order. */
  lemma {:induction false} SortExpected(key: string -> real, s: seq<Entry>, dir: seq<string>)
    ensures multiset(Expected(Sort(key, s), dir)) == multiset(Expected(s, dir))
  {
    if s != [] {
      SortExpected(key, s[1..], dir);
      InsertExpected(key, s[0], Sort(key, s[1..]), dir);
    }
  }

  /**
   * The scan shows exactly the expected directories and documents, each as
   * often as it occurs in the tree, at its nesting depth and with its
   * headers, and nothing from under a skipped directory.
   */
  lemma {:induction false} ScanRecords(key: string -> real, es: seq<Entry>, dir: seq<string>, depth: nat)
    requires depth == |dir|
    ensures multiset(Records(Scan(key, es, dir, depth))) == multiset(Expected(es, dir))
    decreases es, 1
  {
    SortAllIn(key, es);
    ScanSortedRecords(key, es, Sort(key, es), dir, depth);
    SortExpected(key, es, dir);
  }

  lemma {:induction false} ScanSortedRecords(key: string -> real, es: seq<Entry>, sorted: seq<Entry>,
                                             dir: seq<string>, depth: nat)
    requires depth == |dir|
    requires AllIn(sorted, es)
    ensures multiset(Records(ScanSorted(key, es, sorted, dir, depth))) == multiset(Expected(sorted, dir))
    decreases es, 0, |sorted|
  {
    if sorted != [] {
      AllInTail(sorted, es);
      ScanSortedRecords(key, es, sorted[1..], dir, depth);
      var e := sorted[0];
      if Kept(e) {
        var n := ScanKept(key, es, e, dir, depth);
        var rest := ScanSorted(key, es, sorted[1..], dir, depth);
        assert ([n] + rest)[1..] == rest;
        ScanKeptRecords(key, es, e, dir, depth);
      } else {
        assert EntryExpected(e, dir) == [];
      }
    }
  }

  lemma {:induction false} ScanKeptRecords(key: string -> real, es: seq<Entry>, e: Entry, dir: seq<string>, depth: nat)
    requires depth == |dir| && e in es && Kept(e)
    ensures multiset(NodeRecords(ScanKept(key, es, e, dir, depth))) == multiset(EntryExpected(e, dir))
    decreases es, 0, 0
  {
    match e
    case Dir(name, entries) =>
      ScanRecords(key, entries, dir + [name], depth + 1);
    case _ =>
  }
}
