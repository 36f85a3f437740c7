/**
 * `structureToMarkdown`: the scanned structure flattened in pre-order into
 * lines. A node's line is its depth + 1 '#' markers, a folder or page
 * glyph and its label; each header of a document follows as a bullet
 * indented by two spaces per header level. Every line ends with '\n'.
 */
module Outline {
  import opened Text
  import opened Headers
  import opened Tree

  /** The folder and page glyphs, each a single character. */
  const DirGlyph: char := '\U{1F4C1}'
  const DocGlyph: char := '\U{1F4C4}'

  /** The text a document's line links to: its path below the scan root, '/'-separated. */
  function RelativePath(path: seq<string>): (r: string)
    ensures path != [] && (forall k :: 0 <= k < |path| ==> '/' !in path[k]) ==> Split(r, '/') == path
  {
    if path != [] && (forall k :: 0 <= k < |path| ==> '/' !in path[k]) then
      SplitJoin(path, '/');
      Join(path, '/')
    else
      Join(path, '/')
  }

  /**
   * `addItem`: the node's own line, `depth + 1` '#' markers and a space
   * first, then its children's items or its header bullets. Every line ends
   * with '\n'.
   */
  function AddItem(n: Node): (r: string)
    ensures r != [] && r[0] == '#' && r[|r| - 1] == '\n'
  {
    var indent := Repeat('#', n.depth + 1);
    match n
    case DirNode(name, _, _, children) =>
      indent + " " + [DirGlyph] + " " + name + "\n" + AddItems(children)
    case DocNode(name, path, _, headers) =>
      indent + " " + [DocGlyph] + " [" + name + "](" + RelativePath(path) + ")\n" + AddHeaders(headers)
  }

  /** The items of `nodes`, one after another, as the loops over a list of nodes write them. */
  function AddItems(nodes: seq<Node>): (r: string)
    ensures r == [] <==> nodes == []
    ensures r == [] || r[|r| - 1] == '\n'
  {
    if nodes == [] then [] else AddItem(nodes[0]) + AddItems(nodes[1..])
  }

  /** The bullets of a document's headers, each indented two spaces per level. */
  function AddHeaders(headers: seq<Header>): (r: string)
    ensures r == [] <==> headers == []
    ensures r == [] || r[|r| - 1] == '\n'
  {
    if headers == [] then []
    else Repeat(' ', 2 * headers[0].level) + "- " + headers[0].title + "\n" + AddHeaders(headers[1..])
  }

  /** The whole outline: every item, in order. */
  function StructureToMarkdown(structure: seq<Node>): (markdown: string)
    ensures markdown == [] <==> structure == []
    ensures markdown == [] || markdown[|markdown| - 1] == '\n'
  {
    AddItems(structure)
  }

  lemma {:induction false} AddItemsAppend(a: seq<Node>, b: seq<Node>)
    ensures AddItems(a + b) == AddItems(a) + AddItems(b)
  {
    if a != [] {
      assert (a + b)[1..] == a[1..] + b;
      AddItemsAppend(a[1..], b);
    } else {
      assert a + b == b;
    }
  }

  lemma AddItemsStep(nodes: seq<Node>, i: nat)
    requires i < |nodes|
    ensures AddItems(nodes[..i + 1]) == AddItems(nodes[..i]) + AddItem(nodes[i])
  {
    AddItemsAppend(nodes[..i], [nodes[i]]);
    assert nodes[..i + 1] == nodes[..i] + [nodes[i]];
    assert [nodes[i]][1..] == [];
  }

  /** The top-level loop of `structureToMarkdown`. */
  method StructureToMarkdownLoop(structure: seq<Node>) returns (markdown: string)
    ensures markdown == StructureToMarkdown(structure)
    ensures markdown == [] || markdown[|markdown| - 1] == '\n'
  {
    markdown := "";
    var i := 0;
    while i < |structure|
      invariant i <= |structure|
      invariant markdown == AddItems(structure[..i])
    {
      AddItemsStep(structure, i);
      markdown := markdown + AddItem(structure[i]);
      i := i + 1;
    }
    assert structure[..i] == structure;
  }

  /** One line of an outline, as a reader of the generated file sees it. */
  datatype Line =
    | Heading(depth: nat, isDir: bool, caption: string)
    | Bullet(level: nat, title: string)
    | Unparsed(text: string)

  /** The label shown after a node's glyph: a directory's name, or a link to a document. */
  function Label(n: Node): string
  {
    match n
    case DirNode(name, _, _, _) => name
    case DocNode(name, path, _, _) => "[" + name + "](" + RelativePath(path) + ")"
  }

  /** Reference reading of the outline: one heading per node in pre-order, one bullet per header. */
  function Preorder(nodes: seq<Node>): seq<Line>
  {
    if nodes == [] then [] else NodeLines(nodes[0]) + Preorder(nodes[1..])
  }

  function NodeLines(n: Node): seq<Line>
  {
    [Heading(n.depth, n.DirNode?, Label(n))]
      + match n
        case DirNode(_, _, _, children) => Preorder(children)
        case DocNode(_, _, _, headers) => HeaderLines(headers)
  }

  function HeaderLines(headers: seq<Header>): (r: seq<Line>)
    ensures |r| == |headers|
    ensures forall i :: 0 <= i < |r| ==> r[i] == Bullet(headers[i].level, headers[i].title)
  {
    if headers == [] then [] else [Bullet(headers[0].level, headers[0].title)] + HeaderLines(headers[1..])
  }

  /** The text of a line, without its '\n'. */
  function Format(l: Line): string
  {
    match l
    case Heading(depth, isDir, caption) =>
      Repeat('#', depth + 1) + " " + [if isDir then DirGlyph else DocGlyph] + " " + caption
    case Bullet(level, title) => Repeat(' ', 2 * level) + "- " + title
    case Unparsed(text) => text
  }

  predicate IsSpace(c: char)
  {
    c == ' '
  }

  /** Reads one line of an outline back. */
  function ParseLine(s: string): Line
  {
    var hashes := LeadingCount(s, IsHash);
    if hashes > 0 then
      if hashes + 3 <= |s| && s[hashes] == ' ' && s[hashes + 2] == ' '
         && (s[hashes + 1] == DirGlyph || s[hashes + 1] == DocGlyph)
      then Heading(hashes - 1, s[hashes + 1] == DirGlyph, s[hashes + 3..])
      else Unparsed(s)
    else
      var spaces := LeadingCount(s, IsSpace);
      if spaces % 2 == 0 && spaces + 2 <= |s| && s[spaces] == '-' && s[spaces + 1] == ' '
      then Bullet(spaces / 2, s[spaces + 2..])
      else Unparsed(s)
  }

  /** Headings and bullets read back as themselves. */
  lemma ParseFormat(l: Line)
    requires !l.Unparsed?
    ensures ParseLine(Format(l)) == l
  {
    var s := Format(l);
    match l
    case Heading(depth, isDir, caption) =>
      LeadingCountUnique(s, IsHash, depth + 1);
      assert s[depth + 4..] == caption;
    case Bullet(level, title) =>
      LeadingCountUnique(s, IsHash, 0);
      LeadingCountUnique(s, IsSpace, 2 * level);
      assert s[2 * level + 2..] == title;
  }

  /** Each line followed by '\n'. */
  function Terminated(lines: seq<string>): string
  {
    if lines == [] then [] else lines[0] + "\n" + Terminated(lines[1..])
  }

  function FormatAll(lines: seq<Line>): (r: seq<string>)
    ensures |r| == |lines|
    ensures forall i :: 0 <= i < |r| ==> r[i] == Format(lines[i])
  {
    if lines == [] then [] else [Format(lines[0])] + FormatAll(lines[1..])
  }

  /** Reads a whole outline back, one line per '\n'-terminated line. */
  function ParseOutline(text: string): seq<Line>
  {
    var pieces := Split(text, '\n');
    seq(|pieces| - 1, i requires 0 <= i < |pieces| - 1 => ParseLine(pieces[i]))
  }

  lemma {:induction false} TerminatedAppend(a: seq<string>, b: seq<string>)
    ensures Terminated(a + b) == Terminated(a) + Terminated(b)
  {
    if a == [] {
      assert a + b == b;
    } else {
      assert (a + b)[1..] == a[1..] + b;
      TerminatedAppend(a[1..], b);
    }
  }

  lemma FormatAllAppend(a: seq<Line>, b: seq<Line>)
    ensures FormatAll(a + b) == FormatAll(a) + FormatAll(b)
  {
  }

  lemma {:induction false} AddHeadersLines(headers: seq<Header>)
    ensures AddHeaders(headers) == Terminated(FormatAll(HeaderLines(headers)))
  {
    if headers != [] {
      AddHeadersLines(headers[1..]);
      var first := Bullet(headers[0].level, headers[0].title);
      FormatAllAppend([first], HeaderLines(headers[1..]));
      TerminatedAppend([Format(first)], FormatAll(HeaderLines(headers[1..])));
    }
  }

  lemma {:induction false} AddItemLines(n: Node)
    ensures AddItem(n) == Terminated(FormatAll(NodeLines(n)))
    decreases n, 1
  {
    var heading := Heading(n.depth, n.DirNode?, Label(n));
    var rest := match n
      case DirNode(_, _, _, children) => Preorder(children)
      case DocNode(_, _, _, headers) => HeaderLines(headers);
    match n
    case DirNode(_, _, _, children) =>
      AddItemsLines(children);
      DirHeadLine(n);
    case DocNode(_, _, _, headers) =>
      AddHeadersLines(headers);
      DocHeadLine(n);
    FormatAllAppend([heading], rest);
    TerminatedAppend([Format(heading)], FormatAll(rest));
  }

  /** A directory's item is its heading line followed by its children's items. */
  lemma DirHeadLine(n: Node)
    requires n.DirNode?
    ensures AddItem(n) == Format(Heading(n.depth, true, Label(n))) + "\n" + AddItems(n.children)
  {
  }

  /** A document's item is its heading line followed by its header bullets. */
  lemma DocHeadLine(n: Node)
    requires n.DocNode?
    ensures AddItem(n) == Format(Heading(n.depth, false, Label(n))) + "\n" + AddHeaders(n.headers)
  {
    var pre := Repeat('#', n.depth + 1) + " " + [DocGlyph];
    var path := RelativePath(n.path);
    assert AddItem(n) == pre + " [" + n.name + "](" + path + ")\n" + AddHeaders(n.headers);
    assert Format(Heading(n.depth, false, Label(n))) == pre + " " + ("[" + n.name + "](" + path + ")");
  }

  /** The text `addItem` appends is the reference lines, each followed by '\n'. */
  lemma {:induction false} AddItemsLines(nodes: seq<Node>)
    ensures AddItems(nodes) == Terminated(FormatAll(Preorder(nodes)))
    decreases nodes, 0
  {
    if nodes != [] {
      AddItemLines(nodes[0]);
      AddItemsLines(nodes[1..]);
      FormatAllAppend(NodeLines(nodes[0]), Preorder(nodes[1..]));
      TerminatedAppend(FormatAll(NodeLines(nodes[0])), FormatAll(Preorder(nodes[1..])));
    }
  }

  lemma {:induction false} TerminatedIsJoin(lines: seq<string>)
    ensures Terminated(lines) == Join(lines + [""], '\n')
  {
    if lines != [] {
      TerminatedIsJoin(lines[1..]);
      assert (lines + [""])[1..] == lines[1..] + [""];
    }
  }

  /** No name, path component or header title of the structure contains '\n'. */
  ghost predicate SingleLine(nodes: seq<Node>)
  {
    forall i :: 0 <= i < |nodes| ==> NodeSingleLine(nodes[i])
  }

  ghost predicate NodeSingleLine(n: Node)
    decreases n
  {
    && '\n' !in n.name
    && (forall k :: 0 <= k < |n.path| ==> '\n' !in n.path[k])
    && match n
       case DirNode(_, _, _, children) => forall i :: 0 <= i < |children| ==> NodeSingleLine(children[i])
       case DocNode(_, _, _, headers) => forall i :: 0 <= i < |headers| ==> '\n' !in headers[i].title
  }

  /** A line the outline can hold: a heading or bullet whose text has no '\n'. */
  predicate OneLine(l: Line)
  {
    !l.Unparsed? && '\n' !in Format(l)
  }

  lemma {:induction false} JoinAvoids(parts: seq<string>, sep: char, c: char)
    requires c != sep
    requires forall k :: 0 <= k < |parts| ==> c !in parts[k]
    ensures c !in Join(parts, sep)
  {
    if |parts| > 1 {
      JoinAvoids(parts[1..], sep, c);
    }
  }

  lemma {:induction false} NodeLinesOneLine(n: Node)
    requires NodeSingleLine(n)
    ensures forall i :: 0 <= i < |NodeLines(n)| ==> OneLine(NodeLines(n)[i])
    decreases n, 1
  {
    JoinAvoids(n.path, '/', '\n');
    var heading := Heading(n.depth, n.DirNode?, Label(n));
    assert OneLine(heading);
    match n
    case DirNode(_, _, _, children) =>
      PreorderOneLine(children);
    case DocNode(_, _, _, headers) =>
  }

  lemma {:induction false} PreorderOneLine(nodes: seq<Node>)
    requires SingleLine(nodes)
    ensures forall i :: 0 <= i < |Preorder(nodes)| ==> OneLine(Preorder(nodes)[i])
    decreases nodes, 0
  {
    if nodes != [] {
      NodeLinesOneLine(nodes[0]);
      PreorderOneLine(nodes[1..]);
      AllAppend(NodeLines(nodes[0]), Preorder(nodes[1..]), OneLine);
    }
  }

  lemma AllAppend<T>(a: seq<T>, b: seq<T>, p: T -> bool)
    requires forall i :: 0 <= i < |a| ==> p(a[i])
    requires forall i :: 0 <= i < |b| ==> p(b[i])
    ensures forall i :: 0 <= i < |a + b| ==> p((a + b)[i])
  {
    forall i | 0 <= i < |a + b|
      ensures p((a + b)[i])
    {
      if i >= |a| {
        assert (a + b)[i] == b[i - |a|];
      }
    }
  }

  /**
   * Reading the generated outline back line by line gives one heading per
   * node in pre-order, carrying its depth, kind and label, each followed by
   * its children or by one bullet per header.
   */
  lemma RoundTrip(nodes: seq<Node>)
    requires SingleLine(nodes)
    ensures ParseOutline(StructureToMarkdown(nodes)) == Preorder(nodes)
  {
    AddItemsLines(nodes);
    PreorderOneLine(nodes);
    ParseTerminated(Preorder(nodes));
  }

  /** Lines that each fit on one line read back from their '\n'-terminated text. */
  lemma ParseTerminated(lines: seq<Line>)
    requires forall i :: 0 <= i < |lines| ==> OneLine(lines[i])
    ensures ParseOutline(Terminated(FormatAll(lines))) == lines
  {
    var texts := FormatAll(lines);
    forall k | 0 <= k < |texts|
      ensures '\n' !in texts[k] && ParseLine(texts[k]) == lines[k]
    {
      assert OneLine(lines[k]);
      ParseFormat(lines[k]);
    }
    TerminatedPieces(texts);
    ParsePieces(Terminated(texts), texts, lines);
  }

  /** Text whose pieces are `texts` and a final empty one reads back as what `texts` parse to. */
  lemma ParsePieces(text: string, texts: seq<string>, lines: seq<Line>)
    requires Split(text, '\n') == texts + [""]
    requires |texts| == |lines|
    requires forall k :: 0 <= k < |texts| ==> ParseLine(texts[k]) == lines[k]
    ensures ParseOutline(text) == lines
  {
    var parsed := ParseOutline(text);
    assert |parsed| == |lines|;
    forall i | 0 <= i < |lines|
      ensures parsed[i] == lines[i]
    {
      assert Split(text, '\n')[i] == texts[i];
    }
  }

  /** Splitting '\n'-terminated text at '\n' gives its lines and a final empty piece. */
  lemma TerminatedPieces(texts: seq<string>)
    requires forall k :: 0 <= k < |texts| ==> '\n' !in texts[k]
    ensures Split(Terminated(texts), '\n') == texts + [""]
  {
    TerminatedIsJoin(texts);
    var parts := texts + [""];
    forall k | 0 <= k < |parts|
      ensures '\n' !in parts[k]
    {
      if k < |texts| {
        assert parts[k] == texts[k];
      }
    }
    SplitJoin(parts, '\n');
  }
}
