/**
 * A worked example: a root holding "guide.md" (two headings) and a
 * directory "notes" with an empty "a.md". Each fact is its own small lemma
 * so that no proof has to evaluate the whole pipeline on literal text.
 */
module Example {
  import opened Optional
  import opened Text
  import opened Headers
  import opened Tree
  import opened Order
  import opened Scanner
  import opened Outline
  import opened Toc

  /** An ATX heading line with one separating space. */
  function HeadingLine(n: nat, title: string): string
  {
    Repeat('#', n) + " " + title
  }

  /** The text of "guide.md": "# Intro", a newline, "## Setup". */
  function GuideText(): string
  {
    HeadingLine(1, "Intro") + "\n" + HeadingLine(2, "Setup")
  }

  function GuideFile(): Entry { File("guide.md", Some(GuideText())) }
  function NoteFile(): Entry { File("a.md", Some("")) }
  function NotesDir(): Entry { Dir("notes", [NoteFile()]) }
  function ExampleRoot(): seq<Entry> { [GuideFile(), NotesDir()] }

  lemma GuideTextIs()
    ensures GuideText() == "# Intro\n## Setup"
  {
  }

  lemma HeadingLineNoNewline(n: nat, title: string)
    requires forall k :: 0 <= k < |title| ==> IsBodyChar(title[k])
    ensures '\n' !in HeadingLine(n, title)
  {
    var line := HeadingLine(n, title);
    forall k | 0 <= k < |line| ensures line[k] != '\n' {
      if k > n { assert line[k] == title[k - n - 1]; }
    }
  }

  /** A canonical heading line on its own is a document with exactly that header. */
  lemma HeadingLineHeaders(n: nat, title: string)
    requires 1 <= n <= 6
    requires title != [] && !IsWs(title[0]) && !IsWs(title[|title| - 1])
    requires forall k :: 0 <= k < |title| ==> IsBodyChar(title[k])
    ensures ExtractHeaders(Some(HeadingLine(n, title))) == [Header(n, title)]
  {
    HeadingLineNoNewline(n, title);
    MatchHeaderCanonical(n, title);
    ExtractHeadersOneLine(HeadingLine(n, title));
  }

  /** Two documents of one header each, joined by a newline, give both headers in order. */
  lemma TwoHeaderLines(a: string, b: string, h1: Header, h2: Header)
    requires ExtractHeaders(Some(a)) == [h1] && ExtractHeaders(Some(b)) == [h2]
    ensures ExtractHeaders(Some(a + "\n" + b)) == [h1, h2]
  {
    ExtractHeadersLines(a, b);
  }

  lemma IntroLine()
    ensures ExtractHeaders(Some(HeadingLine(1, "Intro"))) == [Header(1, "Intro")]
  {
    HeadingLineHeaders(1, "Intro");
  }

  lemma SetupLine()
    ensures ExtractHeaders(Some(HeadingLine(2, "Setup"))) == [Header(2, "Setup")]
  {
    HeadingLineHeaders(2, "Setup");
  }

  lemma GuideHeaders()
    ensures ExtractHeaders(Some(GuideText())) == [Header(1, "Intro"), Header(2, "Setup")]
  {
    IntroLine();
    SetupLine();
    TwoHeaderLines(HeadingLine(1, "Intro"), HeadingLine(2, "Setup"), Header(1, "Intro"), Header(2, "Setup"));
  }

  lemma EmptyDocumentHeaders()
    ensures ExtractHeaders(Some("")) == []
  {
    ExtractHeadersOneLine("");
  }

  /** All three entries pass the filter. */
  lemma GuideKept()
    ensures Kept(GuideFile())
  {
  }

  lemma NoteKept()
    ensures Kept(NoteFile())
  {
  }

  lemma NotesKept()
    ensures Kept(NotesDir())
  {
    assert "notes"[0] != "img"[0] && "notes"[0] != "."[0];
  }

  /** The directory sorts first whatever the collation says. */
  lemma ExampleSort(key: string -> real)
    ensures Sort(key, ExampleRoot()) == [NotesDir(), GuideFile()]
  {
    var root := ExampleRoot();
    assert root[1..] == [root[1]];
    assert Sort(key, [root[1]]) == [root[1]];
  }

  lemma ScanUnfold(key: string -> real, es: seq<Entry>, dir: seq<string>, depth: nat)
    ensures AllIn(Sort(key, es), es)
    ensures Scan(key, es, dir, depth) == ScanSorted(key, es, Sort(key, es), dir, depth)
  {
    SortAllIn(key, es);
  }

  lemma ScanSortedKept(key: string -> real, es: seq<Entry>, sorted: seq<Entry>, dir: seq<string>, depth: nat)
    requires sorted != [] && Kept(sorted[0])
    requires AllIn(sorted, es)
    ensures AllIn(sorted[1..], es)
    ensures ScanSorted(key, es, sorted, dir, depth)
         == [ScanKept(key, es, sorted[0], dir, depth)] + ScanSorted(key, es, sorted[1..], dir, depth)
  {
    AllInTail(sorted, es);
  }

  lemma ScanSortedLast(key: string -> real, es: seq<Entry>, e: Entry, dir: seq<string>, depth: nat)
    requires e in es && Kept(e)
    ensures ScanSorted(key, es, [e], dir, depth) == [ScanKept(key, es, e, dir, depth)]
  {
    ScanSortedKept(key, es, [e], dir, depth);
    assert [e][1..] == [];
  }

  /** Scanning a listing that sorts to one kept entry. */
  lemma ScanOne(key: string -> real, es: seq<Entry>, e: Entry, dir: seq<string>, depth: nat)
    requires Sort(key, es) == [e] && Kept(e)
    ensures e in es
    ensures Scan(key, es, dir, depth) == [ScanKept(key, es, e, dir, depth)]
  {
    ScanUnfold(key, es, dir, depth);
    ScanSortedLast(key, es, e, dir, depth);
  }

  lemma ScanSortedTwo(key: string -> real, es: seq<Entry>, d: Entry, f: Entry, dir: seq<string>, depth: nat)
    requires d in es && f in es && Kept(d) && Kept(f)
    ensures ScanSorted(key, es, [d, f], dir, depth) == [ScanKept(key, es, d, dir, depth), ScanKept(key, es, f, dir, depth)]
  {
    ScanSortedKept(key, es, [d, f], dir, depth);
    assert [d, f][1..] == [f];
    ScanSortedLast(key, es, f, dir, depth);
  }

  /** Scanning a listing that sorts to two kept entries. */
  lemma ScanTwo(key: string -> real, es: seq<Entry>, d: Entry, f: Entry, dir: seq<string>, depth: nat)
    requires Sort(key, es) == [d, f] && Kept(d) && Kept(f)
    ensures d in es && f in es
    ensures Scan(key, es, dir, depth) == [ScanKept(key, es, d, dir, depth), ScanKept(key, es, f, dir, depth)]
  {
    ScanUnfold(key, es, dir, depth);
    assert d in Sort(key, es) && f in Sort(key, es);
    ScanSortedTwo(key, es, d, f, dir, depth);
  }

  lemma SortSingle(key: string -> real, e: Entry)
    ensures Sort(key, [e]) == [e]
  {
    assert [e][1..] == [];
  }

  lemma NoteNode(key: string -> real)
    ensures Kept(NoteFile())
    ensures ScanKept(key, [NoteFile()], NoteFile(), ["notes"], 1)
         == DocNode("a.md", ["notes", "a.md"], 1, ExtractHeaders(Some("")))
  {
    NoteKept();
    assert ["notes"] + ["a.md"] == ["notes", "a.md"];
  }

  lemma ExampleNotes(key: string -> real)
    ensures Scan(key, [NoteFile()], ["notes"], 1) == [DocNode("a.md", ["notes", "a.md"], 1, [])]
  {
    SortSingle(key, NoteFile());
    NoteNode(key);
    ScanOne(key, [NoteFile()], NoteFile(), ["notes"], 1);
    EmptyDocumentHeaders();
  }

  lemma ExampleTop(key: string -> real)
    ensures Kept(NotesDir()) && Kept(GuideFile())
    ensures ScanKept(key, ExampleRoot(), NotesDir(), [], 0)
         == DirNode("notes", ["notes"], 0, Scan(key, [NoteFile()], ["notes"], 1))
    ensures ScanKept(key, ExampleRoot(), GuideFile(), [], 0)
         == DocNode("guide.md", ["guide.md"], 0, ExtractHeaders(Some(GuideText())))
  {
    NotesKept();
    GuideKept();
    assert [] + ["notes"] == ["notes"];
    assert [] + ["guide.md"] == ["guide.md"];
  }

  /**
   * The structure of the example: "notes" first with its document one
   * level deeper, then "guide.md" with its two headers.
   */
  lemma ExampleScan(key: string -> real)
    ensures Scan(key, ExampleRoot(), [], 0)
         == [DirNode("notes", ["notes"], 0, [DocNode("a.md", ["notes", "a.md"], 1, [])]),
             DocNode("guide.md", ["guide.md"], 0, [Header(1, "Intro"), Header(2, "Setup")])]
  {
    ExampleSort(key);
    NotesKept();
    GuideKept();
    ScanTwo(key, ExampleRoot(), NotesDir(), GuideFile(), [], 0);
    ExampleTop(key);
    ExampleNotes(key);
    GuideHeaders();
  }

  lemma AddHeadersTwo(h1: Header, h2: Header)
    ensures AddHeaders([h1, h2]) == AddHeaders([h1]) + AddHeaders([h2])
  {
    assert [h1, h2][1..] == [h2] && [h1][1..] == [];
    assert AddHeaders([h1]) == Repeat(' ', 2 * h1.level) + "- " + h1.title + "\n" + [];
  }

  lemma IntroBullet()
    ensures AddHeaders([Header(1, "Intro")]) == "  - Intro\n"
  {
    assert [Header(1, "Intro")][1..] == [];
    assert Repeat(' ', 2) == "  ";
  }

  lemma SetupBullet()
    ensures AddHeaders([Header(2, "Setup")]) == "    - Setup\n"
  {
    assert [Header(2, "Setup")][1..] == [];
    assert Repeat(' ', 4) == "    ";
  }

  /** Bullets are indented two spaces per header level. */
  lemma GuideBullets()
    ensures AddHeaders([Header(1, "Intro"), Header(2, "Setup")]) == "  - Intro\n" + "    - Setup\n"
  {
    AddHeadersTwo(Header(1, "Intro"), Header(2, "Setup"));
    IntroBullet();
    SetupBullet();
  }

  lemma GuideLine()
    ensures "#" + " " + [DocGlyph] + " [" + "guide.md" + "](" + "guide.md" + ")\n"
         == "# \U{1F4C4} [guide.md](guide.md)\n"
  {
  }

  lemma GuideItem()
    ensures AddItem(DocNode("guide.md", ["guide.md"], 0, [Header(1, "Intro"), Header(2, "Setup")]))
         == "# \U{1F4C4} [guide.md](guide.md)\n" + ("  - Intro\n" + "    - Setup\n")
  {
    GuideBullets();
    GuideLine();
    assert Repeat('#', 1) == "#";
    assert RelativePath(["guide.md"]) == "guide.md";
  }

  lemma NoteLine()
    ensures "##" + " " + [DocGlyph] + " [" + "a.md" + "](" + "notes/a.md" + ")\n"
         == "## \U{1F4C4} [a.md](notes/a.md)\n"
  {
  }

  lemma NoteItem()
    ensures AddItem(DocNode("a.md", ["notes", "a.md"], 1, [])) == "## \U{1F4C4} [a.md](notes/a.md)\n"
  {
    NoteLine();
    assert Repeat('#', 2) == "##";
    var path := ["notes", "a.md"];
    assert path[1..] == ["a.md"];
    assert RelativePath(path) == "notes/a.md";
  }

  lemma NotesLine()
    ensures "#" + " " + [DirGlyph] + " " + "notes" + "\n" == "# \U{1F4C1} notes\n"
  {
  }

  lemma NotesItem()
    ensures AddItem(DirNode("notes", ["notes"], 0, [DocNode("a.md", ["notes", "a.md"], 1, [])]))
         == "# \U{1F4C1} notes\n" + "## \U{1F4C4} [a.md](notes/a.md)\n"
  {
    var doc := DocNode("a.md", ["notes", "a.md"], 1, []);
    NoteItem();
    NotesLine();
    assert [doc][1..] == [];
    assert AddItems([doc]) == AddItem(doc);
    assert Repeat('#', 1) == "#";
  }

  lemma AddItemsTwo(x: Node, y: Node)
    ensures AddItems([x, y]) == AddItem(x) + AddItem(y)
  {
    assert [x, y][1..] == [y] && [y][1..] == [];
    assert AddItems([y]) == AddItem(y) + [];
    assert AddItem(y) + [] == AddItem(y);
  }

  lemma ExampleItems(key: string -> real)
    ensures GenerateToc(key, ExampleRoot())
         == AddItem(DirNode("notes", ["notes"], 0, [DocNode("a.md", ["notes", "a.md"], 1, [])]))
          + AddItem(DocNode("guide.md", ["guide.md"], 0, [Header(1, "Intro"), Header(2, "Setup")]))
  {
    ExampleScan(key);
    AddItemsTwo(DirNode("notes", ["notes"], 0, [DocNode("a.md", ["notes", "a.md"], 1, [])]),
                DocNode("guide.md", ["guide.md"], 0, [Header(1, "Intro"), Header(2, "Setup")]));
  }

  lemma Regroup(a: string, b: string, c: string, d: string, e: string)
    ensures (a + b) + (c + (d + e)) == a + b + c + d + e
  {
  }

  /**
   * The generated file for the example: the directory line, its document one
   * level deeper with no bullets, then "guide.md" with one bullet per
   * heading, indented two spaces per level.
   */
  lemma ExampleToc(key: string -> real)
    ensures GenerateToc(key, ExampleRoot())
         == "# \U{1F4C1} notes\n"
          + "## \U{1F4C4} [a.md](notes/a.md)\n"
          + "# \U{1F4C4} [guide.md](guide.md)\n"
          + "  - Intro\n"
          + "    - Setup\n"
  {
    ExampleItems(key);
    NotesItem();
    GuideItem();
    Regroup("# \U{1F4C1} notes\n", "## \U{1F4C4} [a.md](notes/a.md)\n", "# \U{1F4C4} [guide.md](guide.md)\n",
            "  - Intro\n", "    - Setup\n");
  }
}
