# Table-of-contents generator, modelled in Dafny

The program is a Node script (`frontend/langs/javascript/content-script.js`).
It walks a directory tree and writes a Markdown outline of it to `toc.md` in
the root. Every kept directory becomes a heading line, and so does every
Markdown document. The headings found in each document follow it as indented
bullets. This project models the script's pure logic over an in-memory
directory tree:

- `text.dfy` (module `Text`): the JavaScript string operations the script uses.
  - `\s` and `trim`, both with the ECMAScript WhiteSpace and LineTerminator sets written out.
  - ASCII `toLowerCase`, `startsWith`/`endsWith`, `repeat`.
  - `split` and `join` on one separator character.
- `headers.dfy` (module `Headers`): `extractHeadersFromMarkdown` without the file read.
  - The regular expression `^(#{1,6})\s+(.+)` is modelled as backtracking does it: `MatchSplit`/`MatchHeader`.
  - It is proved equivalent to an independent reading of the pattern, `Decomposes`.
  - The line loop is modelled as a function, `ExtractHeaders`, and as the source's loop, `ExtractHeadersLoop`.
- `tree.dfy` (module `Tree`): the input tree (`Entry`) and the scanned structure (`Node`).
- `order.dfy` (module `Order`): the comparator given to `Array.prototype.sort`, and the sort itself.
  - The sort is a stable insertion sort, since ECMAScript requires `sort` to be stable.
  - `localeCompare` is a parameter `key: string -> real`, a collation key. `a` sorts before `b` exactly when `key(a) < key(b)`.
- `scanner.dfy` (module `Scanner`): `isMarkdownFile`, the entry filter, and `scanDirectory` as the function `Scan`.
  - A node's depth is the depth passed down, and its path is the list of names from the root.
- `coverage.dfy` (module `Coverage`): which directories and documents a scan contains, stated independently of order.
- `outline.dfy` (module `Outline`): `structureToMarkdown`/`addItem`.
  - `Preorder` is a reference reading of the outline: one line per node and one per header.
  - A parser (`ParseOutline`) reads the generated text back.
- `toc.dfy` (module `Toc`): the pipeline of `main` without its I/O: scan at depth 0, then render.
- `example.dfy` (module `Example`): a worked example.
  - The root holds `guide.md` (headings `# Intro` and `## Setup`) and a directory `notes` holding an empty `a.md`.
  - The example is carried through sorting, scanning and rendering to the exact text of `toc.md`.
- `option.dfy` (module `Optional`): `Option`. A file that cannot be read has content `None`.

Behaviour of the code worth knowing, all of it modelled as written:

- **`img` prefix.** Directories are dropped when their name starts with `"."` or `"img"`. The test is a plain prefix test, so a directory named `images` is kept (`Scanner.VisibleDirExamples`).
- **Hidden files.** The hidden-name test applies only to directories. A document named `.draft.md` is kept (`Scanner.QualifyingFileExamples`).
- **The output file name.** `toc.md` is excluded at every depth, not only in the root. The comparison is case-sensitive, so `TOC.md` is kept.
- **Bullet indentation.** A header bullet is indented by `2 * level` spaces. A level-1 header gets `"  - "`, not `"- "` (`Example.GuideBullets`).
- **Empty titles.** The pattern accepts 1 to 6 markers followed only by two or more blanks. It then yields a header with an empty title, because `.+` takes back the last blank (`Headers.BlankHeading`).
- **Sibling order.** Siblings are ordered by `localeCompare`, not lexicographically; the model takes the collation as a parameter.

## Model

| member | source | states |
|---|---|---|
| Text.Trim | frontend/langs/javascript/content-script.js:28 | `trim` gives the slice of the input after its leading whitespace; the result neither starts nor ends with whitespace, and everything cut off on either side is whitespace |
| Text.TrimIdempotent | frontend/langs/javascript/content-script.js:28 | trimming twice equals trimming once, and text trims to empty exactly when all of it is whitespace |
| Text.Repeat | frontend/langs/javascript/content-script.js:104 | `c.repeat(n)` is `n` copies of `c`, exactly `n` long; it gives the `depth + 1` markers of a heading and, at line 122, the `2 * level` spaces before a bullet |
| Text.ToLower | frontend/langs/javascript/content-script.js:11 | `toLowerCase` keeps the length, leaves no ASCII capital in the result, and changes a character only when it is an ASCII capital, which it shifts to the matching small letter |
| Text.Split | frontend/langs/javascript/content-script.js:21 | `split('\n')` yields at least one piece, no piece contains the separator, and joining the pieces with the separator gives back the input |
| Text.SplitJoin | frontend/langs/javascript/content-script.js:21 | for a non-empty list of parts none of which contains the separator, splitting the joined text gives the parts back |
| Text.SplitAround | frontend/langs/javascript/content-script.js:21 | the pieces of `a + "\n" + b` are the pieces of `a` followed by the pieces of `b` |
| Headers.MatchSplit | frontend/langs/javascript/content-script.js:25 | a successful match takes 1 to 6 markers and at least one whitespace character, and leaves at least one character for `.+` |
| Headers.MatchSplitSound | frontend/langs/javascript/content-script.js:25 | every split the matcher reports fits the pattern: the markers are `#`, the run after them is whitespace, and a non-terminator follows |
| Headers.MatchSplitGreatest | frontend/langs/javascript/content-script.js:25 | every split that fits the pattern is found; the marker count is forced, and the whitespace run chosen is the longest that still leaves a body, as backtracking tries it |
| Headers.Body | frontend/langs/javascript/content-script.js:25 | group 2 is the longest run of non-line-terminator characters from its start |
| Headers.MatchHeader | frontend/langs/javascript/content-script.js:25-29 | a header exists exactly when the pattern matches; its level lies in 1..6, and its title contains no line terminator |
| Headers.MatchHeaderIff | frontend/langs/javascript/content-script.js:25-26 | a line yields a header if and only if some split of it fits the pattern `^(#{1,6})\s+(.+)` |
| Headers.MatchHeaderOfSplit | frontend/langs/javascript/content-script.js:25-29 | once the pattern has matched, the level is the number of markers (group 1) and the title is group 2 trimmed |
| Headers.MatchHeaderShape | frontend/langs/javascript/content-script.js:25-27 | the level is the length of the line's leading run of `#`, and whitespace directly follows that run |
| Headers.SevenMarkersNoHeader | frontend/langs/javascript/content-script.js:25 | a line starting with seven `#` gives no header |
| Headers.MarkerCountNoHeader | frontend/langs/javascript/content-script.js:25 | a line whose leading `#` run is empty or longer than six gives no header |
| Headers.NoSpaceNoHeader | frontend/langs/javascript/content-script.js:25 | markers not followed by whitespace give no header |
| Headers.MatchHeaderCanonical | frontend/langs/javascript/content-script.js:25-29 | `n` markers with `1 <= n <= 6`, one space and a title without surrounding blanks or terminators give the header `(n, title)` |
| Headers.BlankHeading | frontend/langs/javascript/content-script.js:25-28 | 1 to 6 markers followed only by two or more blanks (each a whitespace character that is not a line terminator) give a header with an empty title |
| Headers.TerminatedHeading | frontend/langs/javascript/content-script.js:25 | markers followed by one blank and then only line terminators (such as `"# \r"`) give no header, because `.` matches no terminator |
| Headers.ExampleNoSpace | frontend/langs/javascript/content-script.js:25 | `"#Title"` gives no header |
| Headers.CollectAppend | frontend/langs/javascript/content-script.js:23-31 | the headers of two runs of lines are the headers of the first run followed by those of the second |
| Headers.CollectKeeps | frontend/langs/javascript/content-script.js:23-31 | for any property of headers that every header the matcher gives has, every collected header has it |
| Headers.MatchHeaderWellFormed | frontend/langs/javascript/content-script.js:25-29 | every header a line gives has a level in 1..6 and a title without `'\n'` |
| Headers.ExtractHeaders | frontend/langs/javascript/content-script.js:17-38 | an unreadable file gives no headers; every header has a level in 1..6 and a title without `'\n'` |
| Headers.ExtractHeadersOneLine | frontend/langs/javascript/content-script.js:21-31 | a text without `'\n'` gives the header of its single line, or none |
| Headers.ExtractHeadersLines | frontend/langs/javascript/content-script.js:21-31 | lines contribute independently and in file order: the headers of `a + "\n" + b` are those of `a` followed by those of `b` |
| Headers.ExtractHeadersLoop | frontend/langs/javascript/content-script.js:20-33 | the source's loop, pushing each match, computes exactly the extracted headers |
| Order.Insert | frontend/langs/javascript/content-script.js:50-59 | inserting adds exactly the inserted entry to the multiset of entries |
| Order.Compare | frontend/langs/javascript/content-script.js:50-59 | the comparator is negative exactly when `a` is a directory and `b` is not, or both are of the same kind and `a`'s key is smaller; it is zero exactly when both are of the same kind with equal keys |
| Order.CompareConsistent | frontend/langs/javascript/content-script.js:56-58 | the comparator is consistent, as a well-defined `sort` needs: every entry compares equal to itself, swapping the arguments flips the sign, and the order is transitive |
| Order.InsertSorted | frontend/langs/javascript/content-script.js:50-59 | inserting into a sequence ordered by the comparator keeps it ordered |
| Order.Sort | frontend/langs/javascript/content-script.js:50-59 | the sort is a permutation of the listing, ordered by the comparator: directories come first, and keys never decrease within each kind |
| Order.SortedGroups | frontend/langs/javascript/content-script.js:56-58 | in a sequence ordered by the comparator, no directory follows a non-directory, and keys never decrease within each kind |
| Order.SortMembers | frontend/langs/javascript/content-script.js:50 | the sorted listing holds exactly the entries of the listing |
| Order.InsertTies | frontend/langs/javascript/content-script.js:50-59 | insertion places the inserted entry ahead of all entries it ties with and keeps their order |
| Order.SortStable | frontend/langs/javascript/content-script.js:50-59 | the sort is stable: entries that compare equal keep their original relative order |
| Scanner.IsMarkdownFile | frontend/langs/javascript/content-script.js:10-12 | a name counts as Markdown exactly when it ends in `.` followed by `m`/`M` and `d`/`D`, so `A.MD` qualifies |
| Scanner.VisibleDir | frontend/langs/javascript/content-script.js:66 | a directory is descended into exactly when its name neither starts with `.` nor starts with the three letters `img` |
| Scanner.QualifyingFile | frontend/langs/javascript/content-script.js:75 | a regular file becomes a document exactly when its name ends in `.` then `m`/`M` then `d`/`D`, and is not exactly `toc.md` |
| Scanner.Kept | frontend/langs/javascript/content-script.js:66-75 | the directory test applies to every directory, listable or not; the document test applies to regular files only; nothing else is kept |
| Scanner.VisibleDirExamples | frontend/langs/javascript/content-script.js:66 | `.git`, `img` and `imgs` are skipped; `images` and `notes` are descended into |
| Scanner.QualifyingFileExamples | frontend/langs/javascript/content-script.js:75 | `toc.md` and `notes.txt` are skipped; `TOC.md`, `A.MD` and `.draft.md` are documents |
| Scanner.KeptOf | frontend/langs/javascript/content-script.js:61-88 | every entry of the listing that passes the filter is kept, every kept entry comes from the listing and passes the filter, and there are no more of them than entries |
| Scanner.KeptOfAppend | frontend/langs/javascript/content-script.js:61-88 | filtering distributes over concatenation, so the kept entries stay in listing order |
| Scanner.KeptOfSorted | frontend/langs/javascript/content-script.js:61-88 | filtering a sorted listing keeps it sorted |
| Scanner.DescribesAllIndex | frontend/langs/javascript/content-script.js:68-85 | nodes built one-to-one from entries match them position by position: same name, same kind, and a document's extracted headers |
| Scanner.Scan | frontend/langs/javascript/content-script.js:43-94 | the scan yields one node per kept entry of the sorted listing, in that order; each node has the entry's name and kind, and a document node has the file's headers |
| Scanner.ScanSorted | frontend/langs/javascript/content-script.js:61-88 | the loop over the sorted entries builds one node per kept entry, in order |
| Scanner.ScanKept | frontend/langs/javascript/content-script.js:66-86 | a kept directory becomes a directory node, and a kept file becomes a document node with its headers |
| Scanner.DescribedOrder | frontend/langs/javascript/content-script.js:50-59 | nodes built one-to-one from a sorted listing are ordered: directories first, and keys never decrease within each kind |
| Scanner.ScanShaped | frontend/langs/javascript/content-script.js:68-84 | every node sits at the depth passed to its scan, with the path of its parent plus its own name; a directory's children sit one level deeper |
| Scanner.ScanOrdered | frontend/langs/javascript/content-script.js:50-73 | at every level of the scanned structure, directory nodes precede document nodes, and keys never decrease within each kind |
| Coverage.SortExpected | frontend/langs/javascript/content-script.js:50-59 | sorting a listing does not change which directories and documents it should produce |
| Coverage.ScanRecords | frontend/langs/javascript/content-script.js:61-88 | the scan contains exactly the directories reachable through kept directories and the qualifying documents, each as often as it occurs, at its nesting depth and with its headers; nothing under a skipped directory appears |
| Outline.StructureToMarkdown | frontend/langs/javascript/content-script.js:98-135 | the outline is empty exactly when the structure is empty, and otherwise ends with `'\n'` |
| Outline.AddItem | frontend/langs/javascript/content-script.js:102-128 | one item is non-empty, starts with a `#` marker and ends with `'\n'` |
| Outline.AddItems | frontend/langs/javascript/content-script.js:130-132 | the items of a node list are empty exactly when the list is empty, and otherwise end with `'\n'` |
| Outline.AddHeaders | frontend/langs/javascript/content-script.js:119-126 | a document's bullets are empty exactly when it has no headers, and otherwise end with `'\n'` |
| Outline.RelativePath | frontend/langs/javascript/content-script.js:82 | a document's link is its names below the root joined with `/`; splitting it at `/` gives those names back when none contains `/` |
| Outline.StructureToMarkdownLoop | frontend/langs/javascript/content-script.js:130-132 | the top-level loop appending each item computes the outline |
| Outline.HeaderLines | frontend/langs/javascript/content-script.js:119-126 | a document has exactly one bullet line per header, in order, carrying that header's level and title |
| Outline.AddHeadersLines | frontend/langs/javascript/content-script.js:119-126 | the header bullets are the reference bullet lines, each indented `2 * level` spaces and ended by `'\n'` |
| Outline.AddItemLines | frontend/langs/javascript/content-script.js:102-128 | one item is the node's reference lines in pre-order, each ended by `'\n'` |
| Outline.AddItemsLines | frontend/langs/javascript/content-script.js:102-132 | the whole outline is the pre-order reference lines, each ended by `'\n'` |
| Outline.ParseFormat | frontend/langs/javascript/content-script.js:104-124 | every heading and bullet line reads back as itself |
| Outline.RoundTrip | frontend/langs/javascript/content-script.js:98-135 | if no name or title contains `'\n'`, reading the outline back line by line gives exactly the pre-order lines, so nothing is lost, duplicated or reordered |
| Outline.ParseTerminated | frontend/langs/javascript/content-script.js:98-135 | heading and bullet lines whose text has no `'\n'` read back from their `'\n'`-terminated text unchanged |
| Toc.GenerateToc | frontend/langs/javascript/content-script.js:168-171 | the generated file is empty exactly when no entry of the root is kept, and otherwise ends with `'\n'` |
| Toc.ScanSingleLine | frontend/langs/javascript/content-script.js:43-94 | if no entry name contains `'\n'`, no name, path component or header title in the scan does |
| Toc.TocReadsBack | frontend/langs/javascript/content-script.js:168-171 | when no entry name anywhere in the tree contains `'\n'`, reading the generated `toc.md` back gives the pre-order lines of the scanned tree |
| Example.GuideHeaders | frontend/langs/javascript/content-script.js:17-38 | `"# Intro\n## Setup"` gives the headers `(1, Intro)` and `(2, Setup)` |
| Example.EmptyDocumentHeaders | frontend/langs/javascript/content-script.js:17-38 | an empty document gives no headers |
| Example.ExampleSort | frontend/langs/javascript/content-script.js:50-59 | the directory `notes` sorts before `guide.md` whatever the collation |
| Example.ExampleScan | frontend/langs/javascript/content-script.js:43-94 | the example root scans to `notes` (depth 0) holding `a.md` (depth 1, no headers), followed by `guide.md` (depth 0, two headers) |
| Example.GuideBullets | frontend/langs/javascript/content-script.js:119-126 | the two headers render as `"  - Intro\n"` and `"    - Setup\n"` |
| Example.ExampleToc | frontend/langs/javascript/content-script.js:98-135 | the example's `toc.md` is exactly five lines: `notes`, `a.md` inside it, `guide.md`, and the bullets `Intro` and `Setup` |

## Left out

- File-system I/O is not modelled: `readdirSync`, `statSync`, `readFileSync`, `existsSync` and `writeFileSync`. The tree, each file's content and each entry's kind are inputs. An unreadable file has content `None`, and a directory that cannot be listed is `UnlistableDir`.
- An entry that cannot be stat'ed, such as a dangling symbolic link, is not modelled; no `Entry` case stands for it (`Other` is an entry that is neither a directory nor a regular file). In the source such an entry empties the listing of its directory. With two or more entries, the comparator stats every entry during the sort, which throws before anything is pushed. With one entry, the stat at line 63 throws before the push. The catch at lines 89-91 then returns `[]`, so the directory appears with no children (or, for the root, the outline is empty). Only a stat that starts failing after the sort, a race, leaves a partial listing.
- `path.join`, `path.relative` and `path.resolve` are host path semantics. A node's path is the list of names below the scan root, and a document's link is those names joined with `/`.
- `localeCompare` depends on the host's collation tables. It is the parameter `key`, a collation key, and any total preorder on names can be expressed this way.
- `main` is not modelled: argument checks, `process.exit`, and its progress and error output. Only its pipeline (scan at depth 0, then render) is modelled, by `Toc.GenerateToc`.
- Console output elsewhere is dropped too: the relative path `scanDirectory` prints for each document (line 76), its error message when a listing fails (line 90), and the error message of `extractHeadersFromMarkdown` for an unreadable file (line 35).
- A directory node's `path` in the source is the joined `itemPath` (line 71), not a path relative to the root. The model gives directory nodes the same name-list path as documents. Nothing reads a directory's path, because the line that would link it (line 108) is commented out.
- Text.ToLower: `toLowerCase` is modelled on ASCII letters only. `Scanner.IsMarkdownFile`'s contract still describes the full mapping, because no other character lower-cases to `.`, `m` or `d`.
- The whitespace set is the ECMAScript WhiteSpace and LineTerminator sets written out. Category Zs is taken as of current Unicode and is not tied to a Unicode version.
- The folder and page glyphs are single characters (U+1F4C1 and U+1F4C4). The model does not relate them to their UTF-8 or UTF-16 encodings.
- Outline.RoundTrip: assumes no entry name or header title contains `'\n'`. A name with a newline would split one outline line into two.
- Toc.TocReadsBack: assumes no entry name in the tree contains `'\n'`. File names may contain `'\n'`, and the generated `toc.md` then does not read back line by line.
