/**
 * Header extraction (`extractHeadersFromMarkdown`): the document is split on
 * '\n' and every line the regular expression `^(#{1,6})\s+(.+)` matches
 * gives one header whose level is the number of '#' markers and whose title
 * is the second group, trimmed.
 */
module Headers {
  import opened Optional
  import opened Text

  /** One heading of a document: its number of '#' markers and its trimmed text. */
  datatype Header = Header(level: nat, title: string)

  predicate IsHash(c: char)
  {
    c == '#'
  }

  predicate IsBodyChar(c: char)
  {
    !IsLineTerminator(c)
  }

  /**
   * Independent reading of the pattern: `^(#{1,6})\s+(.+)` can match `line`
   * taking `n` markers into the first group and `m` characters into `\s+`,
   * because at least one character `.` accepts follows them.
   */
  ghost predicate Decomposes(line: string, n: nat, m: nat)
  {
    && 1 <= n <= 6 && 1 <= m && n + m < |line|
    && (forall i :: 0 <= i < n ==> line[i] == '#')
    && (forall i :: n <= i < n + m ==> IsWs(line[i]))
    && IsBodyChar(line[n + m])
  }

  /**
   * Backtracking of the greedy `\s+`: the longest whitespace prefix of
   * length at most `m` after which a body character follows.
   */
  function BodyStart(line: string, n: nat, m: nat): (r: Option<nat>)
    requires n + m <= |line|
    ensures r.Some? ==> 1 <= r.value <= m && n + r.value < |line| && IsBodyChar(line[n + r.value])
    decreases m
  {
    if m == 0 then None
    else if n + m < |line| && IsBodyChar(line[n + m]) then Some(m)
    else BodyStart(line, n, m - 1)
  }

  /**
   * How the regular expression splits `line`: `Some((n, m))` when it
   * matches with `n` markers and `m` whitespace characters.
   */
  function MatchSplit(line: string): (r: Option<(nat, nat)>)
    ensures r.Some? ==> 1 <= r.value.0 <= 6 && 1 <= r.value.1 && r.value.0 + r.value.1 < |line|
  {
    var n := LeadingCount(line, IsHash);
    if n < 1 || 6 < n then None
    else
      var w := Skip(line, IsWs, n) - n;
      match BodyStart(line, n, w)
      case None => None
      case Some(m) => Some((n, m))
  }

  /** Every split the matcher reports is one the pattern allows. */
  lemma MatchSplitSound(line: string)
    requires MatchSplit(line).Some?
    ensures Decomposes(line, MatchSplit(line).value.0, MatchSplit(line).value.1)
  {
  }

  lemma {:induction false} BodyStartGreatest(line: string, n: nat, m: nat, m': nat)
    requires n + m <= |line| && 1 <= m' <= m
    requires n + m' < |line| && IsBodyChar(line[n + m'])
    ensures BodyStart(line, n, m).Some? && m' <= BodyStart(line, n, m).value
    decreases m
  {
    if n + m < |line| && IsBodyChar(line[n + m]) {
    } else {
      assert m' < m;
      BodyStartGreatest(line, n, m - 1, m');
    }
  }

  /**
   * Every way the pattern can match is found, and the split chosen is the
   * one backtracking tries first: the number of markers is forced, and the
   * whitespace run taken is the longest that still leaves a body.
   */
  lemma MatchSplitGreatest(line: string, n: nat, m: nat)
    requires Decomposes(line, n, m)
    ensures MatchSplit(line).Some?
    ensures MatchSplit(line).value.0 == n && m <= MatchSplit(line).value.1
  {
    LeadingCountUnique(line, IsHash, n);
    SkipReaches(line, IsWs, n, n + m);
    BodyStartGreatest(line, n, Skip(line, IsWs, n) - n, m);
  }

  /** Group 2 of the pattern: the greedy `.+` run starting at `from`. */
  function Body(line: string, from: nat): (b: string)
    requires from <= |line|
    ensures |b| <= |line| - from && b == line[from..from + |b|]
    ensures forall i :: 0 <= i < |b| ==> IsBodyChar(b[i])
    ensures from + |b| == |line| || !IsBodyChar(line[from + |b|])
  {
    line[from..Skip(line, IsBodyChar, from)]
  }

  /** `line.match(/^(#{1,6})\s+(.+)/)` turned into a header. */
  function MatchHeader(line: string): (r: Option<Header>)
    ensures r.Some? ==> 1 <= r.value.level <= 6
    ensures r.Some? <==> MatchSplit(line).Some?
    ensures r.Some? ==> forall k :: 0 <= k < |r.value.title| ==> IsBodyChar(r.value.title[k])
  {
    match MatchSplit(line)
    case None => None
    case Some((n, m)) =>
      var body := Body(line, n + m);
      var title := Trim(body);
      assert forall k :: 0 <= k < |title| ==> title[k] == body[LeadingWs(body) + k];
      Some(Header(n, title))
  }

  /** A line gives a header exactly when some split of it fits the pattern. */
  lemma MatchHeaderIff(line: string)
    ensures MatchHeader(line).Some? <==> exists n: nat, m: nat :: Decomposes(line, n, m)
  {
    if exists n: nat, m: nat :: Decomposes(line, n, m) {
      var n: nat, m: nat :| Decomposes(line, n, m);
      MatchSplitGreatest(line, n, m);
    }
    if MatchSplit(line).Some? {
      MatchSplitSound(line);
    }
  }

  /**
   * The header of a matching line: its level is the length of the leading
   * run of '#', and '#' markers are followed by whitespace and then a body.
   */
  lemma MatchHeaderShape(line: string)
    requires MatchHeader(line).Some?
    ensures var h := MatchHeader(line).value;
      && h.level == LeadingCount(line, IsHash)
      && h.level + 1 < |line| && IsWs(line[h.level])
  {
    MatchSplitSound(line);
  }

  /** A run of seven or more '#' never gives a header. */
  lemma SevenMarkersNoHeader(line: string)
    requires StartsWith(line, "#######")
    ensures MatchHeader(line) == None
  {
    assert forall i :: 0 <= i < 7 ==> line[i] == "#######"[i];
    SkipReaches(line, IsHash, 0, 7);
    MarkerCountNoHeader(line);
  }

  /** Fewer than one or more than six leading '#' give no header. */
  lemma MarkerCountNoHeader(line: string)
    requires LeadingCount(line, IsHash) < 1 || 6 < LeadingCount(line, IsHash)
    ensures MatchHeader(line) == None
  {
  }

  /** A marker run not followed by whitespace gives no header. */
  lemma NoSpaceNoHeader(line: string)
    requires LeadingCount(line, IsHash) == |line| || !IsWs(line[LeadingCount(line, IsHash)])
    ensures MatchHeader(line) == None
  {
  }

  /**
   * A heading written the canonical way, `n` markers, one space and a title
   * with no surrounding whitespace and no line terminator, reads back as
   * that header.
   */
  lemma MatchHeaderCanonical(n: nat, title: string)
    requires 1 <= n <= 6
    requires title != [] && !IsWs(title[0]) && !IsWs(title[|title| - 1])
    requires forall k :: 0 <= k < |title| ==> IsBodyChar(title[k])
    ensures MatchHeader(Repeat('#', n) + " " + title) == Some(Header(n, title))
  {
    CanonicalSplit(n, title);
    CanonicalTitle(n, title);
  }

  lemma CanonicalSplit(n: nat, title: string)
    requires 1 <= n <= 6 && title != [] && !IsWs(title[0])
    ensures MatchSplit(Repeat('#', n) + " " + title) == Some((n, 1))
  {
    var line := Repeat('#', n) + " " + title;
    LeadingCountUnique(line, IsHash, n);
    assert line[n] == ' ' && line[n + 1] == title[0];
    SkipUnique(line, IsWs, n, n + 1);
  }

  lemma CanonicalTitle(n: nat, title: string)
    requires title != [] && !IsWs(title[0]) && !IsWs(title[|title| - 1])
    requires forall k :: 0 <= k < |title| ==> IsBodyChar(title[k])
    ensures Trim(Body(Repeat('#', n) + " " + title, n + 1)) == title
  {
    var line := Repeat('#', n) + " " + title;
    assert line[n + 1..] == title;
    BodyToEnd(line, n + 1);
    TrimUnchanged(title);
  }

  /** When only body characters follow `from`, group 2 takes the rest of the line. */
  lemma BodyToEnd(line: string, from: nat)
    requires from <= |line|
    requires forall k :: from <= k < |line| ==> IsBodyChar(line[k])
    ensures Body(line, from) == line[from..]
  {
    SkipUnique(line, IsBodyChar, from, |line|);
  }

  /**
   * Markers followed by nothing but two or more blanks still match: `\s+`
   * gives the last blank back to `.+`, and trimming leaves an empty title.
   */
  lemma BlankHeading(line: string, n: nat)
    requires 1 <= n <= 6 && n + 2 <= |line|
    requires forall i :: 0 <= i < n ==> line[i] == '#'
    requires forall i :: n <= i < |line| ==> IsWs(line[i]) && IsBodyChar(line[i])
    ensures MatchHeader(line) == Some(Header(n, ""))
  {
    assert Decomposes(line, n, |line| - n - 1);
    MatchSplitGreatest(line, n, |line| - n - 1);
    LastBlankHeader(line);
  }

  /** When the split leaves only one character, a blank, the title is empty. */
  lemma LastBlankHeader(line: string)
    requires MatchSplit(line).Some?
    requires MatchSplit(line).value.0 + MatchSplit(line).value.1 + 1 == |line|
    requires IsWs(line[|line| - 1]) && IsBodyChar(line[|line| - 1])
    ensures MatchHeader(line) == Some(Header(MatchSplit(line).value.0, ""))
  {
    MatchHeaderOfSplit(line);
    var from := MatchSplit(line).value.0 + MatchSplit(line).value.1;
    BodyOfLast(line, from);
    TrimBlank(line[from]);
  }

  /** Group 2 starting at the last character, a body character, is that character. */
  lemma BodyOfLast(line: string, from: nat)
    requires from + 1 == |line| && IsBodyChar(line[from])
    ensures Body(line, from) == [line[from]]
  {
    SkipUnique(line, IsBodyChar, from, |line|);
  }

  /** Once the split is known, the header is the trimmed body after it. */
  lemma MatchHeaderOfSplit(line: string)
    requires MatchSplit(line).Some?
    ensures MatchSplit(line).value.0 + MatchSplit(line).value.1 <= |line|
    ensures MatchHeader(line)
         == Some(Header(MatchSplit(line).value.0, Trim(Body(line, MatchSplit(line).value.0 + MatchSplit(line).value.1))))
  {
  }

  lemma TrimBlank(c: char)
    requires IsWs(c)
    ensures Trim([c]) == []
  {
  }

  /**
   * Markers followed by whitespace in which every character after the first
   * ends a line give no header: `.` has nothing to match.
   */
  lemma TerminatedHeading(n: nat, blanks: string)
    requires blanks != [] && IsWs(blanks[0])
    requires forall k :: 1 <= k < |blanks| ==> IsLineTerminator(blanks[k])
    ensures MatchHeader(Repeat('#', n) + blanks) == None
  {
    var line := Repeat('#', n) + blanks;
    LeadingCountUnique(line, IsHash, n);
    forall j | n < j < |line|
      ensures !IsBodyChar(line[j])
    {
      assert line[j] == blanks[j - n];
    }
    if 1 <= n <= 6 {
      BodyStartNone(line, n, Skip(line, IsWs, n) - n);
    }
  }

  /** With no body character after the markers, backtracking finds no split. */
  lemma {:induction false} BodyStartNone(line: string, n: nat, m: nat)
    requires n + m <= |line|
    requires forall j :: n < j < |line| ==> !IsBodyChar(line[j])
    ensures BodyStart(line, n, m) == None
    decreases m
  {
    if m > 0 {
      BodyStartNone(line, n, m - 1);
    }
  }

  lemma ExampleNoSpace()
    ensures MatchHeader("#Title") == None
  {
    var line := "#Title";
    assert LeadingCount(line, IsHash) == 1;
    SkipUnique(line, IsWs, 1, 1);
  }

  /** The header a match gives, as a list of zero or one. */
  function Found(m: Option<Header>): seq<Header>
  {
    match m
    case Some(h) => [h]
    case None => []
  }

  /**
   * The headers `matcher` finds in `lines`, in line order, one per line it
   * accepts; the extraction uses `MatchHeader` as the matcher.
   */
  function Collect(matcher: string -> Option<Header>, lines: seq<string>): (hs: seq<Header>)
    ensures |hs| <= |lines|
  {
    if lines == [] then [] else Found(matcher(lines[0])) + Collect(matcher, lines[1..])
  }

  lemma {:induction false} CollectAppend(matcher: string -> Option<Header>, a: seq<string>, b: seq<string>)
    ensures Collect(matcher, a + b) == Collect(matcher, a) + Collect(matcher, b)
  {
    if a == [] {
      assert a + b == b;
    } else {
      assert (a + b)[1..] == a[1..] + b;
      CollectAppend(matcher, a[1..], b);
    }
  }

  /** A header as extraction produces it: level 1 to 6 and a title on one line. */
  predicate WellFormed(h: Header)
  {
    1 <= h.level <= 6 && '\n' !in h.title
  }

  /** Collecting keeps whatever property `p` the matcher guarantees of each header it gives. */
  lemma {:induction false} CollectKeeps(matcher: string -> Option<Header>, lines: seq<string>, p: Header -> bool)
    requires forall l :: matcher(l).Some? ==> p(matcher(l).value)
    ensures forall i :: 0 <= i < |Collect(matcher, lines)| ==> p(Collect(matcher, lines)[i])
  {
    if lines != [] {
      CollectKeeps(matcher, lines[1..], p);
      var found, rest := Found(matcher(lines[0])), Collect(matcher, lines[1..]);
      forall i | 0 <= i < |found + rest|
        ensures p((found + rest)[i])
      {
        if i >= |found| {
          assert (found + rest)[i] == rest[i - |found|];
        }
      }
    }
  }

  lemma MatchHeaderWellFormed()
    ensures forall l :: MatchHeader(l).Some? ==> WellFormed(MatchHeader(l).value)
  {
    forall l | MatchHeader(l).Some?
      ensures WellFormed(MatchHeader(l).value)
    {
      var t := MatchHeader(l).value.title;
      assert forall k :: 0 <= k < |t| ==> t[k] != '\n';
    }
  }

  /**
   * The headers of a document; `None` stands for a file that could not be
   * read, which gives no headers instead of an error.
   */
  function ExtractHeaders(content: Option<string>): (hs: seq<Header>)
    ensures content.None? ==> hs == []
    ensures forall i :: 0 <= i < |hs| ==> 1 <= hs[i].level <= 6
    ensures forall i :: 0 <= i < |hs| ==> '\n' !in hs[i].title
  {
    match content
    case None => []
    case Some(text) =>
      MatchHeaderWellFormed();
      CollectKeeps(MatchHeader, Split(text, '\n'), WellFormed);
      Collect(MatchHeader, Split(text, '\n'))
  }

  /** A single line (no '\n') gives its own header, or none. */
  lemma ExtractHeadersOneLine(line: string)
    requires '\n' !in line
    ensures ExtractHeaders(Some(line)) == Found(MatchHeader(line))
  {
    SplitJoin([line], '\n');
  }

  /** Lines contribute independently and in file order. */
  lemma ExtractHeadersLines(a: string, b: string)
    ensures ExtractHeaders(Some(a + "\n" + b))
      == ExtractHeaders(Some(a)) + ExtractHeaders(Some(b))
  {
    SplitAround(a, b, '\n');
    CollectAppend(MatchHeader, Split(a, '\n'), Split(b, '\n'));
  }

  lemma CollectStep(matcher: string -> Option<Header>, lines: seq<string>, i: nat)
    requires i < |lines|
    ensures Collect(matcher, lines[..i + 1]) == Collect(matcher, lines[..i]) + Found(matcher(lines[i]))
  {
    assert lines[..i + 1] == lines[..i] + [lines[i]];
    CollectAppend(matcher, lines[..i], [lines[i]]);
    assert [lines[i]][1..] == [];
  }

  /** The extraction loop over the lines of a readable document. */
  method ExtractHeadersLoop(content: string) returns (headers: seq<Header>)
    ensures headers == ExtractHeaders(Some(content))
    ensures forall i :: 0 <= i < |headers| ==> 1 <= headers[i].level <= 6
  {
    var lines := Split(content, '\n');
    headers := [];
    var i := 0;
    while i < |lines|
      invariant i <= |lines|
      invariant headers == Collect(MatchHeader, lines[..i])
    {
      var line := lines[i];
      var headerMatch := MatchHeader(line);
      CollectStep(MatchHeader, lines, i);
      if headerMatch.Some? {
        headers := headers + [headerMatch.value];
      }
      assert headers == Collect(MatchHeader, lines[..i]) + Found(headerMatch);
      i := i + 1;
    }
    assert lines[..i] == lines;
  }
}
