/**
 * The small part of the JavaScript string library the generator relies on:
 * `\s` and `trim`, `toLowerCase`, `startsWith`/`endsWith`, `repeat` and
 * `split` on one separator character. Strings are sequences of Unicode
 * scalar values.
 */
module Text {

  /** ECMAScript LineTerminator: the characters `.` in a regular expression does not match. */
  predicate IsLineTerminator(c: char)
  {
    c == '\n' || c == '\r' || c == '\U{2028}' || c == '\U{2029}'
  }

  /**
   * ECMAScript WhiteSpace or LineTerminator: what `\s` matches and what
   * `String.prototype.trim` strips (Unicode category Zs written out).
   */
  predicate IsWs(c: char)
  {
    || IsLineTerminator(c)
    || c == '\t' || c == '\U{000B}' || c == '\U{000C}' || c == '\U{FEFF}'
    || c == ' ' || c == '\U{00A0}' || c == '\U{1680}'
    || ('\U{2000}' <= c <= '\U{200A}')
    || c == '\U{202F}' || c == '\U{205F}' || c == '\U{3000}'
  }

  predicate StartsWith(s: string, prefix: string)
  {
    |prefix| <= |s| && s[..|prefix|] == prefix
  }

  predicate EndsWith(s: string, suffix: string)
  {
    |suffix| <= |s| && s[|s| - |suffix|..] == suffix
  }

  /** `c.repeat(n)` for a one-character string `c`. */
  function Repeat(c: char, n: nat): (r: string)
    ensures |r| == n
    ensures forall i :: 0 <= i < n ==> r[i] == c
  {
    if n == 0 then [] else [c] + Repeat(c, n - 1)
  }

  /**
   * The first position at or after `i` where `p` fails, or `|s|` when it
   * holds up to the end: the end of the run a greedy `p*` matches from `i`.
   */
  function Skip(s: string, p: char -> bool, i: nat): (j: nat)
    requires i <= |s|
    ensures i <= j <= |s|
    ensures forall k :: i <= k < j ==> p(s[k])
    ensures j == |s| || !p(s[j])
    decreases |s| - i
  {
    if i == |s| || !p(s[i]) then i else Skip(s, p, i + 1)
  }

  /** The end of the run is the only position with the two properties above. */
  lemma {:induction false} SkipUnique(s: string, p: char -> bool, i: nat, j: nat)
    requires i <= j <= |s|
    requires forall k :: i <= k < j ==> p(s[k])
    requires j == |s| || !p(s[j])
    ensures Skip(s, p, i) == j
    decreases j - i
  {
    if i < j {
      SkipUnique(s, p, i + 1, j);
    }
  }

  /** A run known to reach `j` ends at `j` or later. */
  lemma {:induction false} SkipReaches(s: string, p: char -> bool, i: nat, j: nat)
    requires i <= j <= |s|
    requires forall k :: i <= k < j ==> p(s[k])
    ensures j <= Skip(s, p, i)
    decreases j - i
  {
    if i < j {
      SkipReaches(s, p, i + 1, j);
    }
  }

  /** Length of the longest prefix of `s` whose characters all satisfy `p`. */
  function LeadingCount(s: string, p: char -> bool): nat
  {
    Skip(s, p, 0)
  }

  lemma LeadingCountUnique(s: string, p: char -> bool, n: nat)
    requires n <= |s|
    requires forall i :: 0 <= i < n ==> p(s[i])
    requires n == |s| || !p(s[n])
    ensures LeadingCount(s, p) == n
  {
    SkipUnique(s, p, 0, n);
  }

  /** The start of the run of `p` characters that ends just before `j`. */
  function SkipBack(s: string, p: char -> bool, j: nat): (i: nat)
    requires j <= |s|
    ensures i <= j
    ensures forall k :: i <= k < j ==> p(s[k])
    ensures i == 0 || !p(s[i - 1])
  {
    if j == 0 || !p(s[j - 1]) then j else SkipBack(s, p, j - 1)
  }

  /** `toLowerCase` on the ASCII letters; every other character maps to itself. */
  function LowerChar(c: char): (d: char)
  {
    if 'A' <= c <= 'Z' then (c as int - 'A' as int + 'a' as int) as char else c
  }

  /** `toLowerCase`: no ASCII capital survives, and nothing but ASCII capitals changes. */
  function ToLower(s: string): (r: string)
    ensures |r| == |s|
    ensures forall i :: 0 <= i < |r| ==> !('A' <= r[i] <= 'Z')
    ensures forall i :: 0 <= i < |s| ==>
      r[i] == s[i] || ('A' <= s[i] <= 'Z' && r[i] as int == s[i] as int + ('a' as int - 'A' as int))
  {
    seq(|s|, i requires 0 <= i < |s| => LowerChar(s[i]))
  }

  /** Number of whitespace characters `trim` removes from the front of `s`. */
  function LeadingWs(s: string): nat
  {
    Skip(s, IsWs, 0)
  }

  /**
   * `trim`: the result is the piece of `s` starting after its leading
   * whitespace; it neither starts nor ends with whitespace, and everything
   * cut off around it is whitespace.
   */
  function Trim(s: string): (r: string)
    ensures LeadingWs(s) + |r| <= |s|
    ensures r == s[LeadingWs(s)..LeadingWs(s) + |r|]
    ensures r == [] || (!IsWs(r[0]) && !IsWs(r[|r| - 1]))
    ensures forall k :: 0 <= k < LeadingWs(s) ==> IsWs(s[k])
    ensures forall k :: LeadingWs(s) + |r| <= k < |s| ==> IsWs(s[k])
  {
    var a, b := LeadingWs(s), SkipBack(s, IsWs, |s|);
    if a < b then s[a..b] else []
  }

  /** Text that neither starts nor ends with whitespace is left as it is. */
  lemma TrimUnchanged(s: string)
    requires s == [] || (!IsWs(s[0]) && !IsWs(s[|s| - 1]))
    ensures Trim(s) == s
  {
    if s != [] {
      SkipUnique(s, IsWs, 0, 0);
      assert SkipBack(s, IsWs, |s|) == |s|;
      assert s[0..|s|] == s;
    }
  }

  /** Trimming is idempotent, and all-whitespace text trims to nothing. */
  lemma TrimIdempotent(s: string)
    ensures Trim(Trim(s)) == Trim(s)
    ensures (forall i :: 0 <= i < |s| ==> IsWs(s[i])) <==> Trim(s) == []
  {
    TrimUnchanged(Trim(s));
    if forall i :: 0 <= i < |s| ==> IsWs(s[i]) {
      SkipUnique(s, IsWs, 0, |s|);
    }
  }

  /** Index of the first occurrence of `c` in `s`. */
  function IndexOf(s: string, c: char): (i: nat)
    requires c in s
    ensures i < |s| && s[i] == c && c !in s[..i]
  {
    if s[0] == c then 0 else 1 + IndexOf(s[1..], c)
  }

  /** Concatenates `parts` with `sep` between consecutive parts (`Array.prototype.join`). */
  function Join(parts: seq<string>, sep: char): string
  {
    if |parts| == 0 then []
    else if |parts| == 1 then parts[0]
    else parts[0] + [sep] + Join(parts[1..], sep)
  }

  /**
   * `s.split(sep)`: the pieces between separators, including an empty piece
   * after a trailing separator; an empty string gives one empty piece.
   */
  function Split(s: string, sep: char): (r: seq<string>)
    ensures |r| >= 1
    ensures forall i :: 0 <= i < |r| ==> sep !in r[i]
    ensures Join(r, sep) == s
    decreases |s|
  {
    if sep in s then
      var i := IndexOf(s, sep);
      assert s == s[..i] + [sep] + s[i + 1..];
      [s[..i]] + Split(s[i + 1..], sep)
    else [s]
  }

  lemma {:induction false} JoinAppend(p: seq<string>, q: seq<string>, sep: char)
    requires |p| >= 1 && |q| >= 1
    ensures Join(p + q, sep) == Join(p, sep) + [sep] + Join(q, sep)
  {
    if |p| == 1 {
      assert (p + q)[1..] == q;
    } else {
      assert (p + q)[1..] == p[1..] + q;
      JoinAppend(p[1..], q, sep);
    }
  }

  /** Splitting undoes joining, as long as no part contains the separator. */
  lemma {:induction false} SplitJoin(parts: seq<string>, sep: char)
    requires |parts| >= 1
    requires forall i :: 0 <= i < |parts| ==> sep !in parts[i]
    ensures Split(Join(parts, sep), sep) == parts
  {
    if |parts| > 1 {
      var rest := Join(parts[1..], sep);
      SplitFirst(parts[0], rest, sep);
      SplitJoin(parts[1..], sep);
      assert parts == [parts[0]] + parts[1..];
    }
  }

  /** A separator-free piece followed by the separator is split off as the first piece. */
  lemma SplitFirst(a: string, b: string, sep: char)
    requires sep !in a
    ensures Split(a + [sep] + b, sep) == [a] + Split(b, sep)
  {
    var s := a + [sep] + b;
    assert s[|a|] == sep && s[..|a|] == a;
    IndexOfUnique(s, sep, |a|);
    assert s[|a| + 1..] == b;
  }

  lemma {:induction false} IndexOfUnique(s: string, c: char, i: nat)
    requires i < |s| && s[i] == c && c !in s[..i]
    ensures IndexOf(s, c) == i
  {
    if i > 0 {
      assert s[0] == s[..i][0];
      assert s[1..][..i - 1] == s[..i][1..];
      IndexOfUnique(s[1..], c, i - 1);
    }
  }

  /** The pieces of `a + sep + b` are the pieces of `a` followed by those of `b`. */
  lemma SplitAround(a: string, b: string, sep: char)
    ensures Split(a + [sep] + b, sep) == Split(a, sep) + Split(b, sep)
  {
    var p, q := Split(a, sep), Split(b, sep);
    JoinAppend(p, q, sep);
    assert Join(p + q, sep) == a + [sep] + b;
    assert forall i :: 0 <= i < |p + q| ==> sep !in (p + q)[i];
    SplitJoin(p + q, sep);
  }
}
