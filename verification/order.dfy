/**
 * The order `scanDirectory` puts a directory's entries in before filtering
 * them: `Array.prototype.sort` (stable) with a comparator that puts
 * directories before everything else and otherwise defers to
 * `localeCompare` on the names.
 *
 * `localeCompare` depends on the host's collation tables, so it is a
 * parameter: a collation key `key` mapping each name to a real number, with
 * `a` before `b` exactly when `key(a) < key(b)`. Every total preorder on
 * names has this form.
 */
module Order {
  import opened Tree

  /** `a.localeCompare(b)`: negative, zero or positive. */
  function LocaleCompare(key: string -> real, a: string, b: string): int
  {
    if key(a) < key(b) then -1 else if key(b) < key(a) then 1 else 0
  }

  /**
   * The comparator passed to `sort`: a directory (listable or not) precedes
   * every other entry, and entries of the same kind go by collation key.
   */
  function Compare(key: string -> real, a: Entry, b: Entry): (c: int)
    ensures -1 <= c <= 1
    ensures c < 0 <==>
      || (a.IsDirectory() && !b.IsDirectory())
      || (a.IsDirectory() == b.IsDirectory() && key(a.name) < key(b.name))
    ensures c == 0 <==> a.IsDirectory() == b.IsDirectory() && key(a.name) == key(b.name)
  {
    if a.IsDirectory() && !b.IsDirectory() then -1
    else if !a.IsDirectory() && b.IsDirectory() then 1
    else LocaleCompare(key, a.name, b.name)
  }

  /**
   * The comparator is consistent in the sense `Array.prototype.sort` needs
   * for a well-defined result: reflexive, antisymmetric in sign, and
   * transitive.
   */
  lemma CompareConsistent(key: string -> real, a: Entry, b: Entry, c: Entry)
    ensures Compare(key, a, a) == 0
    ensures Compare(key, a, b) == -Compare(key, b, a)
    ensures Compare(key, a, b) <= 0 && Compare(key, b, c) <= 0 ==> Compare(key, a, c) <= 0
    ensures Compare(key, a, b) < 0 && Compare(key, b, c) <= 0 ==> Compare(key, a, c) < 0
  {
  }

  ghost predicate Sorted(key: string -> real, s: seq<Entry>)
  {
    forall i, j :: 0 <= i < j < |s| ==> Compare(key, s[i], s[j]) <= 0
  }

  /** `b` may precede every element of `s`. */
  ghost predicate LowerBound(key: string -> real, b: Entry, s: seq<Entry>)
  {
    forall k :: 0 <= k < |s| ==> Compare(key, b, s[k]) <= 0
  }

  lemma SortedCons(key: string -> real, a: Entry, t: seq<Entry>)
    requires LowerBound(key, a, t) && Sorted(key, t)
    ensures Sorted(key, [a] + t)
  {
    var r := [a] + t;
    forall i, j | 0 <= i < j < |r|
      ensures Compare(key, r[i], r[j]) <= 0
    {
      if i == 0 {
        assert r[j] == t[j - 1];
      } else {
        assert r[i] == t[i - 1] && r[j] == t[j - 1];
      }
    }
  }

  /** Places `x` before the first element it does not follow. */
  function Insert(key: string -> real, x: Entry, s: seq<Entry>): (r: seq<Entry>)
    ensures multiset(r) == multiset(s) + multiset{x}
    ensures |r| == |s| + 1
  {
    if s == [] || Compare(key, x, s[0]) <= 0 then [x] + s
    else
      assert s == [s[0]] + s[1..];
      [s[0]] + Insert(key, x, s[1..])
  }

  lemma {:induction false} InsertLowerBound(key: string -> real, b: Entry, x: Entry, s: seq<Entry>)
    requires LowerBound(key, b, s) && Compare(key, b, x) <= 0
    ensures LowerBound(key, b, Insert(key, x, s))
  {
    if s == [] || Compare(key, x, s[0]) <= 0 {
    } else {
      InsertLowerBound(key, b, x, s[1..]);
    }
  }

  lemma {:induction false} InsertSorted(key: string -> real, x: Entry, s: seq<Entry>)
    requires Sorted(key, s)
    ensures Sorted(key, Insert(key, x, s))
  {
    if s == [] || Compare(key, x, s[0]) <= 0 {
      SortedCons(key, x, s);
    } else {
      assert Sorted(key, s[1..]);
      InsertSorted(key, x, s[1..]);
      InsertLowerBound(key, s[0], x, s[1..]);
      SortedCons(key, s[0], Insert(key, x, s[1..]));
    }
  }

  /**
   * The stable sort of `s`: a permutation in which directories precede
   * all other entries and, within each group, keys never decrease.
   */
  function Sort(key: string -> real, s: seq<Entry>): (r: seq<Entry>)
    ensures multiset(r) == multiset(s)
    ensures Sorted(key, r)
    ensures forall i, j :: 0 <= i < j < |r| && r[j].IsDirectory() ==> r[i].IsDirectory()
    ensures forall i, j :: 0 <= i < j < |r| && r[i].IsDirectory() == r[j].IsDirectory()
                           ==> key(r[i].name) <= key(r[j].name)
  {
    if s == [] then []
    else
      var t := Sort(key, s[1..]);
      var r := Insert(key, s[0], t);
      InsertSorted(key, s[0], t);
      SortedGroups(key, r);
      assert s == [s[0]] + s[1..];
      r
  }

  /** In a sorted sequence directories come first and keys never decrease within a kind. */
  lemma SortedGroups(key: string -> real, r: seq<Entry>)
    requires Sorted(key, r)
    ensures forall i, j :: 0 <= i < j < |r| && r[j].IsDirectory() ==> r[i].IsDirectory()
    ensures forall i, j :: 0 <= i < j < |r| && r[i].IsDirectory() == r[j].IsDirectory()
                           ==> key(r[i].name) <= key(r[j].name)
  {
    forall i, j | 0 <= i < j < |r|
      ensures r[j].IsDirectory() ==> r[i].IsDirectory()
      ensures r[i].IsDirectory() == r[j].IsDirectory() ==> key(r[i].name) <= key(r[j].name)
    {
      assert Compare(key, r[i], r[j]) <= 0;
    }
  }

  lemma SortMembers(key: string -> real, s: seq<Entry>)
    ensures forall e :: e in Sort(key, s) <==> e in s
  {
    var r := Sort(key, s);
    assert forall e :: e in r <==> e in multiset(r);
  }

  /** The entries of `s`, in order, that the comparator ties with `y`. */
  function Ties(key: string -> real, s: seq<Entry>, y: Entry): seq<Entry>
  {
    if s == [] then []
    else (if Compare(key, s[0], y) == 0 then [s[0]] else []) + Ties(key, s[1..], y)
  }

  /**
   * Inserting `x` adds it to the entries tying with `y` ahead of all of them:
   * everything `Insert` passes over is strictly before `x`, so it cannot tie
   * with anything `x` ties with.
   */
  lemma {:induction false} InsertTies(key: string -> real, x: Entry, s: seq<Entry>, y: Entry)
    ensures Ties(key, Insert(key, x, s), y)
      == (if Compare(key, x, y) == 0 then [x] else []) + Ties(key, s, y)
  {
    if s == [] || Compare(key, x, s[0]) <= 0 {
      TiesCons(key, x, s, y);
    } else {
      var r := Insert(key, x, s[1..]);
      assert Insert(key, x, s) == [s[0]] + r;
      TiesCons(key, s[0], r, y);
      TiesCons(key, s[0], s[1..], y);
      assert s == [s[0]] + s[1..];
      InsertTies(key, x, s[1..], y);
      TieExclusive(key, x, s[0], y);
      SwapEmpty(if Compare(key, s[0], y) == 0 then [s[0]] else [],
                if Compare(key, x, y) == 0 then [x] else [],
                Ties(key, s[1..], y));
    }
  }

  lemma SwapEmpty<T>(a: seq<T>, b: seq<T>, c: seq<T>)
    requires a == [] || b == []
    ensures a + (b + c) == b + (a + c)
  {
  }

  lemma TiesCons(key: string -> real, a: Entry, t: seq<Entry>, y: Entry)
    ensures Ties(key, [a] + t, y) == (if Compare(key, a, y) == 0 then [a] else []) + Ties(key, t, y)
  {
    assert ([a] + t)[1..] == t;
  }

  /** An entry strictly after `a` cannot tie with anything `a` ties with. */
  lemma TieExclusive(key: string -> real, x: Entry, a: Entry, y: Entry)
    requires Compare(key, x, a) > 0
    ensures Compare(key, x, y) == 0 ==> Compare(key, a, y) != 0
  {
  }

  /** The sort is stable: entries that tie keep their original relative order. */
  lemma {:induction false} SortStable(key: string -> real, s: seq<Entry>, y: Entry)
    ensures Ties(key, Sort(key, s), y) == Ties(key, s, y)
  {
    if s != [] {
      SortStable(key, s[1..], y);
      InsertTies(key, s[0], Sort(key, s[1..]), y);
    }
  }
}
