/** The order in which one hymn's files are merged: `sort_key` inside
    `pdf_paths_for_hymn`, and the `sorted(set(...), key=sort_key)` that
    uses it. The key is the page index from the first `_PAGE<digits>` in
    the file's stem (0 when there is none), then the lower-cased name. */
module PageOrder {
  import opened Text

  // ---------------------------------------------------------------------
  // The stem of a file name (`Path.stem`)

  /** Index of the last '.' in s, or -1 when there is none. */
  function LastDot(s: string): (i: int)
    ensures -1 <= i < |s| && (i >= 0 ==> s[i] == '.')
    ensures forall k :: i < k < |s| ==> s[k] != '.'
  {
    if s == [] then -1
    else if s[|s| - 1] == '.' then |s| - 1
    else LastDot(s[..|s| - 1])
  }

  /** The name without its final suffix; a leading dot or a trailing dot
      does not start a suffix. */
  function Stem(name: string): (r: string)
    ensures |r| <= |name|
    ensures r != name ==> 0 < |r| < |name| - 1 && name[|r|] == '.'
  {
    var i := LastDot(name);
    if 0 < i < |name| - 1 then name[..i] else name
  }

  lemma StemOfPdf(base: string)
    requires base != []
    ensures Stem(base + ".pdf") == base
  {
    var name := base + ".pdf";
    assert name[|base|] == '.';
    assert name[|base| + 1] == 'p' && name[|base| + 2] == 'd' && name[|base| + 3] == 'f';
    assert LastDot(name) == |base|;
    assert name[..|base|] == base;
  }

  // ---------------------------------------------------------------------
  // The page index: `re.search(r"_PAGE(\d+)", stem, flags=re.IGNORECASE)`

  /** `_PAGE` in any letter case at position j, followed by a digit. */
  predicate MarkerAt(s: string, j: int) {
    0 <= j && j + 5 < |s| && Lower(s[j..j + 5]) == "_page" && IsDigit(s[j + 5])
  }

  /** The page index of the leftmost marker at or after position i. */
  function PageIndexFrom(s: string, i: nat): (p: nat)
    ensures p != 0 ==> i + 6 <= |s|
    decreases |s| - i
  {
    if i + 5 >= |s| then 0
    else if MarkerAt(s, i) then DigitsValue(DigitRun(s[i + 5..]))
    else PageIndexFrom(s, i + 1)
  }

  /** A page index other than 0 needs room for a marker: `_PAGE` and a
      digit. */
  function PageIndex(stem: string): (p: nat)
    ensures p != 0 ==> 6 <= |stem|
  {
    PageIndexFrom(stem, 0)
  }

  lemma {:induction false} PageIndexFromFirst(s: string, i: nat, j: nat)
    requires i <= j && MarkerAt(s, j)
    requires forall k :: i <= k < j ==> !MarkerAt(s, k)
    ensures PageIndexFrom(s, i) == DigitsValue(DigitRun(s[j + 5..]))
    decreases j - i
  {
    if i < j {
      PageIndexFromFirst(s, i + 1, j);
    }
  }

  /** The leftmost marker decides the page: its whole run of digits, read
      as a number. */
  lemma PageIndexFirstMarker(s: string, j: nat)
    requires MarkerAt(s, j)
    requires forall k :: 0 <= k < j ==> !MarkerAt(s, k)
    ensures PageIndex(s) == DigitsValue(DigitRun(s[j + 5..]))
  {
    PageIndexFromFirst(s, 0, j);
  }

  lemma {:induction false} PageIndexFromNone(s: string, i: nat)
    requires forall k :: i <= k ==> !MarkerAt(s, k)
    ensures PageIndexFrom(s, i) == 0
    decreases |s| - i
  {
    if i + 5 < |s| {
      PageIndexFromNone(s, i + 1);
    }
  }

  /** Without a marker the page index is 0. */
  lemma PageIndexNoMarker(s: string)
    requires forall k :: !MarkerAt(s, k)
    ensures PageIndex(s) == 0
  {
    PageIndexFromNone(s, 0);
  }

  // ---------------------------------------------------------------------
  // The sort key and its order

  /** `(page, p.name.lower())`. */
  datatype SortKey = SortKey(page: nat, folded: string)

  /** The key: a page other than 0 only for a name long enough to hold a
      marker, and a tie-break name of the same length. */
  function Key(name: string): (k: SortKey)
    ensures k.page != 0 ==> 6 <= |name|
    ensures |k.folded| == |name|
  {
    SortKey(PageIndex(Stem(name)), Lower(name))
  }

  /** Python's `<` on the key tuples. */
  predicate KeyLess(x: SortKey, y: SortKey) {
    x.page < y.page || (x.page == y.page && StrLess(x.folded, y.folded))
  }

  lemma KeyLessIrreflexive(x: SortKey)
    ensures !KeyLess(x, x)
  {
    StrLessIrreflexive(x.folded);
  }

  lemma KeyLessTransitive(x: SortKey, y: SortKey, z: SortKey)
    requires KeyLess(x, y) && KeyLess(y, z)
    ensures KeyLess(x, z)
  {
    if x.page == y.page == z.page {
      StrLessTransitive(x.folded, y.folded, z.folded);
    }
  }

  /** Two different keys are ordered one way or the other. */
  lemma KeyLessTotal(x: SortKey, y: SortKey)
    requires x != y
    ensures KeyLess(x, y) || KeyLess(y, x)
  {
    if x.page == y.page {
      StrLessTotal(x.folded, y.folded);
    }
  }

  lemma KeyLessAsymmetric(x: SortKey, y: SortKey)
    requires KeyLess(x, y)
    ensures !KeyLess(y, x)
  {
    if KeyLess(y, x) {
      KeyLessTransitive(x, y, x);
      KeyLessIrreflexive(x);
    }
  }

  /** Nondecreasing by key: no later name has a smaller key. */
  predicate Sorted(r: seq<string>) {
    forall i, j :: 0 <= i < j < |r| ==> !KeyLess(Key(r[j]), Key(r[i]))
  }

  predicate NoDuplicates(r: seq<string>) {
    forall i, j :: 0 <= i < j < |r| ==> r[i] != r[j]
  }

  // ---------------------------------------------------------------------
  // `set(matches)`: drop repeated names

  /** Keeps the first occurrence of every name. */
  function Dedup(s: seq<string>): (r: seq<string>)
    ensures |r| <= |s|
  {
    if s == [] then []
    else
      var p := Dedup(s[..|s| - 1]);
      if s[|s| - 1] in s[..|s| - 1] then p else p + [s[|s| - 1]]
  }

  /** Every name is kept, once. */
  lemma {:induction false} DedupKeepsNames(s: seq<string>)
    ensures NoDuplicates(Dedup(s))
    ensures forall x :: x in Dedup(s) <==> x in s
  {
    if s != [] {
      var k := |s|;
      DedupKeepsNames(s[..k - 1]);
      assert s == s[..k - 1] + [s[k - 1]];
    }
  }

  // ---------------------------------------------------------------------
  // `sorted(..., key=sort_key)`: a stable sort, written as insertion sort

  /** Puts x after every name whose key is not greater than its own. */
  function InsertByKey(x: string, r: seq<string>): (r': seq<string>)
    ensures |r'| == |r| + 1
  {
    if r == [] then [x]
    else if KeyLess(Key(x), Key(r[0])) then [x] + r
    else [r[0]] + InsertByKey(x, r[1..])
  }

  function SortByKey(s: seq<string>): (r: seq<string>)
    ensures |r| == |s|
  {
    if s == [] then []
    else InsertByKey(s[|s| - 1], SortByKey(s[..|s| - 1]))
  }

  /** Inserting adds x and loses nothing. */
  lemma {:induction false} InsertByKeyPermutes(x: string, r: seq<string>)
    ensures multiset(InsertByKey(x, r)) == multiset(r) + multiset{x}
  {
    if r != [] && !KeyLess(Key(x), Key(r[0])) {
      assert r == [r[0]] + r[1..];
      InsertByKeyPermutes(x, r[1..]);
    }
  }

  /** The sort is a permutation of its input. */
  lemma {:induction false} SortByKeyPermutes(s: seq<string>)
    ensures multiset(SortByKey(s)) == multiset(s)
  {
    if s != [] {
      assert s == s[..|s| - 1] + [s[|s| - 1]];
      SortByKeyPermutes(s[..|s| - 1]);
      InsertByKeyPermutes(s[|s| - 1], SortByKey(s[..|s| - 1]));
    }
  }

  /** A name no greater than any of a sorted sequence may go in front. */
  lemma SortedCons(y: string, t: seq<string>)
    requires Sorted(t)
    requires forall j :: 0 <= j < |t| ==> !KeyLess(Key(t[j]), Key(y))
    ensures Sorted([y] + t)
  {
    var r := [y] + t;
    assert r[0] == y && forall k :: 1 <= k < |r| ==> r[k] == t[k - 1];
  }

  /** Below the head of a sorted sequence means below all of it. */
  lemma BelowHead(x: string, r: seq<string>)
    requires Sorted(r) && r != [] && KeyLess(Key(x), Key(r[0]))
    ensures forall j :: 0 <= j < |r| ==> !KeyLess(Key(r[j]), Key(x))
  {
    forall j | 0 <= j < |r| ensures !KeyLess(Key(r[j]), Key(x)) {
      var y := r[j];
      if Key(y) != Key(r[0]) {
        KeyLessTotal(Key(y), Key(r[0]));
        KeyLessTransitive(Key(x), Key(r[0]), Key(y));
      }
      KeyLessAsymmetric(Key(x), Key(y));
    }
  }

  lemma {:induction false} InsertKeepsSorted(x: string, r: seq<string>)
    requires Sorted(r)
    ensures Sorted(InsertByKey(x, r))
  {
    if r == [] {
    } else if KeyLess(Key(x), Key(r[0])) {
      BelowHead(x, r);
      SortedCons(x, r);
    } else {
      var t := r[1..];
      var tail := InsertByKey(x, t);
      assert Sorted(t) by {
        forall i, j | 0 <= i < j < |t| ensures !KeyLess(Key(t[j]), Key(t[i])) {
          assert t[i] == r[i + 1] && t[j] == r[j + 1];
        }
      }
      InsertKeepsSorted(x, t);
      InsertByKeyPermutes(x, t);
      forall j | 0 <= j < |tail| ensures !KeyLess(Key(tail[j]), Key(r[0])) {
        var y := tail[j];
        assert y in multiset(tail);
        assert y in multiset(t) || y == x;
        if y != x {
          var k :| 0 <= k < |t| && t[k] == y;
          assert r[k + 1] == y;
        }
      }
      SortedCons(r[0], tail);
    }
  }

  /** The sort puts the names in nondecreasing key order. */
  lemma {:induction false} SortByKeySorted(s: seq<string>)
    ensures Sorted(SortByKey(s))
  {
    if s != [] {
      SortByKeySorted(s[..|s| - 1]);
      InsertKeepsSorted(s[|s| - 1], SortByKey(s[..|s| - 1]));
    }
  }

  lemma NoDuplicatesOfMultiset(r: seq<string>)
    requires NoDuplicates(r)
    ensures forall x :: multiset(r)[x] <= 1
  {
    forall x ensures multiset(r)[x] <= 1 {
      NoDuplicatesCount(r, x);
    }
  }

  lemma {:induction false} NoDuplicatesCount(r: seq<string>, x: string)
    requires NoDuplicates(r)
    ensures multiset(r)[x] <= 1
  {
    if r != [] {
      var n := |r|;
      assert r == r[..n - 1] + [r[n - 1]];
      NoDuplicatesCount(r[..n - 1], x);
      if x == r[n - 1] {
        assert x !in r[..n - 1];
      }
    }
  }

  /** Reordering keeps a duplicate-free sequence duplicate-free. */
  lemma MultisetKeepsNoDuplicates(r: seq<string>, t: seq<string>)
    requires NoDuplicates(r) && multiset(r) == multiset(t)
    ensures NoDuplicates(t)
  {
    NoDuplicatesOfMultiset(r);
    forall i, j | 0 <= i < j < |t| ensures t[i] != t[j] {
      assert t == t[..i] + [t[i]] + t[i + 1..j] + [t[j]] + t[j + 1..];
      assert multiset(t) == multiset(t[..i]) + multiset{t[i]} + multiset(t[i + 1..j])
                            + multiset{t[j]} + multiset(t[j + 1..]);
      assert multiset(t)[t[j]] <= 1;
    }
  }

  // ---------------------------------------------------------------------
  // A sorted, duplicate-free order is unique once keys tell names apart

  function Elements(r: seq<string>): set<string> {
    set x | x in r
  }

  lemma {:induction false} NoDuplicatesCardinality(r: seq<string>)
    requires NoDuplicates(r)
    ensures |Elements(r)| == |r|
  {
    if r != [] {
      var n := |r|;
      var p := r[..n - 1];
      NoDuplicatesCardinality(p);
      assert Elements(r) == Elements(p) + {r[n - 1]};
      assert r[n - 1] !in p;
    }
  }

  lemma SameElementsSameLength(r1: seq<string>, r2: seq<string>)
    requires NoDuplicates(r1) && NoDuplicates(r2)
    requires forall x :: x in r1 <==> x in r2
    ensures |r1| == |r2|
  {
    NoDuplicatesCardinality(r1);
    NoDuplicatesCardinality(r2);
    assert Elements(r1) == Elements(r2);
  }

  /** The heads of two such sequences carry the least key, so they agree. */
  lemma SortedSameHead(r1: seq<string>, r2: seq<string>)
    requires Sorted(r1) && Sorted(r2) && r1 != [] && r2 != []
    requires forall x :: x in r1 <==> x in r2
    requires forall x, y :: x in r1 && y in r1 && Key(x) == Key(y) ==> x == y
    ensures r1[0] == r2[0]
  {
    var a, b := r1[0], r2[0];
    assert a in r2 && b in r1;
    var i :| 0 <= i < |r2| && r2[i] == a;
    var j :| 0 <= j < |r1| && r1[j] == b;
    KeyLessIrreflexive(Key(a));
    assert !KeyLess(Key(b), Key(a)) by { if j > 0 { assert Key(b) == Key(r1[j]); } }
    assert !KeyLess(Key(a), Key(b)) by { if i > 0 { assert Key(a) == Key(r2[i]); } }
    if Key(a) != Key(b) {
      KeyLessTotal(Key(a), Key(b));
    }
  }

  lemma TailSorted(r: seq<string>)
    requires Sorted(r) && NoDuplicates(r) && r != []
    ensures Sorted(r[1..]) && NoDuplicates(r[1..])
    ensures forall x :: x in r[1..] <==> x in r && x != r[0]
  {
    var t := r[1..];
    forall i, j | 0 <= i < j < |t| ensures !KeyLess(Key(t[j]), Key(t[i])) && t[i] != t[j] {
      assert t[i] == r[i + 1] && t[j] == r[j + 1];
    }
    forall x ensures x in t <==> x in r && x != r[0] {
      if x in t {
        var k :| 0 <= k < |t| && t[k] == x;
        assert r[k + 1] == x;
      }
      if x in r && x != r[0] {
        var k :| 0 <= k < |r| && r[k] == x;
        assert t[k - 1] == x;
      }
    }
  }

  /** Two duplicate-free sequences with the same names, both sorted by a
      key that tells those names apart, are the same sequence: the
      resolver's output does not depend on the order it met the names. */
  lemma {:induction false} SortedUnique(r1: seq<string>, r2: seq<string>)
    requires Sorted(r1) && Sorted(r2) && NoDuplicates(r1) && NoDuplicates(r2)
    requires forall x :: x in r1 <==> x in r2
    requires forall x, y :: x in r1 && y in r1 && Key(x) == Key(y) ==> x == y
    ensures r1 == r2
    decreases |r1|
  {
    SameElementsSameLength(r1, r2);
    if r1 != [] {
      SortedSameHead(r1, r2);
      TailSorted(r1);
      TailSorted(r2);
      SortedUnique(r1[1..], r2[1..]);
      assert r1 == [r1[0]] + r1[1..] && r2 == [r2[0]] + r2[1..];
    }
  }
}
