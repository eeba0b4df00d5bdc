/** The file resolver (`pdf_paths_for_hymn`): for hymn number n, the files
    of the source directory that belong to it, duplicate-free and in page
    order. The directory is abstracted to whether it exists and the names
    it lists, in the order the directory yields them. */
module FileResolver {
  import opened Text
  import opened PageOrder

  /** The source directory: `pdf_dir.exists()` and the names of its
      entries, in listing order. Names are compared exactly, as on a
      case-sensitive file system. */
  datatype Directory = Directory(present: bool, entries: seq<string>)

  /** `f"{n}.pdf"`. */
  function ExactName(n: nat): string {
    DecimalString(n) + ".pdf"
  }

  /** The glob `f"{n}_*.pdf"`: the prefix `n_`, then anything, then `.pdf`,
      all letter case significant. A hit for n is never a hit for a longer
      number: its leading digits are exactly the numeral of n. */
  predicate GlobMatches(n: nat, name: string)
    ensures GlobMatches(n, name) ==> DigitRun(name) == DecimalString(n)
  {
    var p := DecimalString(n) + "_";
    if |p| + 4 <= |name| && name[..|p|] == p && name[|name| - 4..] == ".pdf" then
      NumeralPrefix(DecimalString(n), '_', name);
      true
    else
      false
  }

  /** A name that starts with the numeral d and then the non-digit c has d
      as its run of leading digits. */
  lemma NumeralPrefix(d: string, c: char, name: string)
    requires AllDigits(d) && !IsDigit(c)
    requires |d| < |name| && name[..|d| + 1] == d + [c]
    ensures DigitRun(name) == d
  {
    var rest := name[|d|..];
    assert name[|d|] == name[..|d| + 1][|d|] == c;
    assert name == d + rest by {
      assert name[..|d|] == name[..|d| + 1][..|d|] == d;
    }
    DigitRunOfPrefix(d, rest);
  }

  /** `.+\.pdf` ending at `end` of t: at least one character other than a
      line feed, then `.pdf` in any letter case. */
  predicate TailEndsAt(t: string, end: nat)
    requires end <= |t|
  {
    end >= 5 && Lower(t[end - 4..end]) == ".pdf"
    && forall k :: 0 <= k < end - 4 ==> t[k] != '\n'
  }

  /** `re.compile(rf"^{n}(?:\.|_).+\.pdf$", re.IGNORECASE).match(name)`.
      `$` also matches just before a final line feed. Its leading digits,
      too, are exactly the numeral of n. */
  predicate PatternMatches(n: nat, name: string)
    ensures PatternMatches(n, name) ==> DigitRun(name) == DecimalString(n)
  {
    var d := DecimalString(n);
    if |d| < |name| && name[..|d|] == d && (name[|d|] == '.' || name[|d|] == '_') then
      var t := name[|d| + 1..];
      assert name[..|d| + 1] == d + [name[|d|]];
      NumeralPrefix(d, name[|d|], name);
      TailEndsAt(t, |t|) || (t != [] && t[|t| - 1] == '\n' && TailEndsAt(t, |t| - 1))
    else
      false
  }

  /** A name the resolver accepts for n: the exact name, or a glob hit that
      the pattern confirms. */
  predicate Accepted(n: nat, name: string) {
    name == ExactName(n) || (GlobMatches(n, name) && PatternMatches(n, name))
  }

  /** The glob hits that pass the pattern, in listing order. */
  function GlobHits(n: nat, entries: seq<string>): seq<string> {
    if entries == [] then []
    else
      var last := entries[|entries| - 1];
      GlobHits(n, entries[..|entries| - 1])
        + (if GlobMatches(n, last) && PatternMatches(n, last) then [last] else [])
  }

  /** `matches` before sorting: the exact name if it exists, then the
      confirmed glob hits. */
  function Candidates(dir: Directory, n: nat): seq<string> {
    (if ExactName(n) in dir.entries then [ExactName(n)] else []) + GlobHits(n, dir.entries)
  }

  /** What `pdf_paths_for_hymn` returns; a missing directory gives
      nothing. */
  function Resolve(dir: Directory, n: nat): (r: seq<string>)
    ensures !dir.present ==> r == []
  {
    if !dir.present then [] else SortByKey(Dedup(Candidates(dir, n)))
  }

  // ---------------------------------------------------------------------
  // The resolver as the source runs it

  /** `pdf_paths_for_hymn(pdf_dir, n)`. */
  method PdfPathsForHymn(dir: Directory, n: nat) returns (paths: seq<string>)
    ensures paths == Resolve(dir, n)
    ensures !dir.present ==> paths == []
  {
    if !dir.present {
      return [];
    }
    var exact := ExactName(n);
    var matches: seq<string> := [];
    if exact in dir.entries {
      matches := matches + [exact];
    }
    var listing := dir.entries;
    for i := 0 to |listing|
      invariant matches == (if exact in listing then [exact] else []) + GlobHits(n, listing[..i])
    {
      var p := listing[i];
      assert listing[..i + 1][..i] == listing[..i];
      if GlobMatches(n, p) && PatternMatches(n, p) {
        matches := matches + [p];
      }
    }
    assert listing[..|listing|] == listing;
    paths := SortByKey(Dedup(matches));
  }

  // ---------------------------------------------------------------------
  // What the resolver promises

  lemma {:induction false} GlobHitsMembership(n: nat, entries: seq<string>, name: string)
    ensures name in GlobHits(n, entries)
        <==> name in entries && GlobMatches(n, name) && PatternMatches(n, name)
  {
    if entries != [] {
      var k := |entries|;
      assert entries == entries[..k - 1] + [entries[k - 1]];
      GlobHitsMembership(n, entries[..k - 1], name);
    }
  }

  lemma SortByKeyMembership(s: seq<string>, x: string)
    ensures x in SortByKey(s) <==> x in s
  {
    SortByKeyPermutes(s);
    assert x in SortByKey(s) <==> x in multiset(SortByKey(s));
  }

  /** Exactly the accepted names of an existing directory are returned. */
  lemma ResolveMembership(dir: Directory, n: nat, name: string)
    ensures name in Resolve(dir, n) <==> dir.present && name in dir.entries && Accepted(n, name)
  {
    if dir.present {
      DedupKeepsNames(Candidates(dir, n));
      SortByKeyMembership(Dedup(Candidates(dir, n)), name);
      GlobHitsMembership(n, dir.entries, name);
    }
  }

  /** When `n.pdf` is there, something is returned for n. */
  lemma ResolveFindsExact(dir: Directory, n: nat)
    requires dir.present && ExactName(n) in dir.entries
    ensures Resolve(dir, n) != []
  {
    var c := Candidates(dir, n);
    assert c[0] == ExactName(n);
    DedupKeepsNames(c);
    assert ExactName(n) in Dedup(c);
  }

  /** No name is returned twice. */
  lemma ResolveNoDuplicates(dir: Directory, n: nat)
    ensures NoDuplicates(Resolve(dir, n))
  {
    if dir.present {
      var d := Dedup(Candidates(dir, n));
      DedupKeepsNames(Candidates(dir, n));
      SortByKeyPermutes(d);
      MultisetKeepsNoDuplicates(d, SortByKey(d));
    }
  }

  /** The names come in nondecreasing (page, lower-cased name) order. */
  lemma ResolveSorted(dir: Directory, n: nat)
    ensures Sorted(Resolve(dir, n))
  {
    if dir.present {
      SortByKeySorted(Dedup(Candidates(dir, n)));
    }
  }

  /** `d.pdf`, or `d_` followed by at least one character other than a
      line feed and then `.pdf`. */
  predicate NumberedName(d: string, name: string) {
    name == d + ".pdf"
    || (|d| + 6 <= |name| && name[..|d| + 1] == d + "_" && name[|name| - 4..] == ".pdf"
        && forall k :: |d| + 1 <= k < |name| - 4 ==> name[k] != '\n')
  }

  lemma ConfirmedGlobHitShape(n: nat, name: string)
    requires GlobMatches(n, name) && PatternMatches(n, name)
    ensures NumberedName(DecimalString(n), name)
  {
    var d := DecimalString(n);
    var t := name[|d| + 1..];
    assert name[|name| - 4..] == ".pdf";
    assert t[|t| - 1] == name[|name| - 1] == 'f';
    assert TailEndsAt(t, |t|);
    assert name[..|d| + 1] == d + "_" by {
      assert name[..|d| + 1] == (DecimalString(n) + "_");
    }
    forall k | |d| + 1 <= k < |name| - 4 ensures name[k] != '\n' {
      assert name[k] == t[k - |d| - 1];
    }
  }

  /** Every returned name is `n.pdf`, or `n_` followed by at least one
      character other than a line feed and then `.pdf`. */
  lemma ResolvedNameShape(dir: Directory, n: nat, name: string)
    requires name in Resolve(dir, n)
    ensures NumberedName(DecimalString(n), name)
  {
    ResolveMembership(dir, n, name);
    if name != ExactName(n) {
      ConfirmedGlobHitShape(n, name);
    }
  }

  lemma LowerOfPdf(s: string)
    requires s == ".pdf"
    ensures Lower(s) == s
  {
    var l := Lower(s);
    assert l[0] == LowerChar('.') == '.' && l[1] == LowerChar('p') == 'p';
    assert l[2] == LowerChar('d') == 'd' && l[3] == LowerChar('f') == 'f';
  }

  lemma TailOfNumberedName(middle: string)
    requires middle != [] && forall k :: 0 <= k < |middle| ==> middle[k] != '\n'
    ensures TailEndsAt(middle + ".pdf", |middle| + 4)
  {
    var t := middle + ".pdf";
    assert t[|t| - 4..] == ".pdf";
    LowerOfPdf(t[|t| - 4..]);
    assert forall k :: 0 <= k < |t| - 4 ==> t[k] == middle[k];
  }

  lemma GlobOfNumberedName(n: nat, middle: string)
    requires middle != []
    ensures GlobMatches(n, DecimalString(n) + "_" + middle + ".pdf")
  {
    var p := DecimalString(n) + "_";
    var name := p + middle + ".pdf";
    assert name[..|p|] == p;
    assert name[|name| - 4..] == ".pdf";
  }

  lemma PatternOfNumberedName(n: nat, middle: string)
    requires middle != [] && forall k :: 0 <= k < |middle| ==> middle[k] != '\n'
    ensures PatternMatches(n, DecimalString(n) + "_" + middle + ".pdf")
  {
    var d := DecimalString(n);
    var name := d + "_" + middle + ".pdf";
    assert name[..|d|] == d && name[|d|] == '_';
    assert name[|d| + 1..] == middle + ".pdf";
    TailOfNumberedName(middle);
  }

  /** The names the resolver accepts for n are exactly `n.pdf` and `n_`
      followed by at least one character other than a line feed and then
      `.pdf`. */
  lemma AcceptedIffNumbered(n: nat, name: string)
    ensures Accepted(n, name) <==> NumberedName(DecimalString(n), name)
  {
    var d := DecimalString(n);
    if Accepted(n, name) && name != ExactName(n) {
      ConfirmedGlobHitShape(n, name);
    }
    if NumberedName(d, name) && name != d + ".pdf" {
      var middle := name[|d| + 1..|name| - 4];
      assert name == d + "_" + middle + ".pdf" by {
        assert name == name[..|d| + 1] + middle + name[|name| - 4..];
      }
      assert forall k :: 0 <= k < |middle| ==> middle[k] == name[|d| + 1 + k];
      GlobOfNumberedName(n, middle);
      PatternOfNumberedName(n, middle);
    }
  }

  lemma NumberedNameDigits(d: string, name: string)
    requires AllDigits(d) && NumberedName(d, name)
    ensures DigitRun(name) == d
  {
    var rest := name[|d|..];
    if name == d + ".pdf" {
      assert rest == ".pdf";
    } else {
      assert name[..|d| + 1][|d|] == '_';
    }
    assert name == d + rest;
    DigitRunOfPrefix(d, rest);
  }

  /** A returned name begins with the numeral of n and no further digit:
      for n = 1 a name such as `12_intro.pdf` is never returned. */
  lemma ResolvedNameNumber(dir: Directory, n: nat, name: string)
    requires name in Resolve(dir, n)
    ensures DigitRun(name) == DecimalString(n)
  {
    ResolvedNameShape(dir, n, name);
    NumberedNameDigits(DecimalString(n), name);
  }

  /** Different numbers never share a file. */
  lemma ResolveDisjoint(dir: Directory, n: nat, m: nat, name: string)
    requires n != m
    ensures !(name in Resolve(dir, n) && name in Resolve(dir, m))
  {
    if name in Resolve(dir, n) && name in Resolve(dir, m) {
      ResolvedNameNumber(dir, n, name);
      ResolvedNameNumber(dir, m, name);
      DecimalStringInjective(n, m);
    }
  }

  /** When no two listed names differ only in letter case, the result does
      not depend on the order in which the directory lists its entries. */
  lemma ResolveIgnoresListingOrder(present: bool, e1: seq<string>, e2: seq<string>, n: nat)
    requires forall x :: x in e1 <==> x in e2
    requires forall x, y :: x in e1 && y in e1 && Lower(x) == Lower(y) ==> x == y
    ensures Resolve(Directory(present, e1), n) == Resolve(Directory(present, e2), n)
  {
    var r1, r2 := Resolve(Directory(present, e1), n), Resolve(Directory(present, e2), n);
    ResolveSorted(Directory(present, e1), n);
    ResolveSorted(Directory(present, e2), n);
    ResolveNoDuplicates(Directory(present, e1), n);
    ResolveNoDuplicates(Directory(present, e2), n);
    forall x ensures x in r1 <==> x in r2 {
      ResolveMembership(Directory(present, e1), n, x);
      ResolveMembership(Directory(present, e2), n, x);
    }
    forall x, y | x in r1 && y in r1 && Key(x) == Key(y) ensures x == y {
      ResolveMembership(Directory(present, e1), n, x);
      ResolveMembership(Directory(present, e1), n, y);
    }
    SortedUnique(r1, r2);
  }
}
