/** Worked cases of the parser, the resolver and the merge step on small
    concrete inputs. Each input is a parameter pinned by `requires`, so
    that the proof goes through the general lemmas rather than by
    unfolding the definitions on literals. */
module WorkedCases {
  import opened Text
  import opened RangeParser
  import opened PageOrder
  import opened FileResolver
  import opened MergePlan

  // ---------------------------------------------------------------------
  // Parsing

  /** Order and repeats are kept: "3 1 3" gives 3, 1, 3. */
  lemma ParseKeepsOrderAndRepeats(s: string)
    requires s == "3 1 3"
    ensures Parse(s) == [3, 1, 3]
  {
    assert DecimalString(1) == "1" && DecimalString(3) == "3";
    assert s == DecimalString(3) + [' '] + (DecimalString(1) + [' '] + DecimalString(3));
    ParseAtSeparator(DecimalString(3), ' ', DecimalString(1) + [' '] + DecimalString(3));
    ParseAtSeparator(DecimalString(1), ' ', DecimalString(3));
    ParseNumeral(3);
    ParseNumeral(1);
  }

  /** "1-3" counts up. */
  lemma ParseAscendingRange(s: string)
    requires s == "1-3"
    ensures Parse(s) == [1, 2, 3]
  {
    assert DecimalString(1) == "1" && DecimalString(3) == "3";
    assert s == DecimalString(1) + "-" + DecimalString(3);
    ParseRange(1, 3);
    SpanExpansion(1, 3);
    var e := Expand(Span(1, 3));
    assert |e| == 3 && e[0] == 1 && e[1] == 2 && e[2] == 3;
  }

  /** "5-3" counts down. */
  lemma ParseDescendingRange(s: string)
    requires s == "5-3"
    ensures Parse(s) == [5, 4, 3]
  {
    assert DecimalString(5) == "5" && DecimalString(3) == "3";
    assert s == DecimalString(5) + "-" + DecimalString(3);
    ParseRange(5, 3);
    SpanExpansion(5, 3);
    var e := Expand(Span(5, 3));
    assert |e| == 3 && e[0] == 5 && e[1] == 4 && e[2] == 3;
  }

  /** "4-4" is just 4. */
  lemma ParseDegenerateRange(s: string)
    requires s == "4-4"
    ensures Parse(s) == [4]
  {
    assert DecimalString(4) == "4";
    assert s == DecimalString(4) + "-" + DecimalString(4);
    ParseRange(4, 4);
    SpanExpansion(4, 4);
    var e := Expand(Span(4, 4));
    assert |e| == 1 && e[0] == 4;
  }

  lemma ParseTwoThree(t: string)
    requires t == "2 3"
    ensures Parse(t) == [2, 3]
  {
    assert DecimalString(2) == t[..1] && DecimalString(3) == t[2..];
    assert t == t[..1] + [t[1]] + t[2..];
    ParseAtSeparator(t[..1], ' ', t[2..]);
    ParseNumeral(2);
    ParseNumeral(3);
  }

  lemma ParseOneTwoThree(t: string)
    requires t == "1 2 3"
    ensures Parse(t) == [1, 2, 3]
  {
    ParseTwoThree(t[2..]);
    assert DecimalString(1) == t[..1];
    ParseNumeral(1);
    assert t == t[..1] + [t[1]] + t[2..];
    ParseAtSeparator(t[..1], ' ', t[2..]);
  }

  /** Commas, semicolons and spaces separate alike. */
  lemma ParseMixedSeparators(s: string, t: string)
    requires s == "1,2;3" && t == "1 2 3"
    ensures Parse(s) == Parse(t) == [1, 2, 3]
  {
    ParseIgnoresSeparatorKind(s, t);
    ParseOneTwoThree(t);
  }

  lemma ParseWord(s: string)
    requires s == "abc"
    ensures Parse(s) == []
  {
    assert HyphenIndex(s) == 3;
    assert !IsNumeral(s) by { assert !IsDigit(s[0]); }
    ParseToken(s);
  }

  lemma ParseHalfRange(s: string)
    requires s == "2-x"
    ensures Parse(s) == []
  {
    assert HyphenIndex(s) == 1;
    assert !IsNumeral(s[2..]) by { assert !IsDigit(s[2]); }
    assert !IsNumeral(s) by { assert !IsDigit(s[1]); }
    ParseToken(s);
  }

  lemma ParseHalfRangeThenThree(s: string)
    requires s == "2-x 3"
    ensures Parse(s) == [3]
  {
    ParseHalfRange(s[..3]);
    assert DecimalString(3) == s[4..];
    ParseNumeral(3);
    assert s == s[..3] + [s[3]] + s[4..];
    ParseAtSeparator(s[..3], ' ', s[4..]);
  }

  lemma ParseWordThenRest(s: string)
    requires s == "abc 2-x 3"
    ensures Parse(s) == [3]
  {
    ParseWord(s[..3]);
    ParseHalfRangeThenThree(s[4..]);
    assert s == s[..3] + [s[3]] + s[4..];
    ParseAtSeparator(s[..3], ' ', s[4..]);
  }

  /** Malformed tokens vanish without an error. */
  lemma ParseDropsGarbage(s: string)
    requires s == "1 abc 2-x 3"
    ensures Parse(s) == [1, 3]
  {
    ParseWordThenRest(s[2..]);
    assert DecimalString(1) == s[..1];
    ParseNumeral(1);
    assert s == s[..1] + [s[1]] + s[2..];
    ParseAtSeparator(s[..1], ' ', s[2..]);
  }

  // ---------------------------------------------------------------------
  // Resolving

  /** When exactly one listed name is accepted, it is the whole result. */
  lemma ResolveOnly(dir: Directory, n: nat, name: string)
    requires dir.present && name in dir.entries && Accepted(n, name)
    requires forall x :: x in dir.entries && Accepted(n, x) ==> x == name
    ensures Resolve(dir, n) == [name]
  {
    var r := Resolve(dir, n);
    forall x ensures x in r <==> x in [name] {
      ResolveMembership(dir, n, x);
    }
    ResolveNoDuplicates(dir, n);
    SameElementsSameLength(r, [name]);
    assert r[0] in r;
  }

  /** When no listed name is accepted, nothing is found. */
  lemma ResolveNone(dir: Directory, n: nat)
    requires forall x :: x in dir.entries ==> !Accepted(n, x)
    ensures Resolve(dir, n) == []
  {
    var r := Resolve(dir, n);
    if r != [] {
      ResolveMembership(dir, n, r[0]);
    }
  }

  lemma PairSorted(a: string, b: string)
    requires KeyLess(Key(a), Key(b))
    ensures Sorted([a, b]) && NoDuplicates([a, b])
    ensures forall x, y :: x in [a, b] && y in [a, b] && Key(x) == Key(y) ==> x == y
  {
    KeyLessIrreflexive(Key(a));
    KeyLessAsymmetric(Key(a), Key(b));
  }

  /** Two accepted names listed in either order come out with the smaller
      key first. */
  lemma ResolvePair(n: nat, a: string, b: string)
    requires Accepted(n, a) && Accepted(n, b) && KeyLess(Key(a), Key(b))
    ensures Resolve(Directory(true, [b, a]), n) == [a, b]
    ensures Resolve(Directory(true, [a, b]), n) == [a, b]
  {
    ResolvePairListed(n, a, b, Directory(true, [b, a]));
    ResolvePairListed(n, a, b, Directory(true, [a, b]));
  }

  lemma ResolvePairListed(n: nat, a: string, b: string, dir: Directory)
    requires Accepted(n, a) && Accepted(n, b) && KeyLess(Key(a), Key(b))
    requires dir.present && forall x :: x in dir.entries <==> x in [a, b]
    ensures Resolve(dir, n) == [a, b]
  {
    var r := Resolve(dir, n);
    forall x ensures x in r <==> x in [a, b] {
      ResolveMembership(dir, n, x);
    }
    PairSorted(a, b);
    ResolveNoDuplicates(dir, n);
    ResolveSorted(dir, n);
    SortedUnique(r, [a, b]);
  }

  /** For number 1, `12_intro.pdf` is not taken for one of its files. */
  lemma ResolveSkipsLongerNumber(dir: Directory)
    requires dir == Directory(true, ["1.pdf", "12_intro.pdf"])
    ensures Resolve(dir, 1) == ["1.pdf"]
  {
    assert DecimalString(1) == "1";
    assert Accepted(1, "1.pdf");
    var other := "12_intro.pdf";
    assert !GlobMatches(1, other) by {
      assert (DecimalString(1) + "_")[1] == '_' && other[..2][1] == '2';
    }
    ResolveOnly(dir, 1, "1.pdf");
  }

  lemma PageNameAccepted(name: string, d: char)
    requires IsDigit(d) && name == "7_PAGE" + [d] + ".pdf"
    ensures Accepted(7, name)
  {
    var middle := "PAGE" + [d];
    assert DecimalString(7) == "7";
    assert name == DecimalString(7) + "_" + middle + ".pdf";
    GlobOfNumberedName(7, middle);
    PatternOfNumberedName(7, middle);
  }

  lemma PageNameKey(name: string, d: char)
    requires IsDigit(d) && name == "7_PAGE" + [d] + ".pdf"
    ensures Accepted(7, name)
    ensures Key(name).page == DigitValue(d)
  {
    PageNameAccepted(name, d);
    var middle := "PAGE" + [d];
    var stem := "7_" + middle;
    assert name == stem + ".pdf";
    StemOfPdf(stem);
    assert MarkerAt(stem, 1);
    assert !MarkerAt(stem, 0) by { assert stem[0] == '7'; }
    PageIndexFirstMarker(stem, 1);
    assert stem[6..] == [d];
    assert DigitRun([d]) == [d];
  }

  /** `7_PAGE1.pdf` comes before `7_PAGE2.pdf`, though listed after it. */
  lemma ResolveByPage(a: string, b: string)
    requires a == "7_PAGE1.pdf" && b == "7_PAGE2.pdf"
    ensures Resolve(Directory(true, [b, a]), 7) == [a, b]
  {
    PageNameKey(a, '1');
    PageNameKey(b, '2');
    ResolvePair(7, a, b);
  }

  lemma PlainNameAccepted(name: string, c: char)
    requires 'a' <= c <= 'z' && name == "7_" + [c] + ".pdf"
    ensures Accepted(7, name)
  {
    assert DecimalString(7) == "7";
    assert name == DecimalString(7) + "_" + [c] + ".pdf";
    GlobOfNumberedName(7, [c]);
    PatternOfNumberedName(7, [c]);
  }

  lemma PlainNameKey(name: string, c: char)
    requires 'a' <= c <= 'z' && name == "7_" + [c] + ".pdf"
    ensures Accepted(7, name)
    ensures Key(name) == SortKey(0, name)
  {
    PlainNameAccepted(name, c);
    var stem := "7_" + [c];
    assert name == stem + ".pdf";
    StemOfPdf(stem);
    PageIndexNoMarker(stem);
    var l := Lower(name);
    assert forall k :: 0 <= k < |name| ==> l[k] == LowerChar(name[k]) == name[k];
  }

  lemma PlainNamesOrdered(a: string, b: string)
    requires a == "7_a.pdf" && b == "7_b.pdf"
    ensures StrLess(a, b)
  {
    assert StrLess(a[2..], b[2..]);
    assert StrLess(a[1..], b[1..]);
  }

  /** Without page markers the lower-cased names decide: `7_a.pdf` before
      `7_b.pdf`, though listed after it. */
  lemma ResolveByName(a: string, b: string)
    requires a == "7_a.pdf" && b == "7_b.pdf"
    ensures Resolve(Directory(true, [b, a]), 7) == [a, b]
  {
    PlainNameKey(a, 'a');
    PlainNameKey(b, 'b');
    PlainNamesOrdered(a, b);
    ResolvePair(7, a, b);
  }

  // ---------------------------------------------------------------------
  // The merge step

  lemma PlanOfNothing(dir: Directory)
    ensures ToMerge(dir, []) == [] && Missing(dir, []) == []
  {
    assert Resolutions(dir, []) == [];
  }

  lemma PartialResolutions(dir: Directory, one: string, three: string)
    requires one == "1.pdf" && three == "3.pdf" && dir == Directory(true, [one, three])
    ensures Resolve(dir, 1) == [one] && Resolve(dir, 2) == [] && Resolve(dir, 3) == [three]
  {
    assert DecimalString(1) == "1" && DecimalString(3) == "3";
    assert !GlobMatches(1, three) && !GlobMatches(3, one);
    ResolveOnly(dir, 1, one);
    ResolveOnly(dir, 3, three);
    NothingForTwo(dir, one, three);
  }

  lemma NothingForTwo(dir: Directory, one: string, three: string)
    requires one == "1.pdf" && three == "3.pdf" && dir == Directory(true, [one, three])
    ensures Resolve(dir, 2) == []
  {
    assert DecimalString(2) == "2";
    assert ExactName(2)[0] == '2' != one[0] && three[0] != '2';
    assert !GlobMatches(2, one) && !GlobMatches(2, three);
    ResolveNone(dir, 2);
  }

  lemma PartialCollected(dir: Directory, one: string, three: string)
    requires one == "1.pdf" && three == "3.pdf" && dir == Directory(true, [one, three])
    ensures ToMerge(dir, [1, 2, 3]) == [one, three] && Missing(dir, [1, 2, 3]) == [2]
  {
    PartialResolutions(dir, one, three);
    PlanOfNothing(dir);
    ToMergeExtend(dir, [], 1);
    ToMergeExtend(dir, [1], 2);
    ToMergeExtend(dir, [1, 2], 3);
    assert [1] + [2] == [1, 2] && [1, 2] + [3] == [1, 2, 3];
  }

  /** Files for 1 and 3 but none for 2: a partial success that reports 2
      missing. */
  lemma PlanPartial(dir: Directory, raw: string, one: string, three: string)
    requires one == "1.pdf" && three == "3.pdf" && dir == Directory(true, [one, three])
    requires raw == "1-3"
    ensures PlanFor(dir, raw) == Ready([one, three], [2])
  {
    ParseAscendingRange(raw);
    PartialCollected(dir, one, three);
  }

  /** With no files at all, the error lists both requested numbers. */
  lemma PlanNothingFound(dir: Directory, raw: string)
    requires dir == Directory(true, []) && raw == "9 10"
    ensures PlanFor(dir, raw) == NoFilesFound([9, 10])
  {
    assert DecimalString(9) == raw[..1];
    assert DecimalString(10) == DecimalString(1) + "0" == raw[2..];
    assert raw == raw[..1] + [raw[1]] + raw[2..];
    ParseAtSeparator(raw[..1], ' ', raw[2..]);
    ParseNumeral(9);
    ParseNumeral(10);
    ResolveNone(dir, 9);
    ResolveNone(dir, 10);
    PlanOfNothing(dir);
    ToMergeExtend(dir, [], 9);
    ToMergeExtend(dir, [9], 10);
    assert [9] + [10] == [9, 10];
  }
}
