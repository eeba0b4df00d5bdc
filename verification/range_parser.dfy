/** The number-selection parser (`parse_hymn_numbers`): free text becomes an
    ordered sequence of hymn numbers. Tokens are the maximal runs of
    non-separator characters; a token `a-b` expands into an inclusive run,
    a token of one to four digits is a single number, anything else is
    dropped. */
module RangeParser {
  import opened Text

  /** The character class `[\s,;]` of the split. */
  predicate IsSeparator(c: char) {
    IsSpace(c) || c == ',' || c == ';'
  }

  predicate SeparatorFree(s: string) {
    forall i :: 0 <= i < |s| ==> !IsSeparator(s[i])
  }

  /** One to four ASCII digits: the pattern `\d{1,4}`. */
  predicate IsNumeral(s: string) {
    1 <= |s| <= 4 && AllDigits(s)
  }

  // ---------------------------------------------------------------------
  // Tokenising: `re.split(r"[\s,;]+", raw)` with empty pieces skipped

  function Flush(cur: string): seq<string> {
    if cur == [] then [] else [cur]
  }

  /** Split s, with `cur` the token read so far. */
  function SplitFrom(s: string, cur: string): seq<string>
    decreases |s|
  {
    if s == [] then Flush(cur)
    else if IsSeparator(s[0]) then Flush(cur) + SplitFrom(s[1..], [])
    else SplitFrom(s[1..], cur + [s[0]])
  }

  /** The pieces of the split, empty ones skipped: each is non-empty and
      holds no separator. */
  function Tokens(s: string): (r: seq<string>)
    ensures forall i :: 0 <= i < |r| ==> r[i] != [] && SeparatorFree(r[i])
  {
    SplitFromWellFormed(s, []);
    SplitFrom(s, [])
  }

  /** Every token is non-empty and holds no separator. */
  lemma {:induction false} SplitFromWellFormed(s: string, cur: string)
    requires SeparatorFree(cur)
    ensures forall t :: t in SplitFrom(s, cur) ==> t != [] && SeparatorFree(t)
    decreases |s|
  {
    if s != [] {
      if IsSeparator(s[0]) {
        SplitFromWellFormed(s[1..], []);
      } else {
        SplitFromWellFormed(s[1..], cur + [s[0]]);
      }
    }
  }

  lemma {:induction false} SplitFromSeparatorFree(s: string, cur: string)
    requires SeparatorFree(s)
    ensures SplitFrom(s, cur) == Flush(cur + s)
    decreases |s|
  {
    if s == [] {
      assert cur + s == cur;
    } else {
      assert cur + s == (cur + [s[0]]) + s[1..];
      SplitFromSeparatorFree(s[1..], cur + [s[0]]);
    }
  }

  /** A non-empty text without separators is one token. */
  lemma TokensOfSeparatorFree(s: string)
    requires s != [] && SeparatorFree(s)
    ensures Tokens(s) == [s]
  {
    SplitFromSeparatorFree(s, []);
    assert [] + s == s;
  }

  lemma {:induction false} SplitFromAtSeparator(a: string, c: char, b: string, cur: string)
    requires IsSeparator(c)
    ensures SplitFrom(a + [c] + b, cur) == SplitFrom(a, cur) + Tokens(b)
    decreases |a|
  {
    if a == [] {
      assert a + [c] + b == [c] + b;
    } else {
      assert (a + [c] + b)[1..] == a[1..] + [c] + b;
      if IsSeparator(a[0]) {
        SplitFromAtSeparator(a[1..], c, b, []);
      } else {
        SplitFromAtSeparator(a[1..], c, b, cur + [a[0]]);
      }
    }
  }

  /** A separator cuts the text into two independently tokenised halves. */
  lemma TokensAtSeparator(a: string, c: char, b: string)
    requires IsSeparator(c)
    ensures Tokens(a + [c] + b) == Tokens(a) + Tokens(b)
  {
    SplitFromAtSeparator(a, c, b, []);
  }

  /** A text made only of separators has no tokens. */
  lemma {:induction false} TokensOfSeparators(s: string, cur: string)
    requires forall i :: 0 <= i < |s| ==> IsSeparator(s[i])
    ensures SplitFrom(s, cur) == Flush(cur)
    decreases |s|
  {
    if s != [] {
      TokensOfSeparators(s[1..], []);
    }
  }

  /** Texts that differ only in which separator characters they use have
      the same tokens: "1,2;3" and "1 2 3" are alike. */
  lemma {:induction false} TokensIgnoreSeparatorKind(s: string, s': string, cur: string)
    requires |s| == |s'|
    requires forall i :: 0 <= i < |s| ==> (s[i] == s'[i] || (IsSeparator(s[i]) && IsSeparator(s'[i])))
    ensures SplitFrom(s, cur) == SplitFrom(s', cur)
    decreases |s|
  {
    if s != [] {
      if IsSeparator(s[0]) {
        TokensIgnoreSeparatorKind(s[1..], s'[1..], []);
      } else {
        TokensIgnoreSeparatorKind(s[1..], s'[1..], cur + [s[0]]);
      }
    }
  }

  /** Leading and trailing whitespace does not change the tokens, so the
      `strip()` before the split is harmless. */
  lemma StripKeepsTokens(s: string)
    ensures Tokens(Strip(s)) == Tokens(s)
  {
    StripLeftKeepsTokens(s);
    StripRightKeepsTokens(StripLeft(s));
  }

  lemma {:induction false} StripLeftKeepsTokens(s: string)
    ensures Tokens(StripLeft(s)) == Tokens(s)
    decreases |s|
  {
    if s != [] && IsSpace(s[0]) {
      assert s == [] + [s[0]] + s[1..];
      TokensAtSeparator([], s[0], s[1..]);
      TokensOfSeparators([], []);
      StripLeftKeepsTokens(s[1..]);
    }
  }

  lemma {:induction false} StripRightKeepsTokens(s: string)
    ensures Tokens(StripRight(s)) == Tokens(s)
    decreases |s|
  {
    if s != [] && IsSpace(s[|s| - 1]) {
      var n := |s|;
      assert s == s[..n - 1] + [s[n - 1]] + [];
      TokensAtSeparator(s[..n - 1], s[n - 1], []);
      TokensOfSeparators([], []);
      StripRightKeepsTokens(s[..n - 1]);
    }
  }

  // ---------------------------------------------------------------------
  // Classifying a token

  /** What a token means: `a-b` with two numerals, a single numeral, or
      nothing. */
  datatype Token = Single(n: nat) | Span(first: nat, last: nat) | Ignored

  /** Index of the first '-' in s, or |s| when there is none. */
  function HyphenIndex(s: string): (i: nat)
    ensures i <= |s| && (i < |s| ==> s[i] == '-')
    ensures forall k :: 0 <= k < i ==> s[k] != '-'
  {
    if s == [] then 0
    else if s[0] == '-' then 0
    else 1 + HyphenIndex(s[1..])
  }

  /** `re.fullmatch(r"(\d{1,4})-(\d{1,4})", tok)` first, then
      `re.fullmatch(r"\d{1,4}", tok)`. Digits contain no '-', so a range
      token splits at its first hyphen. */
  function Classify(tok: string): (r: Token)
    ensures r.Single? ==> r.n <= 9999
    ensures r.Span? ==> r.first <= 9999 && r.last <= 9999
  {
    var h := HyphenIndex(tok);
    if h < |tok| && IsNumeral(tok[..h]) && IsNumeral(tok[h + 1..]) then
      NumeralValue(tok[..h]);
      NumeralValue(tok[h + 1..]);
      Span(DigitsValue(tok[..h]), DigitsValue(tok[h + 1..]))
    else if IsNumeral(tok) then
      NumeralValue(tok);
      Single(DigitsValue(tok))
    else
      Ignored
  }

  /** At most four digits read at most 9999. */
  lemma NumeralValue(s: string)
    requires IsNumeral(s)
    ensures DigitsValue(s) <= 9999
  {
    assert Pow10(4) == 10000;
    Pow10Monotone(|s|, 4);
  }

  /** Two numerals joined by a hyphen form a range token. */
  lemma ClassifyRange(d1: string, d2: string)
    requires IsNumeral(d1) && IsNumeral(d2)
    ensures Classify(d1 + "-" + d2) == Span(DigitsValue(d1), DigitsValue(d2))
  {
    var tok := d1 + "-" + d2;
    assert tok[|d1|] == '-';
    assert forall k :: 0 <= k < |d1| ==> tok[k] == d1[k] && tok[k] != '-';
    var h := HyphenIndex(tok);
    assert h == |d1|;
    assert tok[..h] == d1 && tok[h + 1..] == d2;
  }

  /** A range token has exactly that shape: a numeral, a hyphen, a numeral. */
  lemma ClassifySpanShape(tok: string)
    requires Classify(tok).Span?
    ensures exists i :: 0 <= i < |tok| && tok[i] == '-' && IsNumeral(tok[..i]) && IsNumeral(tok[i + 1..])
              && Classify(tok) == Span(DigitsValue(tok[..i]), DigitsValue(tok[i + 1..]))
  {
    var h := HyphenIndex(tok);
    assert tok[h] == '-';
  }

  /** A token is a single number exactly when it is one numeral. */
  lemma ClassifySingle(tok: string, n: nat)
    ensures Classify(tok) == Single(n) <==> IsNumeral(tok) && n == DigitsValue(tok)
  {
    if IsNumeral(tok) {
      assert forall k :: 0 <= k < |tok| ==> tok[k] != '-';
    }
  }

  // ---------------------------------------------------------------------
  // Expanding a token: `list(range(start, end + step, step))`

  /** a, a+1, ..., b. */
  function Ascending(a: nat, b: nat): (r: seq<nat>)
    requires a <= b
    ensures |r| == b - a + 1
    decreases b - a
  {
    if a == b then [a] else [a] + Ascending(a + 1, b)
  }

  /** a, a-1, ..., b. */
  function Descending(a: nat, b: nat): (r: seq<nat>)
    requires b <= a
    ensures |r| == a - b + 1
    decreases a - b
  {
    if a == b then [a] else [a] + Descending(a - 1, b)
  }

  lemma {:induction false} AscendingElements(a: nat, b: nat)
    requires a <= b
    ensures forall k :: 0 <= k < |Ascending(a, b)| ==> Ascending(a, b)[k] == a + k
    decreases b - a
  {
    if a < b {
      AscendingElements(a + 1, b);
    }
  }

  lemma {:induction false} DescendingElements(a: nat, b: nat)
    requires b <= a
    ensures forall k :: 0 <= k < |Descending(a, b)| ==> Descending(a, b)[k] == a - k
    decreases a - b
  {
    if b < a {
      DescendingElements(a - 1, b);
    }
  }

  /** The numbers one token contributes: nothing exactly for an ignored
      token, and a range from its first bound to its last. */
  function Expand(t: Token): (r: seq<nat>)
    ensures r == [] <==> t.Ignored?
    ensures t.Span? ==> r[0] == t.first && r[|r| - 1] == t.last
  {
    match t
    case Single(n) => [n]
    case Span(a, b) =>
      if b >= a then
        AscendingElements(a, b);
        Ascending(a, b)
      else
        DescendingElements(a, b);
        Descending(a, b)
    case Ignored => []
  }

  /** A range runs from its first bound to its last, one step at a time,
      up when `b >= a` and down otherwise; `a-a` is just `[a]`. */
  lemma SpanExpansion(a: nat, b: nat)
    ensures |Expand(Span(a, b))| == (if b >= a then b - a else a - b) + 1
    ensures Expand(Span(a, b))[0] == a && Expand(Span(a, b))[|Expand(Span(a, b))| - 1] == b
    ensures b >= a ==> forall k :: 0 <= k < |Expand(Span(a, b))| ==> Expand(Span(a, b))[k] == a + k
    ensures b < a ==> forall k :: 0 <= k < |Expand(Span(a, b))| ==> Expand(Span(a, b))[k] == a - k
    ensures a == b ==> Expand(Span(a, b)) == [a]
  {
    if b >= a {
      AscendingElements(a, b);
    } else {
      DescendingElements(a, b);
    }
  }

  // ---------------------------------------------------------------------
  // The whole parse

  /** The parts, one after another. */
  function Concat(parts: seq<seq<nat>>): seq<nat> {
    if parts == [] then []
    else Concat(parts[..|parts| - 1]) + parts[|parts| - 1]
  }

  lemma ConcatSnoc(parts: seq<seq<nat>>, last: seq<nat>)
    ensures Concat(parts + [last]) == Concat(parts) + last
  {
    assert (parts + [last])[..|parts|] == parts;
  }

  lemma {:induction false} ConcatAppend(p: seq<seq<nat>>, q: seq<seq<nat>>)
    ensures Concat(p + q) == Concat(p) + Concat(q)
    decreases |q|
  {
    if q == [] {
      assert p + q == p;
    } else {
      var k := |q|;
      assert q == q[..k - 1] + [q[k - 1]];
      assert p + q == (p + q[..k - 1]) + [q[k - 1]];
      ConcatSnoc(p + q[..k - 1], q[k - 1]);
      ConcatSnoc(q[..k - 1], q[k - 1]);
      ConcatAppend(p, q[..k - 1]);
    }
  }

  /** Each token's expansion. */
  function Expansions(toks: seq<string>): (parts: seq<seq<nat>>)
    ensures |parts| == |toks|
  {
    seq(|toks|, i requires 0 <= i < |toks| => Expand(Classify(toks[i])))
  }

  /** The numbers of a token sequence: each token's expansion, in order. */
  function Numbers(toks: seq<string>): seq<nat> {
    Concat(Expansions(toks))
  }

  /** `parse_hymn_numbers(raw)`: every number it yields has at most four
      digits. */
  function Parse(raw: string): (r: seq<nat>)
    ensures forall x :: x in r ==> x <= 9999
  {
    NumbersBounded(Tokens(raw));
    Numbers(Tokens(raw))
  }

  lemma NumbersSnoc(toks: seq<string>, tok: string)
    ensures Numbers(toks + [tok]) == Numbers(toks) + Expand(Classify(tok))
  {
    assert Expansions(toks + [tok]) == Expansions(toks) + [Expand(Classify(tok))];
    ConcatSnoc(Expansions(toks), Expand(Classify(tok)));
  }

  /** The numbers of two token sequences one after the other are the
      numbers of the first followed by those of the second. */
  lemma NumbersAppend(x: seq<string>, y: seq<string>)
    ensures Numbers(x + y) == Numbers(x) + Numbers(y)
  {
    assert Expansions(x + y) == Expansions(x) + Expansions(y);
    ConcatAppend(Expansions(x), Expansions(y));
  }

  /** Empty, whitespace-only or separator-only input gives no numbers. */
  lemma ParseBlank(raw: string)
    requires forall i :: 0 <= i < |raw| ==> IsSeparator(raw[i])
    ensures Parse(raw) == []
  {
    TokensOfSeparators(raw, []);
  }

  /** Order and duplicates are kept: the numbers of two texts joined by a
      separator are the numbers of the first followed by those of the
      second. */
  lemma ParseAtSeparator(a: string, c: char, b: string)
    requires IsSeparator(c)
    ensures Parse(a + [c] + b) == Parse(a) + Parse(b)
  {
    TokensAtSeparator(a, c, b);
    NumbersAppend(Tokens(a), Tokens(b));
  }

  /** A single token contributes its expansion. */
  lemma ParseToken(tok: string)
    requires tok != [] && SeparatorFree(tok)
    ensures Parse(tok) == Expand(Classify(tok))
  {
    TokensOfSeparatorFree(tok);
    NumbersSnoc([], tok);
    assert [] + [tok] == [tok];
  }

  /** Mixed separators give the same numbers. */
  lemma ParseIgnoresSeparatorKind(s: string, s': string)
    requires |s| == |s'|
    requires forall i :: 0 <= i < |s| ==> (s[i] == s'[i] || (IsSeparator(s[i]) && IsSeparator(s'[i])))
    ensures Parse(s) == Parse(s')
  {
    TokensIgnoreSeparatorKind(s, s', []);
  }

  lemma NumeralSeparatorFree(d: string)
    requires AllDigits(d)
    ensures SeparatorFree(d) && forall k :: 0 <= k < |d| ==> d[k] != '-'
  {
  }

  lemma JoinedNumeralsSeparatorFree(d1: string, d2: string)
    requires AllDigits(d1) && AllDigits(d2)
    ensures SeparatorFree(d1 + "-" + d2)
  {
    var tok := d1 + "-" + d2;
    forall i | 0 <= i < |tok| ensures !IsSeparator(tok[i]) {
      if i < |d1| {
        assert tok[i] == d1[i];
      } else if i > |d1| {
        assert tok[i] == d2[i - |d1| - 1];
      }
    }
  }

  /** The numeral of a number below 10000 parses back to that number. */
  lemma ParseNumeral(n: nat)
    requires n <= 9999
    ensures Parse(DecimalString(n)) == [n]
  {
    var d := DecimalString(n);
    DecimalStringLength(n);
    DecimalStringRoundTrip(n);
    NumeralSeparatorFree(d);
    ParseToken(d);
    ClassifySingle(d, n);
  }

  /** `a-b` written with the numerals of a and b parses to the run from a
      to b. */
  lemma ParseRange(a: nat, b: nat)
    requires a <= 9999 && b <= 9999
    ensures Parse(DecimalString(a) + "-" + DecimalString(b)) == Expand(Span(a, b))
  {
    var d1, d2 := DecimalString(a), DecimalString(b);
    DecimalStringLength(a);
    DecimalStringLength(b);
    DecimalStringRoundTrip(a);
    DecimalStringRoundTrip(b);
    var tok := d1 + "-" + d2;
    JoinedNumeralsSeparatorFree(d1, d2);
    ParseToken(tok);
    ClassifyRange(d1, d2);
  }

  lemma ExpandBounded(t: Token)
    requires t.Single? ==> t.n <= 9999
    requires t.Span? ==> t.first <= 9999 && t.last <= 9999
    ensures forall x :: x in Expand(t) ==> x <= 9999
  {
    if t.Span? {
      SpanExpansion(t.first, t.last);
      var r := Expand(t);
      forall x | x in r ensures x <= 9999 {
        var k :| 0 <= k < |r| && r[k] == x;
      }
    }
  }

  /** Every parsed number has at most four digits. */
  lemma {:induction false} NumbersBounded(toks: seq<string>)
    ensures forall x :: x in Numbers(toks) ==> x <= 9999
  {
    if toks != [] {
      NumbersBounded(toks[..|toks| - 1]);
      var tok := toks[|toks| - 1];
      assert toks == toks[..|toks| - 1] + [tok];
      NumbersSnoc(toks[..|toks| - 1], tok);
      ExpandBounded(Classify(tok));
    }
  }

  // ---------------------------------------------------------------------
  // The parser as the source runs it

  /** `parse_hymn_numbers`: strip, split, then extend `nums` token by
      token. */
  method ParseHymnNumbers(raw: string) returns (nums: seq<nat>)
    ensures nums == Parse(raw)
    ensures forall x :: x in nums ==> x <= 9999
  {
    var text := Strip(raw);
    StripKeepsTokens(raw);
    if text == [] {
      return [];
    }
    var tokens := Tokens(text);
    nums := [];
    for i := 0 to |tokens|
      invariant nums == Numbers(tokens[..i])
    {
      var tok := tokens[i];
      assert tokens[..i + 1] == tokens[..i] + [tok];
      NumbersSnoc(tokens[..i], tok);
      if tok == [] {
        continue;
      }
      match Classify(tok) {
        case Span(start, end) =>
          nums := nums + (if end >= start then Ascending(start, end) else Descending(start, end));
        case Single(n) =>
          nums := nums + [n];
        case Ignored =>
      }
    }
    assert tokens[..|tokens|] == tokens;
  }
}
