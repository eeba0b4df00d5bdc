# Hymn combiner core, modelled in Dafny

The hymn combiner is a desktop tool. The user types hymn numbers and ranges
(`1-3, 7; 12`). The tool finds the PDF files for each hymn in a source
directory and merges them into one PDF. This project models the part of
`app.py` that decides which files are merged and in which order:

- **the range parser** `parse_hymn_numbers` (module `RangeParser`):
  - strips the text and splits it on runs of whitespace, `,` and `;`;
  - expands `a-b` tokens up or down;
  - keeps bare numerals of 1 to 4 digits;
  - drops every other token.
- **the file resolver** `pdf_paths_for_hymn` (modules `FileResolver` and `PageOrder`):
  - takes the exact file `N.pdf`;
  - takes the glob hits `N_*.pdf` that the pattern `^N(?:\.|_).+\.pdf$` (any letter case) confirms;
  - removes repeats;
  - sorts by the page index of the first `_PAGE<digits>` in the stem, then by the lower-cased name.
- **the aggregation step** of `HymnCombinerApp.merge_pdfs` (module `MergePlan`). It parses once, resolves every number in order, collects `to_merge` and `missing`, and ends in one of:
  - the "no valid hymn numbers" error;
  - the "no PDF files found" error, carrying the missing numbers;
  - a possibly partial success.
- **the checks of `start_merge`** (module `MergeRequest`):
  - both fields must be non-blank;
  - the output name gets `.pdf` unless it already ends in `.pdf` in any letter case.

Shared pieces live in `Text`:

- ASCII whitespace, digits and lower-casing;
- `f"{n}"` and `int()` on numerals;
- `strip()`;
- Python's `<` on strings.

`WorkedCases` checks the model on small concrete inputs: numerals, ranges, garbage tokens, prefix collisions, page order and partial merges.

The imperative parts of the source are methods with loops:

- `ParseHymnNumbers` extends `nums` token by token;
- `PdfPathsForHymn` appends to `matches` over the directory listing;
- `MergePdfsPlan` extends `to_merge` and appends to `missing`.

Each method is proved equal to a specification function:

- `Parse` for `ParseHymnNumbers`;
- `Resolve` for `PdfPathsForHymn`;
- `PlanFor` for `MergePdfsPlan`.

Lemmas state what each function promises. The sort key, the `set`/`sorted` step and the suffix check are pure functions.

The source directory is a value `Directory(present, entries)`. `present` stands for `pdf_dir.exists()`. `entries` lists the names in the order the directory yields them. Glob matching, like pathlib on POSIX, is case-sensitive. `.pdf` in the confirming pattern is case-insensitive.

Some details of the model:

- **Deduplication.** `set(matches)` keeps each name once; `Dedup` keeps the first occurrence.
- **Sorting.** `sorted` is modelled as a stable insertion sort on the key.
- **Ties.** Two different names tie only when they differ in letter case alone. Python then follows the `set`'s iteration order; the model follows the listing order. `FileResolver.ResolveIgnoresListingOrder` shows this is the only place where the order matters: without such names the result does not depend on the listing order.
- **The "Missing:" guard.** The "no files found" branch adds its "Missing:" line only `if missing`. `MergePlan.PlanNoFilesFound` shows that the guard always holds there.

## Model

| member | source | states |
|---|---|---|
| Text.IsSpace | app.py:37-41 | the whitespace of `strip()` and of `\s` in the split: space, tab through carriage return, and U+001C to U+001F; `Strip` and `Tokens` are built on it |
| Text.Blank | app.py:37-38 | `not x.strip()`: every character is whitespace; `Strip`'s ensures makes the stripped text empty exactly then |
| Text.DecimalString | app.py:66-67 | `f"{n}"`: at least one ASCII digit, no leading zero unless n is 0, and its length is the number of decimal digits of n |
| Text.DecimalStringRoundTrip | app.py:49-50 | `int()` of the numeral of n is n |
| Text.DecimalStringInjective | app.py:66-67 | different numbers have different numerals |
| Text.DecimalStringLength | app.py:47 | a number up to 9999 has a numeral of at most four digits |
| Text.DigitRun | app.py:78 | the longest digit prefix: all digits, and the next character (if any) is not a digit |
| Text.DigitRunOfPrefix | app.py:78 | a numeral followed by a non-digit has exactly that numeral as its digit run |
| Text.DigitsValue | app.py:49-50 | `int()` of a numeral of k digits is below 10^k |
| Text.Strip | app.py:37 | `strip()` is empty exactly when the text is all whitespace, and otherwise starts and ends with a non-space |
| Text.StripLeft | app.py:37 | drops exactly the leading whitespace, keeping a suffix of the text |
| Text.StripRight | app.py:37 | drops exactly the trailing whitespace, keeping a prefix of the text |
| Text.Lower | app.py:80 | `lower()` keeps the length |
| Text.LowerChars | app.py:80 | `lower()` leaves no upper-case ASCII letter, maps each of `A`-`Z` to its own lower-case letter (code point plus 32) and keeps every other character |
| Text.LowerAppend | app.py:80 | lower-casing distributes over concatenation |
| Text.StrLess | app.py:80-82 | Python's `<` on strings: first differing code point decides, a proper prefix comes first; a strict total order by the three lemmas that follow |
| Text.StrLessIrreflexive | app.py:80-82 | Python's string `<` is irreflexive |
| Text.StrLessTransitive | app.py:80-82 | Python's string `<` is transitive |
| Text.StrLessTotal | app.py:80-82 | any two different strings are ordered one way or the other |
| RangeParser.IsSeparator | app.py:41 | the class `[\s,;]`: whitespace, `,` or `;`; `TokensAtSeparator` and `TokensIgnoreSeparatorKind` show that any one of them cuts the text and that they cut alike |
| RangeParser.Tokens | app.py:41 | every piece of the split, empty pieces skipped, is non-empty and holds no separator |
| RangeParser.TokensOfSeparatorFree | app.py:41 | a non-empty text without separators is a single token |
| RangeParser.TokensAtSeparator | app.py:41 | a separator cuts the text into two halves that are split independently |
| RangeParser.TokensOfSeparators | app.py:41-45 | a text made only of separators has no tokens |
| RangeParser.TokensIgnoreSeparatorKind | app.py:41 | replacing separators by other separators does not change the tokens |
| RangeParser.StripKeepsTokens | app.py:37-41 | stripping before the split does not change the tokens |
| RangeParser.IsNumeral | app.py:47-55 | `\d{1,4}`: one to four ASCII digits; `ClassifySingle` makes it exactly the tokens taken as a single number |
| RangeParser.HyphenIndex | app.py:47 | the index of the first `-`, or the length when there is none |
| RangeParser.Classify | app.py:47-56 | a token is a range, a single number or ignored, and every number it names is at most 9999 |
| RangeParser.NumeralValue | app.py:47 | a numeral of 1-4 digits has a value of at most 9999 |
| RangeParser.ClassifyRange | app.py:47-50 | two numerals of 1-4 digits joined by `-` form the range of their values |
| RangeParser.ClassifySpanShape | app.py:47-50 | a range token is exactly numeral, `-`, numeral, with those values as bounds |
| RangeParser.ClassifySingle | app.py:55-56 | a token is a single number exactly when it is a numeral of 1-4 digits, with its value |
| RangeParser.Ascending | app.py:51-52 | `range(a, b + 1)` has b - a + 1 elements |
| RangeParser.Descending | app.py:51-52 | `range(a, b - 1, -1)` has a - b + 1 elements |
| RangeParser.AscendingElements | app.py:51-52 | the k-th element of an upward range is a + k |
| RangeParser.DescendingElements | app.py:51-52 | the k-th element of a downward range is a - k |
| RangeParser.Expand | app.py:51-52 | an ignored token contributes nothing and any other token something; a range starts at its first bound and ends at its second |
| RangeParser.SpanExpansion | app.py:47-52 | `a-b` gives \|b - a\| + 1 numbers from a to b, stepping up when b >= a and down otherwise; `a-a` gives just a |
| RangeParser.Numbers | app.py:42-58 | the `nums` accumulation: each token's expansion in token order; `NumbersSnoc` and `NumbersAppend` state that it extends at the end and keeps what came before |
| RangeParser.ConcatAppend | app.py:43-56 | concatenating the expansions of two token lists is concatenating the two results |
| RangeParser.NumbersSnoc | app.py:43-56 | one more token appends its own expansion and changes nothing before it |
| RangeParser.NumbersAppend | app.py:43-56 | the numbers of two token lists in a row are the first's numbers followed by the second's |
| RangeParser.ParseBlank | app.py:37-39 | empty, whitespace-only or separator-only input gives no numbers |
| RangeParser.ParseAtSeparator | app.py:41-58 | order and repeats are kept: text joined at a separator parses to the two parses one after the other |
| RangeParser.ParseToken | app.py:43-56 | a single token contributes exactly its expansion |
| RangeParser.ParseIgnoresSeparatorKind | app.py:41 | commas, semicolons and whitespace separate alike |
| RangeParser.ParseNumeral | app.py:55-56 | the numeral of any n up to 9999 parses to [n] |
| RangeParser.ParseRange | app.py:47-52 | `a-b` for numbers up to 9999 parses to the expansion of the range |
| RangeParser.ExpandBounded | app.py:47-56 | a token with bounds up to 9999 expands to numbers up to 9999 |
| RangeParser.NumbersBounded | app.py:47-56 | every number from any token list is at most 9999 |
| RangeParser.Parse | app.py:35-58 | every parsed number lies in 0..9999 |
| RangeParser.ParseHymnNumbers | app.py:35-58 | the loop over the tokens yields exactly `Parse(raw)`, and every number is at most 9999 |
| PageOrder.LastDot | app.py:78 | the position of the last `.`, with no `.` after it, or -1 |
| PageOrder.StemOfPdf | app.py:78 | the stem of `base.pdf` is `base` |
| PageOrder.Stem | app.py:78 | `Path(name).stem` is never longer than the name; when it differs, it is non-empty and cut at a `.` that is followed by at least one character |
| PageOrder.MarkerAt | app.py:78 | `_PAGE` in any letter case followed by a digit, at a given position; `PageIndexFirstMarker` shows the leftmost one decides the page |
| PageOrder.PageIndexFrom | app.py:78-79 | a page other than 0 found from position i needs room after i for `_PAGE` and a digit |
| PageOrder.PageIndex | app.py:78-79 | a page other than 0 needs a stem of at least six characters, room for `_PAGE` and a digit |
| PageOrder.PageIndexFirstMarker | app.py:78-79 | the leftmost `_PAGE<digit>` (any case) decides the page: its whole digit run, read as a number |
| PageOrder.PageIndexNoMarker | app.py:79 | without a marker the page is 0 |
| PageOrder.Key | app.py:77-80 | the key's lower-cased name has the name's length, and a page other than 0 needs a name of at least six characters |
| PageOrder.KeyLess | app.py:80-82 | Python's `<` on `(page, lower-cased name)` tuples: page first, then the folded names; a strict total order by the KeyLess lemmas that follow |
| PageOrder.KeyLessIrreflexive | app.py:80-82 | the tuple order on `(page, lower-cased name)` is irreflexive |
| PageOrder.KeyLessTransitive | app.py:80-82 | the tuple order is transitive |
| PageOrder.KeyLessTotal | app.py:80-82 | two different keys are ordered one way or the other |
| PageOrder.KeyLessAsymmetric | app.py:80-82 | never both x < y and y < x |
| PageOrder.Dedup | app.py:82 | `set()` keeps at most as many names as it was given |
| PageOrder.DedupKeepsNames | app.py:82 | `set()` keeps every name exactly once |
| PageOrder.InsertByKey | app.py:82 | inserting adds one element |
| PageOrder.SortByKey | app.py:82 | sorting keeps the length |
| PageOrder.InsertByKeyPermutes | app.py:82 | inserting adds exactly x to the multiset |
| PageOrder.SortByKeyPermutes | app.py:82 | `sorted` is a permutation of its input |
| PageOrder.InsertKeepsSorted | app.py:82 | inserting into a sorted list keeps it sorted |
| PageOrder.SortByKeySorted | app.py:77-82 | `sorted(..., key=sort_key)` is in nondecreasing key order |
| PageOrder.MultisetKeepsNoDuplicates | app.py:82 | a permutation of a repeat-free list is repeat-free |
| PageOrder.SameElementsSameLength | app.py:82 | two repeat-free lists with the same names have the same length |
| PageOrder.SortedUnique | app.py:77-82 | two repeat-free sorted lists with the same names are equal once keys tell the names apart |
| FileResolver.ExactName | app.py:67 | `f"{n}.pdf"`; `ResolveFindsExact` shows a listed exact name always yields a result |
| FileResolver.Accepted | app.py:70-75 | the exact name or a glob hit the pattern confirms; `AcceptedIffNumbered` makes it exactly `N.pdf` or `N_<one or more non-line-feed characters>.pdf` |
| FileResolver.GlobHits | app.py:73-75 | the confirmed glob hits in listing order; `GlobHitsMembership` makes a name collected exactly when it is listed and matches both |
| FileResolver.Candidates | app.py:69-75 | `matches` before sorting: the exact name if listed, then the confirmed glob hits; `ResolveMembership` states which names come out of it |
| FileResolver.GlobMatches | app.py:73 | a glob hit for N has exactly the numeral of N as its leading digits |
| FileResolver.NumeralPrefix | app.py:66-73 | a numeral followed by a non-digit is the name's whole digit run |
| FileResolver.PatternMatches | app.py:66-74 | a name the pattern confirms for N has exactly the numeral of N as its leading digits |
| FileResolver.Resolve | app.py:61-82 | a missing directory gives nothing |
| FileResolver.PdfPathsForHymn | app.py:61-82 | the loop over the listing returns exactly `Resolve(dir, n)`, and nothing for a missing directory |
| FileResolver.GlobHitsMembership | app.py:73-75 | a name is collected by the glob loop exactly when it is listed, matches `N_*.pdf` and passes the pattern |
| FileResolver.SortByKeyMembership | app.py:82 | sorting keeps exactly the same names |
| FileResolver.ResolveMembership | app.py:63-75 | a name is returned exactly when the directory exists, lists it, and it is `N.pdf` or a confirmed glob hit |
| FileResolver.ResolveFindsExact | app.py:67-71 | when `N.pdf` is listed, something is returned for N |
| FileResolver.ResolveNoDuplicates | app.py:82 | no name is returned twice |
| FileResolver.ResolveSorted | app.py:77-82 | the result is in nondecreasing (page, lower-cased name) order |
| FileResolver.ConfirmedGlobHitShape | app.py:66-74 | a confirmed glob hit is `N_`, at least one character other than a line feed, then `.pdf` |
| FileResolver.TailOfNumberedName | app.py:66 | `.+\.pdf$` matches any non-empty line-feed-free text followed by `.pdf` |
| FileResolver.GlobOfNumberedName | app.py:73 | every `N_<text>.pdf` passes the glob |
| FileResolver.PatternOfNumberedName | app.py:66-74 | every `N_<text>.pdf` without a line feed passes the pattern |
| FileResolver.AcceptedIffNumbered | app.py:66-75 | the accepted names for N are exactly `N.pdf` and `N_<one or more non-line-feed characters>.pdf` |
| FileResolver.ResolvedNameShape | app.py:66-75 | every returned name has that shape |
| FileResolver.NumberedNameDigits | app.py:66-75 | such a name starts with exactly the numeral of N as its digit run |
| FileResolver.ResolvedNameNumber | app.py:66-75 | a returned name's leading digit run is exactly `f"{n}"`, so `12_intro.pdf` is never returned for 1 |
| FileResolver.ResolveDisjoint | app.py:66-75 | different numbers never share a file |
| FileResolver.ResolveIgnoresListingOrder | app.py:73-82 | with no two listed names differing only in letter case, the result does not depend on the listing order |
| MergePlan.ToMerge | app.py:307-314 | `to_merge`: the files of every requested number, in request order; `ToMergeMembership`, `ToMergeAppend` and `ToMergeExtend` state what it holds and in which order |
| MergePlan.Missing | app.py:306-313 | `missing`: the requested numbers with no files, in request order; `MissingMembership` and `ToMergeExtend` state which numbers and in which order |
| MergePlan.Resolutions | app.py:309-310 | one resolution per requested number |
| MergePlan.PlanFor | app.py:294-321 | no valid numbers exactly when the parse is empty; no files found carries every parsed number; ready merges something, with fewer missing numbers than requests |
| MergePlan.MergePdfsPlan | app.py:294-321 | the loop ends in exactly `PlanFor(dir, hymnInput)`: no valid numbers, no files found with the missing numbers, or ready with the files and the missing numbers |
| MergePlan.FlattenAppend | app.py:309-314 | extending over two runs of numbers concatenates their files |
| MergePlan.MissingOfAppend | app.py:309-313 | the missing numbers of two runs are those of the first followed by those of the second |
| MergePlan.FlattenSnoc | app.py:314 | `to_merge.extend(paths)` appends the new paths at the end |
| MergePlan.MissingOfSnoc | app.py:311-313 | `missing.append(n)` exactly when the new number has no paths |
| MergePlan.FlattenMembership | app.py:309-314 | a file is in the concatenation exactly when it is in one of the parts |
| MergePlan.MissingOfMembership | app.py:309-313 | a number is missing exactly when some position requests it with an empty part |
| MergePlan.MissingOfLength | app.py:309-313 | there are at most as many missing numbers as requests, and as many only when every request is missing |
| MergePlan.FlattenEmpty | app.py:309-316 | nothing to merge exactly when every request is missing |
| MergePlan.ResolutionsAppend | app.py:309-310 | resolving two runs of numbers is resolving each in turn |
| MergePlan.ToMergeAppend | app.py:309-314 | files of earlier numbers come before files of later ones, and missing numbers keep their order |
| MergePlan.ToMergeExtend | app.py:309-314 | one more number adds its files at the end, or itself to `missing` when it has none |
| MergePlan.ToMergeMembership | app.py:309-314 | a file is merged exactly when some requested number resolves to it |
| MergePlan.MissingMembership | app.py:309-313 | a number is missing exactly when it was requested and resolves to nothing |
| MergePlan.ToMergeEmpty | app.py:309-316 | nothing is merged exactly when every requested number is missing |
| MergePlan.PlanNoValidNumbers | app.py:295-298 | the "no valid numbers" error happens exactly when the parse is empty |
| MergePlan.PlanNoFilesFound | app.py:316-321 | the "no files found" error carries every parsed number, so its list is never empty |
| MergePlan.PlanReady | app.py:316-324 | a success merges a non-empty list of listed files, with fewer missing numbers than requests |
| MergeRequest.HasPdfSuffix | app.py:276 | the name ends in `.` followed by `p`, `d` and `f`, each in either letter case |
| MergeRequest.WithPdfSuffix | app.py:276-277 | the result has the suffix; it is the name itself exactly when the name already had the suffix, and otherwise the name followed by exactly `.pdf` |
| MergeRequest.WithPdfSuffixIdempotent | app.py:276-277 | normalising twice is normalising once |
| MergeRequest.StartMerge | app.py:264-277 | a blank hymn field gives the first error; otherwise a blank name gives the second; otherwise the merge starts on the stripped hymn text and on the stripped name with the `.pdf` normalisation applied |
| MergeRequest.StartMergeKeepsNumbers | app.py:266 | the stripped hymn text that is handed on parses to the same numbers as the field |
| WorkedCases.ParseKeepsOrderAndRepeats | app.py:35-58 | "3 1 3" parses to [3, 1, 3] |
| WorkedCases.ParseAscendingRange | app.py:47-52 | "1-3" parses to [1, 2, 3] |
| WorkedCases.ParseDescendingRange | app.py:47-52 | "5-3" parses to [5, 4, 3] |
| WorkedCases.ParseDegenerateRange | app.py:47-52 | "4-4" parses to [4] |
| WorkedCases.ParseTwoThree | app.py:41-58 | "2 3" parses to [2, 3] |
| WorkedCases.ParseOneTwoThree | app.py:41-58 | "1 2 3" parses to [1, 2, 3] |
| WorkedCases.ParseMixedSeparators | app.py:41 | "1,2;3" and "1 2 3" both parse to [1, 2, 3] |
| WorkedCases.ParseWord | app.py:55-56 | "abc" contributes nothing |
| WorkedCases.ParseHalfRange | app.py:47-56 | "2-x" contributes nothing |
| WorkedCases.ParseHalfRangeThenThree | app.py:41-58 | "2-x 3" parses to [3] |
| WorkedCases.ParseWordThenRest | app.py:41-58 | "abc 2-x 3" parses to [3] |
| WorkedCases.ParseDropsGarbage | app.py:41-58 | "1 abc 2-x 3" parses to [1, 3] |
| WorkedCases.ResolveOnly | app.py:61-82 | when exactly one listed name is accepted, it is the whole result |
| WorkedCases.ResolveNone | app.py:61-82 | when no listed name is accepted, nothing is found |
| WorkedCases.PairSorted | app.py:77-82 | two names in strictly increasing key order form a sorted, repeat-free list |
| WorkedCases.ResolvePair | app.py:61-82 | two accepted names come out smaller key first, whether the directory lists them `[b, a]` or `[a, b]` |
| WorkedCases.ResolvePairListed | app.py:61-82 | a directory listing exactly two accepted names, in any order, yields them smaller key first |
| WorkedCases.ResolveSkipsLongerNumber | app.py:66-75 | with `1.pdf` and `12_intro.pdf` listed, number 1 gets only `1.pdf` |
| WorkedCases.PageNameAccepted | app.py:66-75 | `7_PAGE<d>.pdf` is accepted for 7 |
| WorkedCases.PageNameKey | app.py:77-80 | `7_PAGE<d>.pdf` is accepted for 7 and has page d |
| WorkedCases.ResolveByPage | app.py:77-82 | `7_PAGE1.pdf` comes before `7_PAGE2.pdf`, though listed after it |
| WorkedCases.PlainNameAccepted | app.py:66-75 | `7_<lower-case letter>.pdf` is accepted for 7 |
| WorkedCases.PlainNameKey | app.py:77-80 | `7_<lower-case letter>.pdf` is accepted for 7 and has page 0 and its own name as key |
| WorkedCases.PlainNamesOrdered | app.py:80 | `7_a.pdf` is below `7_b.pdf` |
| WorkedCases.ResolveByName | app.py:77-82 | without page markers, `7_a.pdf` comes before `7_b.pdf` |
| WorkedCases.PlanOfNothing | app.py:306-307 | no numbers give nothing to merge and nothing missing |
| WorkedCases.PartialResolutions | app.py:61-82 | with `1.pdf` and `3.pdf` listed, 1 and 3 find their file and 2 finds none |
| WorkedCases.NothingForTwo | app.py:61-82 | with `1.pdf` and `3.pdf` listed, 2 finds nothing |
| WorkedCases.PartialCollected | app.py:309-314 | for 1, 2, 3 the step collects `1.pdf`, `3.pdf` and reports 2 missing |
| WorkedCases.PlanPartial | app.py:294-324 | "1-3" with files for 1 and 3 only is a partial success missing 2 |
| WorkedCases.PlanNothingFound | app.py:294-321 | "9 10" against an empty directory fails with both numbers missing |

## Left out

- The Tkinter interface is not modelled: window layout, styles, message boxes, button states and `clear_hymn_input`. It is presentation only.
- The worker thread and the `root.after` callbacks are not modelled. They only dispatch work and messages.
- The module-level `merge_pdfs` is not modelled. It wraps a foreign PDF library, creates directories and writes files. The model stops at the list of files handed to it.
- The output path is not modelled: `Path(output_filename)`, `is_absolute()` and `output_dir / name` are filesystem path handling.
- The success message, `stat()` of the output file and opening the output folder are not modelled. They are I/O and platform calls.
- The `ImportError` and catch-all exception handlers are not modelled. They report failures of the foreign library and the file system.
- The directory is one value for the whole merge step. The source re-reads the file system (`exists()`, `glob`) for each number; the model assumes the directory does not change while the numbers are resolved.
- Files are names, not paths. `to_merge` holds names where the source holds `pdf_dir / name`.
- `raw or ""` is not modelled: the model's input is always a string, never `None`.
- Characters are ASCII only:
  - whitespace is space, tab through carriage return, and the four separators U+001C to U+001F, which `str.strip()` and `\s` also count;
  - digits are `0`-`9`;
  - `lower()` folds `A`-`Z`.
  Python's Unicode `\s`, `\d`, `int()` on non-ASCII digits and full `lower()` are not modelled.
- The file system is case-sensitive: names are compared exactly, as on POSIX. A case-insensitive file system, where `N.pdf` would also find `N.PDF`, is not modelled.
- FileResolver.Resolve: when two listed names differ only in letter case, their relative order follows the listing order. The source follows the iteration order of a Python `set`, which is unspecified.
