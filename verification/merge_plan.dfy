/** The aggregation step of `HymnCombinerApp.merge_pdfs`: parse once,
    resolve every number in order, collect the files to merge and the
    numbers without files, and decide between the two errors and a
    (possibly partial) success. */
module MergePlan {
  import opened Text
  import opened RangeParser
  import opened FileResolver

  /** What the step ends with: "No valid hymn numbers found.", "No PDF
      files found ..." with the missing numbers, or the files to hand to
      the PDF merger together with the numbers that had none. */
  datatype Outcome =
    | NoValidNumbers
    | NoFilesFound(missing: seq<nat>)
    | Ready(toMerge: seq<string>, missing: seq<nat>)

  // ---------------------------------------------------------------------
  // Aggregating per-number results

  /** The files of several numbers, number after number. */
  function Flatten(parts: seq<seq<string>>): seq<string> {
    if parts == [] then []
    else Flatten(parts[..|parts| - 1]) + parts[|parts| - 1]
  }

  /** The numbers whose part is empty, in order, repeats kept. */
  function MissingOf(nums: seq<nat>, parts: seq<seq<string>>): seq<nat>
    requires |nums| == |parts|
  {
    if nums == [] then []
    else
      var k := |nums|;
      MissingOf(nums[..k - 1], parts[..k - 1]) + (if parts[k - 1] == [] then [nums[k - 1]] else [])
  }

  /** Each requested number's files, as the resolver returns them. */
  function Resolutions(dir: Directory, nums: seq<nat>): (parts: seq<seq<string>>)
    ensures |parts| == |nums|
  {
    seq(|nums|, i requires 0 <= i < |nums| => Resolve(dir, nums[i]))
  }

  /** `to_merge`. */
  function ToMerge(dir: Directory, nums: seq<nat>): seq<string> {
    Flatten(Resolutions(dir, nums))
  }

  /** `missing`. */
  function Missing(dir: Directory, nums: seq<nat>): seq<nat> {
    MissingOf(nums, Resolutions(dir, nums))
  }

  /** The outcome of the step: the "no valid numbers" error exactly for an
      empty parse, the "no files found" error carrying every parsed number,
      or a non-empty merge with fewer missing numbers than requests. */
  function PlanFor(dir: Directory, raw: string): (r: Outcome)
    ensures r.NoValidNumbers? <==> Parse(raw) == []
    ensures r.NoFilesFound? ==> r.missing == Parse(raw)
    ensures r.Ready? ==> r.toMerge != [] && |r.missing| < |Parse(raw)|
  {
    var nums := Parse(raw);
    if nums == [] then NoValidNumbers
    else
      ToMergeEmpty(dir, nums);
      if ToMerge(dir, nums) == [] then NoFilesFound(Missing(dir, nums))
      else
        MissingOfLength(nums, Resolutions(dir, nums));
        Ready(ToMerge(dir, nums), Missing(dir, nums))
  }

  // ---------------------------------------------------------------------
  // The step as the source runs it

  /** Lines 294-321 of `merge_pdfs`, up to the call of the PDF merger. */
  method MergePdfsPlan(dir: Directory, hymnInput: string) returns (outcome: Outcome)
    ensures outcome == PlanFor(dir, hymnInput)
  {
    var hymnNumbers := ParseHymnNumbers(hymnInput);
    if hymnNumbers == [] {
      return NoValidNumbers;
    }
    var missing: seq<nat> := [];
    var toMerge: seq<string> := [];
    for i := 0 to |hymnNumbers|
      invariant toMerge == ToMerge(dir, hymnNumbers[..i])
      invariant missing == Missing(dir, hymnNumbers[..i])
    {
      var n := hymnNumbers[i];
      var paths := PdfPathsForHymn(dir, n);
      ToMergeStep(dir, hymnNumbers, i);
      if paths == [] {
        missing := missing + [n];
        continue;
      }
      toMerge := toMerge + paths;
    }
    assert hymnNumbers[..|hymnNumbers|] == hymnNumbers;
    PlanForParsed(dir, hymnInput);
    if toMerge == [] {
      return NoFilesFound(missing);
    }
    outcome := Ready(toMerge, missing);
  }

  /** One turn of the loop: the i-th number's files or the number itself
      join what the numbers before it collected. */
  lemma ToMergeStep(dir: Directory, nums: seq<nat>, i: nat)
    requires i < |nums|
    ensures ToMerge(dir, nums[..i + 1]) == ToMerge(dir, nums[..i]) + Resolve(dir, nums[i])
    ensures Missing(dir, nums[..i + 1]) == Missing(dir, nums[..i]) + (if Resolve(dir, nums[i]) == [] then [nums[i]] else [])
  {
    assert nums[..i + 1] == nums[..i] + [nums[i]];
    ToMergeExtend(dir, nums[..i], nums[i]);
  }

  /** After the last number: the collected lists decide the outcome. */
  lemma PlanForParsed(dir: Directory, raw: string)
    requires Parse(raw) != []
    ensures PlanFor(dir, raw) == (if ToMerge(dir, Parse(raw)) == [] then NoFilesFound(Missing(dir, Parse(raw)))
                                  else Ready(ToMerge(dir, Parse(raw)), Missing(dir, Parse(raw))))
  {
  }

  // ---------------------------------------------------------------------
  // Properties of the aggregation, for any per-number results

  lemma {:induction false} FlattenAppend(p: seq<seq<string>>, q: seq<seq<string>>)
    ensures Flatten(p + q) == Flatten(p) + Flatten(q)
    decreases |q|
  {
    if q == [] {
      assert p + q == p;
    } else {
      var k := |q|;
      var pq := p + q;
      assert pq[..|pq| - 1] == p + q[..k - 1];
      assert pq[|pq| - 1] == q[k - 1];
      FlattenAppend(p, q[..k - 1]);
    }
  }

  lemma {:induction false} MissingOfAppend(a: seq<nat>, p: seq<seq<string>>, b: seq<nat>, q: seq<seq<string>>)
    requires |a| == |p| && |b| == |q|
    ensures MissingOf(a + b, p + q) == MissingOf(a, p) + MissingOf(b, q)
    decreases |b|
  {
    if b == [] {
      assert a + b == a && p + q == p;
    } else {
      var k := |b|;
      var ab, pq := a + b, p + q;
      assert ab[..|ab| - 1] == a + b[..k - 1];
      assert pq[..|pq| - 1] == p + q[..k - 1];
      assert ab[|ab| - 1] == b[k - 1] && pq[|pq| - 1] == q[k - 1];
      MissingOfAppend(a, p, b[..k - 1], q[..k - 1]);
    }
  }

  lemma FlattenSnoc(parts: seq<seq<string>>, last: seq<string>)
    ensures Flatten(parts + [last]) == Flatten(parts) + last
  {
    assert (parts + [last])[..|parts|] == parts;
  }

  lemma MissingOfSnoc(nums: seq<nat>, parts: seq<seq<string>>, n: nat, last: seq<string>)
    requires |nums| == |parts|
    ensures MissingOf(nums + [n], parts + [last]) == MissingOf(nums, parts) + (if last == [] then [n] else [])
  {
    assert (nums + [n])[..|nums|] == nums;
    assert (parts + [last])[..|parts|] == parts;
  }

  lemma {:induction false} FlattenMembership(parts: seq<seq<string>>, name: string)
    ensures name in Flatten(parts) <==> exists i :: 0 <= i < |parts| && name in parts[i]
  {
    if parts != [] {
      var k := |parts|;
      var p := parts[..k - 1];
      FlattenMembership(p, name);
      assert forall i :: 0 <= i < k - 1 ==> p[i] == parts[i];
    }
  }

  lemma {:induction false} MissingOfMembership(nums: seq<nat>, parts: seq<seq<string>>, n: nat)
    requires |nums| == |parts|
    ensures n in MissingOf(nums, parts) <==> exists i :: 0 <= i < |nums| && nums[i] == n && parts[i] == []
  {
    if nums != [] {
      var k := |nums|;
      MissingOfMembership(nums[..k - 1], parts[..k - 1], n);
      assert forall i :: 0 <= i < k - 1 ==> nums[..k - 1][i] == nums[i] && parts[..k - 1][i] == parts[i];
    }
  }

  lemma {:induction false} MissingOfLength(nums: seq<nat>, parts: seq<seq<string>>)
    requires |nums| == |parts|
    ensures |MissingOf(nums, parts)| <= |nums|
    ensures |MissingOf(nums, parts)| == |nums| ==> MissingOf(nums, parts) == nums
  {
    if nums != [] {
      var k := |nums|;
      MissingOfLength(nums[..k - 1], parts[..k - 1]);
      if |MissingOf(nums, parts)| == k {
        assert nums == nums[..k - 1] + [nums[k - 1]];
      }
    }
  }

  lemma {:induction false} FlattenEmpty(nums: seq<nat>, parts: seq<seq<string>>)
    requires |nums| == |parts|
    ensures Flatten(parts) == [] <==> MissingOf(nums, parts) == nums
  {
    if nums != [] {
      var k := |nums|;
      FlattenEmpty(nums[..k - 1], parts[..k - 1]);
      MissingOfLength(nums[..k - 1], parts[..k - 1]);
      if MissingOf(nums, parts) == nums {
        assert MissingOf(nums, parts)[..k - 1] == nums[..k - 1];
      }
      if Flatten(parts) == [] {
        assert nums == nums[..k - 1] + [nums[k - 1]];
      }
    }
  }

  // ---------------------------------------------------------------------
  // What the step promises

  lemma ResolutionsSnoc(dir: Directory, nums: seq<nat>, n: nat)
    ensures Resolutions(dir, nums + [n]) == Resolutions(dir, nums) + [Resolve(dir, n)]
  {
  }

  lemma {:induction false} ResolutionsAppend(dir: Directory, a: seq<nat>, b: seq<nat>)
    ensures Resolutions(dir, a + b) == Resolutions(dir, a) + Resolutions(dir, b)
    decreases |b|
  {
    if b == [] {
      assert a + b == a;
    } else {
      var front, last := b[..|b| - 1], b[|b| - 1];
      assert b == front + [last];
      assert a + b == (a + front) + [last];
      ResolutionsAppend(dir, a, front);
      ResolutionsSnoc(dir, a + front, last);
      ResolutionsSnoc(dir, front, last);
    }
  }

  /** Files for earlier numbers come before files for later ones: the
      plan of `a` followed by `b` is the plan of `a` followed by the plan
      of `b`. */
  lemma ToMergeAppend(dir: Directory, a: seq<nat>, b: seq<nat>)
    ensures ToMerge(dir, a + b) == ToMerge(dir, a) + ToMerge(dir, b)
    ensures Missing(dir, a + b) == Missing(dir, a) + Missing(dir, b)
  {
    ResolutionsAppend(dir, a, b);
    FlattenAppend(Resolutions(dir, a), Resolutions(dir, b));
    MissingOfAppend(a, Resolutions(dir, a), b, Resolutions(dir, b));
  }

  /** One more number adds its own files at the end, or itself to the
      missing numbers when it has none. */
  lemma ToMergeExtend(dir: Directory, nums: seq<nat>, n: nat)
    ensures ToMerge(dir, nums + [n]) == ToMerge(dir, nums) + Resolve(dir, n)
    ensures Missing(dir, nums + [n]) == Missing(dir, nums) + (if Resolve(dir, n) == [] then [n] else [])
  {
    var parts, r := Resolutions(dir, nums), Resolve(dir, n);
    ResolutionsSnoc(dir, nums, n);
    FlattenSnoc(parts, r);
    MissingOfSnoc(nums, parts, n, r);
  }

  /** A file is merged exactly when some requested number resolves to it. */
  lemma ToMergeMembership(dir: Directory, nums: seq<nat>, name: string)
    ensures name in ToMerge(dir, nums) <==> exists i :: 0 <= i < |nums| && name in Resolve(dir, nums[i])
  {
    var parts := Resolutions(dir, nums);
    FlattenMembership(parts, name);
    assert forall i :: 0 <= i < |nums| ==> parts[i] == Resolve(dir, nums[i]);
  }

  /** A number is reported missing exactly when it was requested and
      resolves to nothing. */
  lemma MissingMembership(dir: Directory, nums: seq<nat>, n: nat)
    ensures n in Missing(dir, nums) <==> n in nums && Resolve(dir, n) == []
  {
    MissingOfMembership(nums, Resolutions(dir, nums), n);
  }

  /** Nothing is merged exactly when every requested number is missing. */
  lemma ToMergeEmpty(dir: Directory, nums: seq<nat>)
    ensures ToMerge(dir, nums) == [] <==> Missing(dir, nums) == nums
  {
    FlattenEmpty(nums, Resolutions(dir, nums));
  }

  /** Input with no usable number fails with the "no valid numbers" error. */
  lemma PlanNoValidNumbers(dir: Directory, raw: string)
    ensures PlanFor(dir, raw) == NoValidNumbers <==> Parse(raw) == []
  {
  }

  /** The "no files found" error lists every parsed number, so its list of
      missing numbers is never empty. */
  lemma PlanNoFilesFound(dir: Directory, raw: string)
    requires PlanFor(dir, raw).NoFilesFound?
    ensures PlanFor(dir, raw).missing == Parse(raw) != []
  {
    ToMergeEmpty(dir, Parse(raw));
  }

  /** A success merges a non-empty list of listed files, and goes ahead even
      when some numbers are missing, as long as one is not. */
  lemma PlanReady(dir: Directory, raw: string)
    requires PlanFor(dir, raw).Ready?
    ensures PlanFor(dir, raw).toMerge != []
    ensures |PlanFor(dir, raw).missing| < |Parse(raw)|
    ensures forall name :: name in PlanFor(dir, raw).toMerge ==> name in dir.entries
  {
    var nums := Parse(raw);
    ToMergeEmpty(dir, nums);
    MissingOfLength(nums, Resolutions(dir, nums));
    forall name | name in PlanFor(dir, raw).toMerge ensures name in dir.entries {
      ToMergeMembership(dir, nums, name);
      var i :| 0 <= i < |nums| && name in Resolve(dir, nums[i]);
      ResolveMembership(dir, nums[i], name);
    }
  }
}
