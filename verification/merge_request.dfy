/** The checks `start_merge` makes before the merge runs: both fields must
    hold something once stripped, and the output name gets a `.pdf` suffix
    unless it already ends in one, in any letter case. */
module MergeRequest {
  import opened Text
  import opened RangeParser

  /** `name.lower().endswith(".pdf")`: the name ends in a dot followed by
      `p`, `d` and `f`, each in either letter case. */
  predicate HasPdfSuffix(name: string)
    ensures HasPdfSuffix(name) <==>
      |name| >= 4 && name[|name| - 4] == '.'
      && (name[|name| - 3] == 'p' || name[|name| - 3] == 'P')
      && (name[|name| - 2] == 'd' || name[|name| - 2] == 'D')
      && (name[|name| - 1] == 'f' || name[|name| - 1] == 'F')
  {
    LowerChars(name);
    EndsWith(Lower(name), ".pdf")
  }

  /** The output name handed to the merge step. */
  function WithPdfSuffix(name: string): (r: string)
    ensures HasPdfSuffix(r)
    ensures |name| <= |r| <= |name| + 4 && r[..|name|] == name
    ensures r == name <==> HasPdfSuffix(name)
    ensures !HasPdfSuffix(name) ==> r == name + ".pdf"
  {
    if HasPdfSuffix(name) then name
    else
      var r := name + ".pdf";
      assert r[|r| - 4..] == ".pdf";
      r
  }

  /** Applying the normalisation a second time changes nothing. */
  lemma WithPdfSuffixIdempotent(name: string)
    ensures WithPdfSuffix(WithPdfSuffix(name)) == WithPdfSuffix(name)
  {
  }

  /** What pressing the merge button leads to: one of the two input errors,
      or a merge started on the stripped hymn text and the normalised
      output name. */
  datatype Request =
    | MissingHymnInput
    | MissingFilename
    | Launch(hymnInput: string, outputFilename: string)

  /** `start_merge`, given the texts of the two entry fields. */
  function StartMerge(hymnText: string, filenameText: string): (r: Request)
    ensures r.MissingHymnInput? <==> Blank(hymnText)
    ensures r.MissingFilename? <==> !Blank(hymnText) && Blank(filenameText)
    ensures r.Launch? ==> r.hymnInput == Strip(hymnText) && r.outputFilename == WithPdfSuffix(Strip(filenameText))
    ensures r.Launch? ==> r.hymnInput != [] && !IsSpace(r.hymnInput[0]) && !IsSpace(r.hymnInput[|r.hymnInput| - 1])
    ensures r.Launch? ==> HasPdfSuffix(r.outputFilename) && r.outputFilename != []
  {
    var hymnInput := Strip(hymnText);
    if hymnInput == [] then MissingHymnInput
    else
      var outputFilename := Strip(filenameText);
      if outputFilename == [] then MissingFilename
      else Launch(hymnInput, WithPdfSuffix(outputFilename))
  }

  /** Stripping the hymn text before the merge does not change which
      numbers it asks for. */
  lemma StartMergeKeepsNumbers(hymnText: string, filenameText: string)
    requires StartMerge(hymnText, filenameText).Launch?
    ensures Parse(StartMerge(hymnText, filenameText).hymnInput) == Parse(hymnText)
  {
    StripKeepsTokens(hymnText);
  }
}
