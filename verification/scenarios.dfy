/**
  Concrete submissions worked through the model: the extension edge cases
  of the filter and two end-to-end scenarios.
 */
module Scenarios {
  import Text
  import Seqs
  import ContentCheckProperties
  import opened ContentCheck

  /** A file literally named `png` is its own extension and is excluded. */
  lemma DotlessImageNameExcluded()
    ensures !IsEligible("png")
  {
    Text.ExtensionOfDotlessName("png");
    assert Text.ToLower("png") == "png";
  }

  /** A dotless name that is not an image extension is kept. */
  lemma DotlessNameKept()
    ensures IsEligible("README")
  {
    Text.ExtensionOfDotlessName("README");
    assert Text.ToLower("README") == "readme";
  }

  /** A hidden file `.svg` has extension `svg` and is excluded. */
  lemma HiddenSvgExcluded()
    ensures !IsEligible(".svg")
  {
    ContentCheckProperties.EligibleByLastSegment("", "svg");
    assert "" + "." + "svg" == ".svg";
    assert Text.ToLower("svg") == "svg";
  }

  /** The comparison ignores ASCII case: `<stem>.JPG` is excluded. */
  lemma UpperCaseImageExcluded(stem: string)
    ensures !IsEligible(stem + ".JPG")
  {
    ContentCheckProperties.EligibleByLastSegment(stem, "JPG");
    assert stem + "." + "JPG" == stem + ".JPG";
    assert Text.ToLower("JPG") == "jpg";
  }

  /** Only the segment after the last dot counts: `<stem>.png.zip` is kept. */
  lemma LastSegmentOnly(stem: string)
    ensures IsEligible(stem + ".png.zip")
  {
    ContentCheckProperties.EligibleByLastSegment(stem + ".png", "zip");
    assert stem + ".png" + "." + "zip" == stem + ".png.zip";
    assert Text.ToLower("zip") == "zip";
  }

  /** Any `.pdf` file is kept. */
  lemma PdfKept(stem: string)
    ensures IsEligible(stem + ".pdf")
  {
    ContentCheckProperties.EligibleByLastSegment(stem, "pdf");
    assert stem + "." + "pdf" == stem + ".pdf";
    assert Text.ToLower("pdf") == "pdf";
  }

  const Cid: string := "bafy"

  function Submission(names: seq<string>): Content {
    Content("title", "description", "author", Cid, names)
  }

  /** Both PDFs are labelled successfully with overlapping labels. */
  function CatDogLabeler(u: string): LabelResult {
    if u == Url(Cid, "a.pdf") then LabelResult(true, ["cat"])
    else if u == Url(Cid, "c.pdf") then LabelResult(true, ["cat", "dog"])
    else LabelResult(false, [])
  }

  function FailingLabeler(u: string): LabelResult {
    LabelResult(false, [])
  }

  function ConfidentVerifier(title: string, description: string, labels: seq<string>): VerifyResult {
    VerifyResult(true, 0.7)
  }

  lemma FilterKeepsOuterTwo(a: string, b: string, c: string)
    requires IsEligible(a) && !IsEligible(b) && IsEligible(c)
    ensures FilterFiles([a, b, c]) == [a, c]
  {
    assert [b] + [c] == [b, c];
    assert [a] + [b, c] == [a, b, c];
    Seqs.FilterAppend([b], [c], IsEligible);
    Seqs.FilterAppend([a], [b, c], IsEligible);
    Seqs.FilterSingle(a, IsEligible);
    Seqs.FilterSingle(b, IsEligible);
    Seqs.FilterSingle(c, IsEligible);
  }

  /** Of `a.pdf`, `b.png`, `c.pdf` the filter keeps the two PDFs. */
  lemma ThreeFilesFiltered()
    ensures FilterFiles(["a.pdf", "b.png", "c.pdf"]) == ["a.pdf", "c.pdf"]
  {
    PdfKept("a");
    ContentCheckProperties.EligibleByLastSegment("b", "png");
    assert Text.ToLower("png") == "png";
    PdfKept("c");
    assert "a" + ".pdf" == "a.pdf" && "b" + "." + "png" == "b.png" && "c" + ".pdf" == "c.pdf";
    FilterKeepsOuterTwo("a.pdf", "b.png", "c.pdf");
  }

  /** Two eligible files: both are labelled, in order. */
  lemma TwoFilesDispatched(content: Content, labeler: Labeler, verifier: Verifier, x: string, y: string)
    requires FilterFiles(content.fileNames) == [x, y]
    ensures Moderate(content, labeler, verifier).labelRequests == [Url(content.directoryCid, x), Url(content.directoryCid, y)]
    ensures Moderate(content, labeler, verifier).labelResults
            == [labeler(Url(content.directoryCid, x)), labeler(Url(content.directoryCid, y))]
  {
  }

  /** Labels `[x]` and `[x, y]` merge to `[x, y]`. */
  lemma OverlappingLabelsMerge(x: string, y: string)
    requires x != y
    ensures Seqs.AddAll([], Flatten([LabelResult(true, [x]), LabelResult(true, [x, y])])) == [x, y]
  {
    var results := [LabelResult(true, [x]), LabelResult(true, [x, y])];
    assert results[1..] == [LabelResult(true, [x, y])];
    assert results[1..][1..] == [];
    assert Flatten(results[1..]) == [x, y] + Flatten([]);
    assert Flatten(results) == [x, x, y];
    var flat := [x, x, y];
    assert flat[1..] == [x, y] && flat[1..][1..] == [y];
    assert flat[0] !in [] && [] + [flat[0]] == [x];
    assert Seqs.AddAll([], flat) == Seqs.AddAll([x], [x, y]);
    assert Seqs.AddAll([x], [x, y]) == Seqs.AddAll([x], [y]);
    assert y !in [x] && [x] + [y] == [x, y];
    assert Seqs.AddAll([x], [y]) == Seqs.AddAll([x, y], []);
  }

  /** `a.pdf` and `c.pdf` are labelled, `b.png` is not; the verifier gets
      `cat` once and `dog` once and its 0.7 confidence passes the content. */
  lemma PdfScenarioPasses()
    ensures var run := Moderate(Submission(["a.pdf", "b.png", "c.pdf"]), CatDogLabeler, ConfidentVerifier);
            && run.labelRequests == [Url(Cid, "a.pdf"), Url(Cid, "c.pdf")]
            && run.verifyRequest == Some(VerifyRequest("title", "description", ["cat", "dog"]))
            && run.status == Passed
  {
    var content := Submission(["a.pdf", "b.png", "c.pdf"]);
    ThreeFilesFiltered();
    TwoFilesDispatched(content, CatDogLabeler, ConfidentVerifier, "a.pdf", "c.pdf");
    assert Url(Cid, "a.pdf") != Url(Cid, "c.pdf") by {
      ContentCheckProperties.UrlInjective(Cid, "a.pdf", "c.pdf");
    }
    var results := [LabelResult(true, ["cat"]), LabelResult(true, ["cat", "dog"])];
    assert Moderate(content, CatDogLabeler, ConfidentVerifier).labelResults == results;
    OverlappingLabelsMerge("cat", "dog");
  }

  /** The same files, every labelling fails: `NotStarted` without a verifier call. */
  lemma PdfScenarioAllFailed()
    ensures var run := Moderate(Submission(["a.pdf", "b.png", "c.pdf"]), FailingLabeler, ConfidentVerifier);
            run.verifyRequest == None && run.status == NotStarted
  {
    ThreeFilesFiltered();
  }
}
