/**
  Properties of the moderation decision that relate several calls, or relate
  the model to an independent description of the same behaviour.
 */
module ContentCheckProperties {
  import Text
  import Seqs
  import opened ContentCheck

  // ---------------------------------------------------------------------
  // Filter and cap

  /** Eligibility is the case-insensitive absence of the extension from the image list. */
  lemma EligibleIgnoresCase(file: string)
    ensures !IsEligible(file) <==>
              exists k :: 0 <= k < |ImageExtensions| && Text.EqualIgnoringCase(Text.Extension(file), ImageExtensions[k])
  {
    var ext := Text.Extension(file);
    forall k | 0 <= k < |ImageExtensions|
      ensures Text.ToLower(ext) == ImageExtensions[k] <==> Text.EqualIgnoringCase(ext, ImageExtensions[k])
    {
      Text.ToLowerMatchesIgnoringCase(ext, ImageExtensions[k]);
    }
  }

  /** Only the segment after the last dot decides eligibility. */
  lemma EligibleByLastSegment(stem: string, ext: string)
    requires '.' !in ext
    ensures IsEligible(stem + "." + ext) <==> Text.ToLower(ext) !in ImageExtensions
  {
    Text.ExtensionAfterLastDot(stem, ext);
  }

  /** Files after the first `MaxArtifactLimit` eligible ones change nothing:
      they are never labelled and do not influence the verdict. */
  lemma IgnoresFilesBeyondCap(content: Content, extra: seq<string>, labeler: Labeler, verifier: Verifier)
    requires |FilterFiles(content.fileNames)| >= MaxArtifactLimit
    ensures Moderate(content.(fileNames := content.fileNames + extra), labeler, verifier)
            == Moderate(content, labeler, verifier)
  {
    var names := content.fileNames;
    Seqs.FilterAppend(names, extra, IsEligible);
    assert FilterFiles(names + extra)[..MaxArtifactLimit] == FilterFiles(names)[..MaxArtifactLimit];
    assert Dispatched(names + extra) == Dispatched(names);
  }

  // ---------------------------------------------------------------------
  // URLs

  /** The file name can be read back from its URL, and only from its URL. */
  lemma UrlRoundTrip(cid: string, name: string, u: string)
    ensures NameFromUrl(cid, Url(cid, name)) == Some(name)
    ensures NameFromUrl(cid, u) == Some(name) ==> Url(cid, name) == u
  {
    var prefix := IpfsAddress + cid + "/";
    assert Url(cid, name) == prefix + name;
    if NameFromUrl(cid, u) == Some(name) {
      assert u == u[..|prefix|] + u[|prefix|..];
    }
  }

  /** Different files of one directory get different URLs. */
  lemma UrlInjective(cid: string, a: string, b: string)
    ensures Url(cid, a) == Url(cid, b) ==> a == b
  {
    UrlRoundTrip(cid, a, Url(cid, b));
    UrlRoundTrip(cid, b, Url(cid, b));
  }

  // ---------------------------------------------------------------------
  // Collaborators

  /** The labeller is only consulted on the dispatched URLs: labellers that
      agree there give the same run. */
  lemma OnlyRequestedUrlsMatter(content: Content, l1: Labeler, l2: Labeler, verifier: Verifier)
    requires forall u :: u in Moderate(content, l1, verifier).labelRequests ==> l1(u) == l2(u)
    ensures Moderate(content, l1, verifier) == Moderate(content, l2, verifier)
  {
    var r1 := Moderate(content, l1, verifier);
    var r2 := Moderate(content, l2, verifier);
    assert r1.labelRequests == r2.labelRequests;
    assert r1.labelResults == r2.labelResults by {
      forall i | 0 <= i < |r1.labelResults|
        ensures r1.labelResults[i] == r2.labelResults[i]
      {
        assert r1.labelRequests[i] in r1.labelRequests;
      }
    }
  }

  /** The verifier is consulted at most once, on the recorded request: verifiers
      that agree on that request give the same run. */
  lemma OnlyVerifyRequestMatters(content: Content, labeler: Labeler, v1: Verifier, v2: Verifier)
    requires Moderate(content, labeler, v1).verifyRequest.Some? ==>
               var q := Moderate(content, labeler, v1).verifyRequest.value;
               v1(q.title, q.description, q.labels) == v2(q.title, q.description, q.labels)
    ensures Moderate(content, labeler, v1) == Moderate(content, labeler, v2)
  {
  }

  // ---------------------------------------------------------------------
  // Short-circuit and empty input

  /** Non-empty filtered list, every labelling of a dispatched file failed:
      `NotStarted`, verifier not consulted. Files beyond the cap are never
      labelled, so their labeller answers do not matter. */
  lemma AllFailedShortCircuits(content: Content, labeler: Labeler, verifier: Verifier)
    requires |FilterFiles(content.fileNames)| > 0
    requires forall f :: f in Dispatched(content.fileNames) ==> !labeler(Url(content.directoryCid, f)).success
    ensures Moderate(content, labeler, verifier).verifyRequest == None
    ensures Moderate(content, labeler, verifier).status == NotStarted
  {
    var run := Moderate(content, labeler, verifier);
    var files := Dispatched(content.fileNames);
    forall i | 0 <= i < |run.labelResults|
      ensures !run.labelResults[i].success
    {
      assert files[i] == FilterFiles(content.fileNames)[i];
      assert files[i] in files;
    }
  }

  /** No eligible file: nothing is labelled, the verifier is still called with
      no labels, and the verdict is whatever its answer maps to. */
  lemma EmptyFilteredStillVerifies(content: Content, labeler: Labeler, verifier: Verifier)
    requires |FilterFiles(content.fileNames)| == 0
    ensures Moderate(content, labeler, verifier).labelRequests == []
    ensures Moderate(content, labeler, verifier).verifyRequest
            == Some(VerifyRequest(content.title, content.description, []))
    ensures Moderate(content, labeler, verifier).status
            == StatusOf(verifier(content.title, content.description, []))
  {
  }

  /** `every(res => !res.success)` holds of an empty batch, and of a
      concatenation exactly when it holds of both parts. */
  lemma AllFailedAppend(a: seq<LabelResult>, b: seq<LabelResult>)
    ensures AllFailed([])
    ensures AllFailed(a + b) <==> AllFailed(a) && AllFailed(b)
  {
    if AllFailed(a + b) {
      forall i | 0 <= i < |a| ensures !a[i].success {
        assert (a + b)[i] == a[i];
      }
      forall i | 0 <= i < |b| ensures !b[i].success {
        assert (a + b)[|a| + i] == b[i];
      }
    }
  }

  // ---------------------------------------------------------------------
  // Labels

  /** The labels of the successful results only, in `flatMap` order. */
  function SuccessfulLabels(results: seq<LabelResult>): (r: seq<string>)
    ensures forall l :: l in r <==>
              exists i :: 0 <= i < |results| && results[i].success && l in results[i].labels
    decreases |results|
  {
    if |results| == 0 then []
    else
      var rest := SuccessfulLabels(results[1..]);
      assert forall i :: 1 <= i < |results| ==> results[i] == results[1..][i - 1];
      (if results[0].success then results[0].labels else []) + rest
  }

  /** When failed results carry no labels, merging every result (as the code
      does) is the same as merging the successful ones only. */
  lemma {:induction false} FailedLabelsContributeNothing(results: seq<LabelResult>)
    requires forall i :: 0 <= i < |results| && !results[i].success ==> results[i].labels == []
    ensures Flatten(results) == SuccessfulLabels(results)
    decreases |results|
  {
    if |results| > 0 {
      FailedLabelsContributeNothing(results[1..]);
    }
  }

  /** The verifier's labels are the distinct labels in order of first appearance. */
  lemma VerifierLabelsInFirstAppearanceOrder(content: Content, labeler: Labeler, verifier: Verifier)
    ensures var run := Moderate(content, labeler, verifier);
            run.verifyRequest.Some? ==>
              run.verifyRequest.value.labels == Seqs.FirstOccurrences(Flatten(run.labelResults))
  {
    var run := Moderate(content, labeler, verifier);
    Seqs.SetInsertionOrder(Flatten(run.labelResults));
  }

  /** With a labeller whose failures carry no labels, the verifier sees exactly
      the union of the labels of the successful results. */
  lemma VerifierSeesSuccessfulLabels(content: Content, labeler: Labeler, verifier: Verifier)
    requires forall u :: !labeler(u).success ==> labeler(u).labels == []
    ensures var run := Moderate(content, labeler, verifier);
            run.verifyRequest.Some? ==>
              forall l :: l in run.verifyRequest.value.labels <==> l in SuccessfulLabels(run.labelResults)
  {
    var run := Moderate(content, labeler, verifier);
    FailedLabelsContributeNothing(run.labelResults);
  }

  // ---------------------------------------------------------------------
  // Verdict

  /** The three statuses and exactly the verifier answers that lead to each. */
  lemma StatusThreshold(v: VerifyResult)
    ensures StatusOf(v) == Passed <==> v.success && v.confidence >= 0.5
    ensures StatusOf(v) == NeedsReview <==> v.success && v.confidence < 0.5
    ensures StatusOf(v) == NotStarted <==> !v.success
  {
  }

  /** A higher confidence never turns `Passed` into `NeedsReview`. */
  lemma StatusMonotone(v: VerifyResult, w: VerifyResult)
    requires v.success && w.success && v.confidence <= w.confidence
    ensures StatusOf(v) == Passed ==> StatusOf(w) == Passed
    ensures StatusOf(w) == NeedsReview ==> StatusOf(v) == NeedsReview
  {
  }
}
