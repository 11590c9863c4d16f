/**
  The content-moderation decision of `ContentCheck.moderate`: filter the
  submitted file names by extension, cap them, ask the image labeller about
  each retained file, merge the labels into a set, ask the text verifier once
  and reduce its answer to a `ModerationStatus`.

  The labeller and the verifier are network services; here they are
  function-valued parameters, and `Moderate` returns a `Run` that records
  which requests it made, so that "the verifier was not consulted" is a
  property of the result.
 */
module ContentCheck {
  import Text
  import Seqs

  datatype Option<T> = None | Some(value: T)

  /** One submission. */
  datatype Content = Content(
    title: string,
    description: string,
    author: string,
    directoryCid: string,
    fileNames: seq<string>)

  datatype ModerationStatus = NotStarted | NeedsReview | Passed

  /** What the image labeller answers for one URL. */
  datatype LabelResult = LabelResult(success: bool, labels: seq<string>)

  /** What the text verifier answers. */
  datatype VerifyResult = VerifyResult(success: bool, confidence: real)

  /** The arguments of the single verifier call. */
  datatype VerifyRequest = VerifyRequest(title: string, description: string, labels: seq<string>)

  /** Everything one moderation run asked of its collaborators, and its verdict. */
  datatype Run = Run(
    labelRequests: seq<string>,
    labelResults: seq<LabelResult>,
    verifyRequest: Option<VerifyRequest>,
    status: ModerationStatus)

  type Labeler = string -> LabelResult
  type Verifier = (string, string, seq<string>) -> VerifyResult

  const MaxArtifactLimit: nat := 10
  const IpfsAddress: string := "https://ipfs.io/ipfs/"
  const ImageExtensions: seq<string> := ["png", "jpg", "jpeg", "gif", "bmp", "svg"]
  const PassThreshold: real := 0.5

  function Min(a: nat, b: nat): nat {
    if a <= b then a else b
  }

  /** A file is sent to the labeller unless its lower-cased extension names an image format. */
  predicate IsEligible(file: string) {
    Text.ToLower(Text.Extension(file)) !in ImageExtensions
  }

  /** The eligible file names, in their original order. */
  function FilterFiles(names: seq<string>): (r: seq<string>)
    ensures |r| <= |names|
    ensures forall f :: f in r <==> f in names && IsEligible(f)
  {
    Seqs.Filter(names, IsEligible)
  }

  /** The files actually labelled: the first `MaxArtifactLimit` eligible ones. */
  function Dispatched(names: seq<string>): (r: seq<string>)
    ensures |r| == Min(|FilterFiles(names)|, MaxArtifactLimit)
    ensures r <= FilterFiles(names)
    ensures |r| == 0 <==> |FilterFiles(names)| == 0
  {
    var filtered := FilterFiles(names);
    if |filtered| <= MaxArtifactLimit then filtered else filtered[..MaxArtifactLimit]
  }

  /** The gateway URL of `name` inside the directory `cid`. */
  function Url(cid: string, name: string): (u: string)
    ensures |u| == |IpfsAddress| + |cid| + 1 + |name|
    ensures u[..|IpfsAddress|] == IpfsAddress
    ensures u[|IpfsAddress|..|IpfsAddress| + |cid|] == cid
    ensures u[|IpfsAddress| + |cid|] == '/'
    ensures u[|IpfsAddress| + |cid| + 1..] == name
  {
    IpfsAddress + cid + "/" + name
  }

  /** Recovers the file name from a gateway URL of directory `cid`, if it is one. */
  function NameFromUrl(cid: string, u: string): Option<string> {
    var prefix := IpfsAddress + cid + "/";
    if prefix <= u then Some(u[|prefix|..]) else None
  }

  /** `flatMap` of the labels of every result, successful or not. */
  function Flatten(results: seq<LabelResult>): (r: seq<string>)
    ensures forall l :: l in r <==> exists i :: 0 <= i < |results| && l in results[i].labels
    decreases |results|
  {
    if |results| == 0 then []
    else
      var rest := Flatten(results[1..]);
      assert forall i :: 1 <= i < |results| ==> results[i] == results[1..][i - 1];
      results[0].labels + rest
  }

  /** `every(res => !res.success)`; true of an empty batch. */
  predicate AllFailed(results: seq<LabelResult>) {
    forall i :: 0 <= i < |results| ==> !results[i].success
  }

  /** The verdict a verifier answer yields. */
  function StatusOf(v: VerifyResult): ModerationStatus {
    if v.success then
      if v.confidence >= PassThreshold then Passed else NeedsReview
    else NotStarted
  }

  /** One run of `moderate` against the given collaborators. */
  function Moderate(content: Content, labeler: Labeler, verifier: Verifier): (run: Run)
    // the requests: one URL per dispatched file, in order
    ensures |run.labelRequests| == Min(|FilterFiles(content.fileNames)|, MaxArtifactLimit)
    ensures forall i :: 0 <= i < |run.labelRequests| ==>
              run.labelRequests[i] == Url(content.directoryCid, FilterFiles(content.fileNames)[i])
    ensures |run.labelResults| == |run.labelRequests|
    ensures forall i :: 0 <= i < |run.labelResults| ==>
              run.labelResults[i] == labeler(run.labelRequests[i])
    // the all-failed short-circuit
    ensures run.verifyRequest.None? <==>
              |FilterFiles(content.fileNames)| > 0 && AllFailed(run.labelResults)
    ensures run.verifyRequest.None? ==> run.status == NotStarted
    // the single verifier call
    ensures run.verifyRequest.Some? ==>
              && run.verifyRequest.value.title == content.title
              && run.verifyRequest.value.description == content.description
              && Seqs.NoDuplicates(run.verifyRequest.value.labels)
              && (forall l :: l in run.verifyRequest.value.labels <==>
                    exists i :: 0 <= i < |run.labelResults| && l in run.labelResults[i].labels)
    // the verdict
    ensures run.status == Passed <==>
              && run.verifyRequest.Some?
              && verifier(content.title, content.description, run.verifyRequest.value.labels).success
              && verifier(content.title, content.description, run.verifyRequest.value.labels).confidence >= PassThreshold
    ensures run.status == NeedsReview <==>
              && run.verifyRequest.Some?
              && verifier(content.title, content.description, run.verifyRequest.value.labels).success
              && verifier(content.title, content.description, run.verifyRequest.value.labels).confidence < PassThreshold
  {
    var filtered := FilterFiles(content.fileNames);
    var files := Dispatched(content.fileNames);
    var urls := seq(|files|, i requires 0 <= i < |files| => Url(content.directoryCid, files[i]));
    var results := seq(|urls|, i requires 0 <= i < |urls| => labeler(urls[i]));
    if |filtered| > 0 && AllFailed(results) then
      Run(urls, results, None, NotStarted)
    else
      var labels := Seqs.AddAll([], Flatten(results));
      var verdict := StatusOf(verifier(content.title, content.description, labels));
      Run(urls, results, Some(VerifyRequest(content.title, content.description, labels)), verdict)
  }
}
