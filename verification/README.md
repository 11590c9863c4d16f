# Content moderation decision — a Dafny model

This project models the moderation decision of the publishing backend,
`ContentCheck.moderate` in `pages/api/src/moderation/contentcheck.ts`. A
submission (`Content`: title, description, author, IPFS directory CID, file
names) is reduced to a `ModerationStatus` (`NotStarted`, `NeedsReview`,
`Passed`) in these steps:

1. keep the file names whose extension, lower-cased, is not one of
   `png jpg jpeg gif bmp svg`;
2. keep at most the first `maxArtifactLimit = 10` of them;
3. ask the image labeller about `https://ipfs.io/ipfs/<cid>/<name>` for each;
4. if there were eligible files and every labelling failed, stop with `NotStarted`;
5. otherwise merge all returned labels into a set;
6. ask the text verifier once with title, description and the label list;
7. map its answer: failure gives `NotStarted`, confidence `>= 0.5` gives
   `Passed`, anything lower gives `NeedsReview`.

The labeller and the verifier are network services whose code is not part of
this model. `Moderate` takes them as function-valued parameters (`Labeler`,
`Verifier`) and returns a `Run` record. The record lists the label URLs it
requested, the answers, the verifier request (or `None` when the verifier was
not consulted) and the status.

Modules:

- `Text` (`text.dfy`): JavaScript `split` with a one-character separator, the
  file extension `split(".").pop()`, ASCII lower-casing.
- `Seqs` (`seqs.dfy`): `Array.filter`, and JavaScript `Set` insertion order
  (`AddAll`) with an independent reference definition (`FirstOccurrences`).
- `ContentCheck` (`contentcheck.dfy`): the data model, the constants, the
  filter, the cap, the URLs and `Moderate`.
- `ContentCheckProperties` (`properties.dfy`): lemmas relating several runs,
  or relating the model to independent descriptions.
- `Scenarios` (`scenarios.dfy`): extension edge cases and two end-to-end runs.

Two behaviours of the code are easy to misread. The model follows the code:

- The extension of a dotless name is the whole name, not the empty string.
  A file named `png` is excluded and `README` is kept.
  `split` never returns an empty array, so the `?? ""` fallback is dead code.
- The merge takes the labels of every labelling result, failed or not. An
  alternative reading, in which failed results contribute no labels, agrees
  with the code when failed results carry no labels (`FailedLabelsContributeNothing`,
  `VerifierSeesSuccessfulLabels`).

## Model

| member | source | states |
|---|---|---|
| Text.Split | pages/api/src/moderation/contentcheck.ts:30 | `split(".")` yields at least one part, no part holds the separator, joining the parts gives back the name, and there is exactly one part iff the name has no separator |
| Text.LastPart | pages/api/src/moderation/contentcheck.ts:30 | the popped last part of a split never contains the separator |
| Text.Extension | pages/api/src/moderation/contentcheck.ts:30 | the extension (text after the last dot, or the whole name) never contains a dot |
| Text.ExtensionIsLastSplitPart | pages/api/src/moderation/contentcheck.ts:30 | the extension is exactly `name.split(".").pop()` |
| Text.ExtensionIsSuffixAfterDot | pages/api/src/moderation/contentcheck.ts:30 | the extension is a suffix of the name, and unless it is the whole name a dot stands right before it |
| Text.SplitWithoutSeparator | pages/api/src/moderation/contentcheck.ts:30 | a string without the separator splits into itself alone |
| Text.LastPartAfterSeparator | pages/api/src/moderation/contentcheck.ts:30 | the last segment of `p + "." + q` is the last segment of `q`: nothing before the last dot matters |
| Text.ExtensionOfDotlessName | pages/api/src/moderation/contentcheck.ts:30 | a name with no dot is its own extension (not the empty string) |
| Text.ExtensionAfterLastDot | pages/api/src/moderation/contentcheck.ts:30 | for `stem + "." + ext` with a dot-free `ext`, the extension is `ext` |
| Text.LowerChar | pages/api/src/moderation/contentcheck.ts:32 | one character lower-cased: `A`..`Z` become the letter 32 code points higher, in `a`..`z`; any other character is unchanged |
| Text.ToLower | pages/api/src/moderation/contentcheck.ts:32 | lower-casing keeps the length, turns each ASCII upper-case letter into its lower-case letter (32 code points higher), leaves no upper-case letter and changes no other character |
| Text.ToLowerMatchesIgnoringCase | pages/api/src/moderation/contentcheck.ts:31-33 | lower-casing then comparing with a lower-case word is a case-insensitive comparison, where two characters match iff they are equal or one is an ASCII upper-case letter and the other its lower-case letter |
| Seqs.Filter | pages/api/src/moderation/contentcheck.ts:29 | `filter` keeps only elements that satisfy the test, keeps every element that does, and adds nothing |
| Seqs.FilterAppend | pages/api/src/moderation/contentcheck.ts:29 | filtering a concatenation is the concatenation of the filtered parts (order is preserved) |
| Seqs.FilterSingle | pages/api/src/moderation/contentcheck.ts:29 | one element is kept exactly when it passes the test |
| Seqs.AddAll | pages/api/src/moderation/contentcheck.ts:50-52 | adding labels one by one to a set gives a list with no duplicates that holds exactly the old and the added elements and extends the old insertion order |
| Seqs.FirstOccurrences | pages/api/src/moderation/contentcheck.ts:57 | the reference order: no duplicates, exactly the elements of the input |
| Seqs.AddAllExtendsFirstOccurrences | pages/api/src/moderation/contentcheck.ts:50-52 | adding a suffix to the deduplicated prefix gives the deduplication of the whole |
| Seqs.SetInsertionOrder | pages/api/src/moderation/contentcheck.ts:50-57 | `Array.from` of the label set lists the labels in order of first appearance |
| ContentCheck.FilterFiles | pages/api/src/moderation/contentcheck.ts:29-34 | a name is retained iff it is submitted and its lower-cased extension is not an image extension; never more names than submitted |
| ContentCheck.Dispatched | pages/api/src/moderation/contentcheck.ts:37-39 | the labelled files are the first `min(filtered, 10)` retained names, and there are none only when nothing was retained |
| ContentCheck.Url | pages/api/src/moderation/contentcheck.ts:42 | the URL is the gateway prefix, then the CID, then `/`, then the file name |
| ContentCheck.Flatten | pages/api/src/moderation/contentcheck.ts:51 | `flatMap` holds a label iff some labelling result, successful or not, returned it |
| ContentCheck.Moderate | pages/api/src/moderation/contentcheck.ts:25-66 | one URL per retained name up to the cap, in order; one labeller answer per URL; the verifier is skipped iff files were retained and all labellings failed, and then the status is `NotStarted`; otherwise the verifier gets the title, the description and a duplicate-free list of exactly the returned labels; `Passed` iff it succeeded with confidence `>= 0.5`, `NeedsReview` iff it succeeded with less |
| ContentCheckProperties.EligibleIgnoresCase | pages/api/src/moderation/contentcheck.ts:30-33 | `IsEligible`: a file is excluded iff its extension equals one of `png jpg jpeg gif bmp svg` up to ASCII case |
| ContentCheckProperties.EligibleByLastSegment | pages/api/src/moderation/contentcheck.ts:30-33 | `IsEligible` of `stem.ext` with a dot-free `ext`, the file is kept iff `ext` lower-cased is not an image extension, whatever `stem` holds |
| ContentCheckProperties.IgnoresFilesBeyondCap | pages/api/src/moderation/contentcheck.ts:37-45 | once 10 names are retained, appending more files changes neither the requests nor the verdict |
| ContentCheckProperties.UrlRoundTrip | pages/api/src/moderation/contentcheck.ts:42 | the file name is read back from its URL, and a URL that reads back to a name is that name's URL |
| ContentCheckProperties.UrlInjective | pages/api/src/moderation/contentcheck.ts:42 | different files of one directory get different URLs |
| ContentCheckProperties.OnlyRequestedUrlsMatter | pages/api/src/moderation/contentcheck.ts:37-45 | labellers that agree on the dispatched URLs give the same run: no other file is labelled |
| ContentCheckProperties.OnlyVerifyRequestMatters | pages/api/src/moderation/contentcheck.ts:54-58 | verifiers that agree on the one recorded request give the same run |
| ContentCheckProperties.AllFailedShortCircuits | pages/api/src/moderation/contentcheck.ts:47-48 | when some file is retained and the labelling of every dispatched file (the first 10 retained) fails, the status is `NotStarted` with no verifier call, whatever the labeller says about files beyond the cap |
| ContentCheckProperties.AllFailedAppend | pages/api/src/moderation/contentcheck.ts:47 | `AllFailed` (`every(res => !res.success)`) holds of an empty batch, and of a concatenation iff of both parts |
| ContentCheckProperties.EmptyFilteredStillVerifies | pages/api/src/moderation/contentcheck.ts:47-58 | with no retained file nothing is labelled, the verifier is called with no labels and its answer alone decides |
| ContentCheckProperties.SuccessfulLabels | pages/api/src/moderation/contentcheck.ts:50-52 | the labels of the successful results only (the alternative reading in which failed results contribute no labels): a label is in it iff a successful result returned it |
| ContentCheckProperties.FailedLabelsContributeNothing | pages/api/src/moderation/contentcheck.ts:50-52 | when failed results carry no labels, merging every result equals merging the successful ones only |
| ContentCheckProperties.VerifierLabelsInFirstAppearanceOrder | pages/api/src/moderation/contentcheck.ts:50-57 | the verifier's label list is the labels in order of first appearance |
| ContentCheckProperties.VerifierSeesSuccessfulLabels | pages/api/src/moderation/contentcheck.ts:50-57 | with a labeller whose failures carry no labels, the verifier sees exactly the labels of successful results |
| ContentCheckProperties.StatusThreshold | pages/api/src/moderation/contentcheck.ts:60-65 | `StatusOf`: `Passed` iff success and confidence `>= 0.5` (0.5 included), `NeedsReview` iff success and below, `NotStarted` iff failure |
| ContentCheckProperties.StatusMonotone | pages/api/src/moderation/contentcheck.ts:60-62 | for successful answers a higher confidence never gives a worse status |
| Scenarios.DotlessImageNameExcluded | pages/api/src/moderation/contentcheck.ts:30-33 | a file named `png` is excluded |
| Scenarios.DotlessNameKept | pages/api/src/moderation/contentcheck.ts:30-33 | a file named `README` is kept |
| Scenarios.HiddenSvgExcluded | pages/api/src/moderation/contentcheck.ts:30-33 | a file named `.svg` is excluded |
| Scenarios.UpperCaseImageExcluded | pages/api/src/moderation/contentcheck.ts:30-33 | a `.JPG` file is excluded |
| Scenarios.LastSegmentOnly | pages/api/src/moderation/contentcheck.ts:30-33 | a `.png.zip` file is kept |
| Scenarios.PdfKept | pages/api/src/moderation/contentcheck.ts:30-33 | a `.pdf` file is kept |
| Scenarios.FilterKeepsOuterTwo | pages/api/src/moderation/contentcheck.ts:29-34 | eligible, ineligible, eligible filters to the first and the last |
| Scenarios.ThreeFilesFiltered | pages/api/src/moderation/contentcheck.ts:29-34 | `a.pdf b.png c.pdf` filters to `a.pdf c.pdf` |
| Scenarios.TwoFilesDispatched | pages/api/src/moderation/contentcheck.ts:37-45 | two retained files give two labelling requests, in order |
| Scenarios.OverlappingLabelsMerge | pages/api/src/moderation/contentcheck.ts:50-52 | labels `[cat]` and `[cat, dog]` merge to `[cat, dog]` |
| Scenarios.PdfScenarioPasses | pages/api/src/moderation/contentcheck.ts:25-66 | the PDFs are labelled, `b.png` is not, the verifier gets `[cat, dog]` and confidence 0.7 passes |
| Scenarios.PdfScenarioAllFailed | pages/api/src/moderation/contentcheck.ts:47-48 | the same files with every labelling failing give `NotStarted` with no verifier call |

## Left out

- The labeller (`./labeling`) and the verifier (`./moderation`) are not part of this model. They are the `Labeler` and `Verifier` parameters, assumed deterministic and never throwing.
- `Promise.all` concurrency is modelled as an ordered map over the URLs. No interleaving is modelled: the results are only read after the whole batch.
- `await` and the `async` arrow function are not modelled; `Moderate` is a pure function.
- Text.ToLower: lower-cases ASCII letters only; JavaScript's `toLowerCase` also maps non-ASCII letters.
- Every labeller answer, failed ones included, is assumed to carry `labels` as an array of strings (`LabelResult.labels` is a `seq<string>`); a failed answer with `labels` missing, which `flatMap` would turn into an `undefined` entry in the set, is not modelled.
- Confidence is a Dafny `real`. JavaScript number semantics (NaN, rounding) are not modelled.
- The `labeler`, `moderation` and `ipfsAddress` fields of the class are fixed: the first two are parameters, the address is the constant `IpfsAddress`.
- `author` is carried in `Content` but, as in the code, never read.
- `components/Form.tsx`, `rest/tip.ts` and `pages/post/[cid].tsx` are UI and network glue with no part in the decision.
