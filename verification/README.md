# Sample validation action, modelled in Dafny

The action runs on a pull request to a repository of SharePoint/Microsoft 365
samples (`src/index.ts`). It works in four steps:

1. List the files the pull request changes and keep those whose name ends with `sample.json`.
2. Send each kept file to a remote validator, concurrently. Every answer that is not valid is pushed onto a shared list as it arrives.
3. If that list is not empty, post a comment on the pull request. The comment has a `### Validation failed!` heading and one block per failed file. Each block has a Markdown link to the file and one bullet per error.
4. Mark the run failed with `Invalid samples!`.

The link is built by `getFileMarkdownUrl`. It cuts the blob URL at `blob/`, drops the ref segment, and percent-decodes the rest with `decodeURIComponent` to form the link text.

The model takes the validator's answers as input. It also takes the order in which the validations complete as input, as a permutation of the file positions. Everything after that is modelled and proved:

- the filter;
- the collection of failure records, as a method with a loop;
- the report and the outcome of the run;
- the link builder, including a full model of `decodeURIComponent` as ECMA-262 defines it.

`decodeURIComponent` covers `%HH` escapes and UTF-8 sequences of two to four octets. Malformed escapes, stray continuation octets, overlong forms, surrogates and values above U+10FFFF throw a URIError. Percent-encoding follows section 2.1 of RFC 3986. The partner of the decoder is a model of `encodeURIComponent` (`PercentEncoding.Encode`), and decoding what it encodes gives the input back.

Modules:

| module | file | content |
|---|---|---|
| `Wrappers` | wrappers.dfy | `Option` and `Result` |
| `Text` | text.dfy | JavaScript `endsWith`, `split` with a non-empty separator, `join`, and their laws |
| `Seqs` | seqs.dfy | `map`, a throwing `map`, `flatMap`, and invariance under reordering |
| `PercentEncoding` | percent_encoding.dfy | `decodeURIComponent`, `encodeURIComponent` and the round trip |
| `MarkdownLink` | markdown_link.dfy | `getFileMarkdownUrl` as written and corrected (see Findings) |
| `Samples` | samples.dfy | the changed-file record and the `sample.json` filter |
| `Failures` | failures.dfy | validation answers, failure records, and the collecting method |
| `Report` | report.dfy | blocks, report body, comment and run outcome, for either link builder |
| `Action` | action.dfy | one whole run |

A blob URL without `blob/` makes line 118 throw a TypeError, which the `catch` at lines 109-111 turns into `setFailed(error)`. The model therefore treats this case as an error result (`Err(MissingBlobSegment)`, giving the run outcome `Aborted`), not as a precondition.

## Model

| member | source | states |
|---|---|---|
| Samples.SampleFilesInOrder | src/index.ts:54 | The filter's k-th result is the input file at the k-th position whose name ends with `sample.json`. So it keeps exactly those files, unchanged and in input order. |
| Samples.SampleFilesMembership | src/index.ts:54 | A file is kept if and only if it is in the input and its name ends with `sample.json` (case-sensitive suffix). |
| Samples.SampleIndicesComplete | src/index.ts:54 | Every position holding a sample file is among the selected positions. |
| Samples.SampleFilesAppend | src/index.ts:54 | Filtering a concatenation is the concatenation of the filtered parts. |
| Samples.SampleFilesIdempotent | src/index.ts:54 | Filtering an already filtered list changes nothing. |
| Samples.IsSample | src/index.ts:54 | The filter's test: a file is a sample if and only if its name is some text followed by `sample.json`. |
| Samples.SampleFiles | src/index.ts:54 | The `filter` itself. Its own contract says only that it keeps at most as many files as it is given and that every kept file is a sample. `Samples.SampleFilesInOrder` pins down exactly which files it keeps and in what order. |
| Failures.FailuresInOrder | src/index.ts:79-81 | In file order, there is exactly one record per answer that is not valid. Valid answers add none. Each record carries that file's blob URL and the answer unchanged. |
| Failures.FailuresMembership | src/index.ts:79-81 | A record is collected if and only if it is `{blob URL of file i, answer i}` for some answer i that is not valid. |
| Failures.FailuresEmptyIffAllValid | src/index.ts:79-81 | No record is collected if and only if every answer is valid. |
| Failures.RecordFor | src/index.ts:79-81 | What one validation pushes: nothing if and only if the answer is valid, otherwise exactly one record holding the file's blob URL and the answer. |
| Failures.InvalidIndicesComplete | src/index.ts:79 | Every position of an answer that is not valid is listed. |
| Failures.FailuresAlongRange | src/index.ts:62-84 | Completing the validations in file order pushes the records in file order. |
| Failures.FailuresOrderIndependent | src/index.ts:62-84 | Any completion order pushes the same records, each the same number of times (same multiset) as in file order. |
| Failures.FailuresAlong | src/index.ts:62-84 | The records pushed in a given completion order. Each one is the record `{blob URL of file i, answer i}` of some position i in that order whose answer is not valid. |
| Failures.CollectFailures | src/index.ts:57-84 | The loop that pushes onto `errors` in completion order produces exactly the records of that order. As a multiset, they are the records in file order. |
| Seqs.MapResult | src/index.ts:87-93 | A `map` whose callback may throw succeeds if and only if every element succeeds, and then yields the callback's values in order. Otherwise it fails with the error of the first element that throws. |
| Seqs.FlatMapPermutation | src/index.ts:62-84 | Reordering the inputs of a `flatMap` only reorders its output. |
| Seqs.MapPermutation | src/index.ts:87-93 | Reordering the inputs of a `map` only reorders its output. |
| Seqs.Map | src/index.ts:87-92 | `map` yields one value per element, in order, each the callback applied to that element. |
| Seqs.FlatMap | src/index.ts:62-84 | The records of all the completions put one after the other. Its own contract says that the result is empty if and only if every element's output is empty. `Seqs.FlatMapAppend` and `Seqs.FlatMapPermutation` describe it further. |
| Seqs.FlatMapOrigins | src/index.ts:62-84 | Every element of a `flatMap` comes from the output for some input element. |
| Report.BlockLines | src/index.ts:89-91 | If no text in a block holds a line break, the block's lines are: the `File: <link>` line, one `- <error>` line per error in the answer's order (a single empty line when there are none), and an empty line. |
| Report.Bullet | src/index.ts:90 | An error line is `- ` followed by the error; removing those two characters gives the error back. |
| Report.Block | src/index.ts:89-91 | A block starts with `File: `, the link and a line break, and it ends with a line break. `Report.BlockLines` gives all its lines. |
| Report.FailureBlock | src/index.ts:88-92 | The block of one record throws the missing-`blob/` TypeError exactly when the URL has no `blob/`, and throws exactly when the chosen link builder throws. A block that is built is the block of some link whose target is the record's blob URL. |
| Report.Blocks | src/index.ts:87-92 | The outer `map`: it succeeds if and only if every record's block is built, and then gives those blocks in record order. Otherwise it throws the error of the first record whose block throws. |
| Report.ReportBody | src/index.ts:87-93 | The body is built if and only if every block is, and otherwise fails with the error of the blocks. When there is at least one record, the body's lines are the lines of each block, in record order. |
| Report.MarkdownUrl | src/index.ts:89 | The link builder a block calls, either `getFileMarkdownUrl` as written or the corrected one. Both throw the missing-`blob/` TypeError exactly when there is no `blob/`, and both keep the blob URL verbatim as the link target. |
| Report.Outcome | src/index.ts:86-111 | The run passes if and only if there are no failure records. It aborts if and only if some record's link cannot be built by the chosen builder; this covers a URIError from line 121 as well as the missing-`blob/` TypeError. An aborted run carries the error of the report body, which is the error of the first record whose block throws; that is the error `setFailed(error)` reports. Otherwise it fails with `Invalid samples!` and a comment that is `### Validation failed!\n` followed by the report body. |
| Report.BlocksOrderIndependent | src/index.ts:87-93 | Reordering the records changes neither whether the report can be built nor the multiset of its blocks. |
| Report.OutcomeOrderIndependent | src/index.ts:86-107 | Reordering the records changes neither whether the run passes nor whether it aborts. A comment, when posted, holds the same blocks. |
| Action.Run | src/index.ts:47-107 | A whole run is the outcome of the failures collected in the given completion order, with links built by `getFileMarkdownUrl` as written. It passes if and only if every sample's answer is valid. When it fails for invalid samples, the message is `Invalid samples!`. |
| Action.RunOrderIndependent | src/index.ts:62-107 | For either link builder, two completion orders end the run the same way: both pass, both abort, or both post comments with the same blocks. |
| Report.BuildersAgreeOnBlock | src/index.ts:89 | For a URL with no second `blob/`, the block is the same whichever builder is used. |
| Report.BuildersAgreeOnOutcome | src/index.ts:86-107 | When no failure URL holds a second `blob/`, the run ends identically with either builder: the same comment, or the same abort. |
| Report.BlockWithBlobDir | src/index.ts:89-91 | For a failed file under `<dir>/blob/`, the block as written links with the text `<dir>/`. The corrected builder's block shows the whole path. |
| Text.IndexFrom | src/index.ts:118 | The search that `split` performs finds the first occurrence of the separator at or after the start position, or reports that there is none. |
| Text.EndsWith | src/index.ts:54 | `endsWith` holds if and only if the text is some text followed by the suffix. |
| Text.Split | src/index.ts:118 | `split` with a non-empty separator. Its own contract says only that there is at least one piece. `Text.JoinSplit`, `Text.SplitPiecesAvoidSeparator` and `Text.IndexFrom` pin down the pieces. |
| Text.Join | src/index.ts:119 | `join` keeps every character of every part and puts one separator between each two parts: its length is the parts' total length plus one separator per gap. `Text.JoinSplit` and `Text.SplitJoinChar` relate it to `split`. |
| Text.SplitPiecesAvoidSeparator | src/index.ts:118 | No piece that `split` returns contains the separator. |
| Text.JoinSplit | src/index.ts:118-119 | Joining the pieces of a `split` with the same separator gives the text back. |
| Text.SplitJoinChar | src/index.ts:89-93 | Splitting a `join` on a one-character separator gives back the joined pieces, when none holds that character. |
| Text.SplitAtChar | src/index.ts:89-93 | Splitting on a one-character separator cuts at every occurrence: the split of `a + c + b` is the split of `a` followed by the split of `b`. |
| Text.SplitJoinFlatten | src/index.ts:87-93 | Splitting a `join` on its one-character separator gives the pieces of each joined element, in order. |
| MarkdownLink.FileMarkdownUrl | src/index.ts:117-122 | `getFileMarkdownUrl` as written. It throws a TypeError exactly when the URL has no `blob/`. A link it produces always has the blob URL, verbatim, as its target. |
| MarkdownLink.Link | src/index.ts:121 | The Markdown link `[text](target)`: the text and the target can be read back from their places in it. |
| MarkdownLink.RawName | src/index.ts:118-119 | The name as written fails exactly when there is no `blob/`. |
| MarkdownLink.RawNameBetweenMarkers | src/index.ts:118-119 | The name as written is the text between the first `blob/` and the next one (or the end), with its first `/` segment (the ref) removed. It is empty when that text has no `/`. |
| MarkdownLink.DropRefBySplitJoin | src/index.ts:118-119 | `split("/")`, dropping the first piece and `join("/")` leave exactly the text after the first `/`, or nothing. |
| MarkdownLink.LinkFor | src/index.ts:121 | The link is produced exactly when the name decodes (a URIError otherwise). Its target is the blob URL, verbatim. |
| MarkdownLink.FileMarkdownUrlText | src/index.ts:117-122 | The link text is the percent-decoded name. The link is produced exactly when that name decodes. |
| MarkdownLink.LinkShowsPath | src/index.ts:117-122 | For a blob URL `<base>blob/<ref>/<encoded path>` whose base (the host, owner and repository part) holds no `blob/`, and with no further `blob/` after the ref, the link as written shows the decoded path and links to the URL unchanged. |
| MarkdownLink.SecondMarkerCutsName | src/index.ts:118 | As written, a path `<dir>/blob/<file>` below the ref gives the link text `<dir>/`. The corrected link gives `<dir>/blob/<file>`. |
| MarkdownLink.RawNameWithBlobDir | src/index.ts:118-119 | As written, the name taken from such a URL is the encoded `dir` followed by `/`. |
| MarkdownLink.CorrectedFileMarkdownUrl | src/index.ts:117-122 | The corrected link builder throws the missing-`blob/` TypeError in exactly the same case as the original, and keeps the blob URL as the link target. Its URIError cases can differ, because it decodes a longer name. |
| MarkdownLink.CorrectedRawNameAfterMarker | src/index.ts:118-119 | The corrected name is everything after the first `blob/`, with the ref removed. |
| MarkdownLink.CorrectedLinkShowsPath | src/index.ts:117-122 | For a blob URL `<base>blob/<ref>/<encoded path>` whose base (the host, owner and repository part) holds no `blob/`, the corrected link shows the decoded path, whatever the path's segments are called. |
| MarkdownLink.CorrectionAgreesWithoutSecondMarker | src/index.ts:118 | With no second `blob/`, the corrected and the original link builders agree. |
| MarkdownLink.DecodeEncodedPath | src/index.ts:121 | Decoding a path whose segments were percent-encoded and joined with `/` gives the path joined with `/`. |
| MarkdownLink.NoMarkerInJoin | src/index.ts:118 | Segments without `/` joined by `/` contain `blob/` only where a segment other than the last ends in `blob`. |
| PercentEncoding.Decode | src/index.ts:121 | `decodeURIComponent` never yields more characters than its input has. |
| PercentEncoding.DecodeEncode | src/index.ts:121 | Decoding the `encodeURIComponent` form of any string gives the string back. |
| PercentEncoding.DecodeWithoutEscapes | src/index.ts:121 | Text without `%` decodes to itself. |
| PercentEncoding.DecodeAppend | src/index.ts:121 | Decoding goes left to right: after a prefix that decodes, the rest is decoded on its own, and the whole throws exactly when the rest throws. |
| PercentEncoding.MalformedEscapeRejected | src/index.ts:121 | A `%` that is not followed by two hexadecimal digits throws a URIError, wherever it stands after text that decodes. |
| PercentEncoding.Utf8RoundTrip | src/index.ts:121 | The UTF-8 octets of a character decode to that character. |
| PercentEncoding.EncodeHasNoSlash | src/index.ts:118 | An encoded path segment holds no `/`. |
| PercentEncoding.EncodeUnreserved | src/index.ts:121 | Text made only of unreserved characters encodes to itself. |
| PercentEncoding.TruncatedEscapeRejected | src/index.ts:121 | `%`, `%2` and `%zz` throw a URIError. |
| PercentEncoding.StrayOctetRejected | src/index.ts:121 | A continuation octet or an invalid leading octet on its own throws. |
| PercentEncoding.OverlongRejected | src/index.ts:121 | The overlong form `%C0%AF` throws. |
| PercentEncoding.SurrogateRejected | src/index.ts:121 | An encoded surrogate (`%ED%A0%80`) throws. |

## Left out

- GitHub API calls are network I/O and are not modelled: listing the pull request's files (lines 47-52), fetching each file (line 63) and posting the comment (lines 97-102).
  - Only the first page of `listFiles` is what the action sees. The model takes the list it receives as input.
- The HTTP POST to the remote validator and `JSON.parse` of its reply (lines 69-77) are a remote service and a foreign parser. The model takes the parsed answers as input.
  - An answer without `isValid` counts as not valid (`!undefined`). The model only has answers with both fields.
- Base64 decoding of the file content (lines 64-67) is a library call, and only its result goes to the validator.
- Concurrency (`Promise.all`, lines 62-84) is modelled as a given completion order. Three things are left out:
  - interleavings inside a single validation;
  - a rejected fetch or POST aborting the run through `setFailed(error)`;
  - sibling validations still running after such a rejection.
- The `createComment` call is not awaited, so its `catch` (lines 103-105) never observes a failure. The model's posted comment is the body handed to it; a failed post is not modelled.
- The dead listing of all files (lines 29-37), the debug logging (lines 40-44, 110), `getInput` and `context.payload` reads (lines 14-26) are environment plumbing.
- Report.Outcome: for an aborted run, the model keeps the kind of error (`MissingBlobSegment` for the TypeError, `MalformedEscape` for the URIError), not the text of the message the host prints.
- MarkdownLink.CorrectedFileMarkdownUrl: the correction only fixes a second `blob/` after the ref. When the owner or repository name itself ends in `blob` (a URL such as `h/x-blob/blob/r/f`), the first `blob/` is inside the base. Both builders then cut at the wrong place: the corrected link keeps the ref (`r/f`) and the original shows nothing. The model proves the intended link text only for a base without `blob/`.
- Strings are sequences of Unicode scalar values, not JavaScript's UTF-16 code units. `encodeURIComponent` throwing on a lone surrogate therefore cannot arise, and lengths count characters, not code units.
- `decodeURIComponent` is modelled on such strings: a decoded supplementary character is one character, not a surrogate pair.

## Findings

| source | as written | input that shows it | evidently intended | confidence | as-written member | corrected member |
|---|---|---|---|---|---|---|
| src/index.ts:118 | `blobUrl.split("blob/")[1]` keeps only the text up to the next `blob/`. A path with a directory named `blob` (or ending in `blob`) loses everything from that `blob/` on. | `https://github.com/pnp/sp-dev-fx-webparts/blob/main/samples/blob/sample.json` gives the link text `samples/` | The link text is the whole path below the ref: `samples/blob/sample.json` | not executed | MarkdownLink.SecondMarkerCutsName | MarkdownLink.CorrectedLinkShowsPath |

The report functions take the link builder as a parameter (`Report.LinkBuilder`).
- `Action.Run` models the action as written, with `getFileMarkdownUrl` as in the source.
- With the `Corrected` builder, the same functions give the report the action evidently intends, for blob URLs whose base (the host, owner and repository part) holds no `blob/`.
- Every order-independence lemma holds for both builders.
- The two builders give the same block and the same run outcome whenever no URL holds a second `blob/` (`Report.BuildersAgreeOnBlock`, `Report.BuildersAgreeOnOutcome`).
- Where a URL does hold one, the outcomes can differ in two ways:
  - the link text differs (`Report.BlockWithBlobDir`);
  - the decode can throw with one builder and not with the other, so one run aborts while the other posts a comment. No lemma states this second way.
