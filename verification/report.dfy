/**
 * The pull-request comment built from the failure records and the outcome of
 * the run (src/index.ts:86-107).
 */
module Report {
  import opened Wrappers
  import opened Text
  import opened Seqs
  import opened MarkdownLink
  import opened Failures
  import PercentEncoding

  const Heading := "### Validation failed!\n"
  const InvalidSamplesMessage := "Invalid samples!"

  /** One error line of a block. */
  function Bullet(error: string): (r: string)
    ensures |r| == |error| + 2 && r[..2] == "- " && r[2..] == error
  {
    "- " + error
  }

  /** The block of one failed file: a `File:` line with the link, the
      error lines joined by line breaks, and a final line break. */
  function Block(link: string, errors: seq<string>): (r: string)
    ensures |r| >= |link| + 8
    ensures r[..6] == "File: " && r[6..6 + |link|] == link && r[6 + |link|] == '\n'
    ensures r[|r| - 1] == '\n'
  {
    "File: " + link + "\n" + Join(Map(Bullet, errors), "\n") + "\n"
  }

  /** Which `getFileMarkdownUrl` builds the links: the one in the source, or
      the one that keeps the whole path after a second "blob/". */
  datatype LinkBuilder = AsWritten | Corrected

  function MarkdownUrl(builder: LinkBuilder, blobUrl: string): (r: Result<string, LinkError>)
    ensures r == Err(MissingBlobSegment) <==> !Contains(blobUrl, BlobMarker)
    ensures r.Ok? ==> IsLinkTo(r.value, blobUrl)
  {
    match builder
    case AsWritten => FileMarkdownUrl(blobUrl)
    case Corrected => CorrectedFileMarkdownUrl(blobUrl)
  }

  /** The block of one record; building the link may throw. */
  function FailureBlock(builder: LinkBuilder, rec: FailureRecord): (r: Result<string, LinkError>)
    ensures r == Err(MissingBlobSegment) <==> !Contains(rec.fileUrl, BlobMarker)
    ensures r.Err? <==> MarkdownUrl(builder, rec.fileUrl).Err?
    ensures r.Ok? ==> exists link :: IsLinkTo(link, rec.fileUrl) && r.value == Block(link, rec.body.errors)
  {
    var link :- MarkdownUrl(builder, rec.fileUrl);
    Ok(Block(link, rec.body.errors))
  }

  /** The text of a record's block, or nothing when its link cannot be built. */
  function BlockText(builder: LinkBuilder, rec: FailureRecord): string {
    match FailureBlock(builder, rec)
    case Ok(block) => block
    case Err(_) => ""
  }

  /** `errors.map(...)`: one block per record in record order; the first
      record whose link throws aborts the whole map. */
  function Blocks(builder: LinkBuilder, records: seq<FailureRecord>): (r: Result<seq<string>, LinkError>)
    ensures r.Ok? <==> forall k :: 0 <= k < |records| ==> FailureBlock(builder, records[k]).Ok?
    ensures r.Ok? ==> |r.value| == |records|
                      && forall k :: 0 <= k < |records| ==> r.value[k] == FailureBlock(builder, records[k]).value
    ensures r.Err? ==> exists k :: 0 <= k < |records| && FailureBlock(builder, records[k]) == Err(r.error)
                                   && forall j :: 0 <= j < k ==> FailureBlock(builder, records[j]).Ok?
  {
    MapResult(rec => FailureBlock(builder, rec), records)
  }

  /** The report body: the blocks joined by line breaks. */
  function ReportBody(builder: LinkBuilder, records: seq<FailureRecord>): (r: Result<string, LinkError>)
    ensures r.Ok? <==> Blocks(builder, records).Ok?
    ensures r.Err? ==> r.error == Blocks(builder, records).error
    ensures r.Ok? && records != [] ==>
              Split(r.value, "\n") == Flatten(SplitEach(Blocks(builder, records).value, '\n'))
  {
    var blocks :- Blocks(builder, records);
    if blocks == [] then Ok(Join(blocks, "\n"))
    else
      SplitJoinFlatten(blocks, '\n');
      Ok(Join(blocks, "\n"))
  }

  /** How the run ends once the failure list is known. */
  datatype RunOutcome =
    | Passed                                           // no comment, the run is not failed
    | InvalidSamples(comment: string, message: string) // comment posted, run failed with message
    | Aborted(error: LinkError)                        // building the report threw: setFailed(error)

  function Outcome(builder: LinkBuilder, errors: seq<FailureRecord>): (o: RunOutcome)
    ensures o.Passed? <==> errors == []
    ensures o.Aborted? <==> exists k :: 0 <= k < |errors| && FailureBlock(builder, errors[k]).Err?
    ensures o.Aborted? ==> ReportBody(builder, errors) == Err(o.error)
    ensures o.InvalidSamples? ==> o.message == InvalidSamplesMessage
    ensures o.InvalidSamples? ==>
              |o.comment| >= |Heading| && o.comment[..|Heading|] == Heading
              && ReportBody(builder, errors) == Ok(o.comment[|Heading|..])
  {
    if |errors| == 0 then Passed
    else
      match ReportBody(builder, errors)
      case Err(e) => Aborted(e)
      case Ok(body) => InvalidSamples(Heading + body, InvalidSamplesMessage)
  }

  /** Lines of a block whose link and errors hold no line break: the `File:`
      line, one `- ` line per error in order (a single empty line when there
      are none), and the empty line after the final break. */
  lemma BlockLines(link: string, errors: seq<string>)
    requires '\n' !in link
    requires forall k :: 0 <= k < |errors| ==> '\n' !in errors[k]
    ensures Split(Block(link, errors), "\n")
            == ["File: " + link] + (if errors == [] then [""] else Map(Bullet, errors)) + [""]
  {
    var first := "File: " + link;
    var bullets := Map(Bullet, errors);
    assert Block(link, errors) == first + ['\n'] + (Join(bullets, "\n") + ['\n']);
    assert forall k :: 0 <= k < |bullets| ==> '\n' !in bullets[k] by {
      forall k | 0 <= k < |bullets|
        ensures '\n' !in bullets[k]
      {
        assert bullets[k] == "- " + errors[k];
      }
    }
    SplitLines(first, bullets, '\n');
  }

  /** Reordering the records does not change whether the report can be built,
      nor which blocks it holds. */
  lemma BlocksOrderIndependent(builder: LinkBuilder, r1: seq<FailureRecord>, r2: seq<FailureRecord>)
    requires multiset(r1) == multiset(r2)
    ensures Blocks(builder, r1).Ok? <==> Blocks(builder, r2).Ok?
    ensures Blocks(builder, r1).Ok? ==> multiset(Blocks(builder, r1).value) == multiset(Blocks(builder, r2).value)
  {
    if Blocks(builder, r1).Ok? != Blocks(builder, r2).Ok? {
      if Blocks(builder, r1).Ok? {
        BlockFailsSomewhere(builder, r2, r1);
      } else {
        BlockFailsSomewhere(builder, r1, r2);
      }
    }
    if Blocks(builder, r1).Ok? && Blocks(builder, r2).Ok? {
      BlocksAreTexts(builder, r1);
      BlocksAreTexts(builder, r2);
      MapPermutation(rec => BlockText(builder, rec), r1, r2);
    }
  }

  lemma BlocksAreTexts(builder: LinkBuilder, records: seq<FailureRecord>)
    requires Blocks(builder, records).Ok?
    ensures Blocks(builder, records).value == Map(rec => BlockText(builder, rec), records)
  {
  }

  lemma BlockFailsSomewhere(builder: LinkBuilder, bad: seq<FailureRecord>, good: seq<FailureRecord>)
    requires multiset(bad) == multiset(good) && Blocks(builder, bad).Err?
    ensures Blocks(builder, good).Err?
  {
    var k :| 0 <= k < |bad| && FailureBlock(builder, bad[k]).Err?;
    assert bad[k] in multiset(good);
    var j :| 0 <= j < |good| && good[j] == bad[k];
  }

  /** Reordering the records does not change how the run ends, up to the
      order of the blocks and which failing link is reported first. */
  lemma OutcomeOrderIndependent(builder: LinkBuilder, r1: seq<FailureRecord>, r2: seq<FailureRecord>)
    requires multiset(r1) == multiset(r2)
    ensures Outcome(builder, r1).Passed? <==> Outcome(builder, r2).Passed?
    ensures Outcome(builder, r1).Aborted? <==> Outcome(builder, r2).Aborted?
    ensures Outcome(builder, r1).InvalidSamples? ==>
              multiset(Blocks(builder, r1).value) == multiset(Blocks(builder, r2).value)
  {
    BlocksOrderIndependent(builder, r1, r2);
    if r1 == [] {
      assert |multiset(r2)| == 0;
    } else {
      assert |multiset(r2)| == |r1|;
    }
  }

  // ---- The two link builders in the report ----

  /** The URL has at most one "blob/" after the first one's start: none at
      all, or none in the text after the first. */
  predicate SingleBlobSegment(blobUrl: string) {
    !Contains(blobUrl, BlobMarker) || !Contains(AfterMarker(blobUrl), BlobMarker)
  }

  /** On URLs without a second "blob/", both builders give the same block. */
  lemma BuildersAgreeOnBlock(rec: FailureRecord)
    requires SingleBlobSegment(rec.fileUrl)
    ensures FailureBlock(AsWritten, rec) == FailureBlock(Corrected, rec)
  {
    if Contains(rec.fileUrl, BlobMarker) {
      CorrectionAgreesWithoutSecondMarker(rec.fileUrl);
    }
  }

  /** When no record's URL holds a second "blob/", the run ends the same way
      with either builder. */
  lemma BuildersAgreeOnOutcome(errors: seq<FailureRecord>)
    requires forall k :: 0 <= k < |errors| ==> SingleBlobSegment(errors[k].fileUrl)
    ensures Outcome(AsWritten, errors) == Outcome(Corrected, errors)
  {
    forall k | 0 <= k < |errors|
      ensures FailureBlock(AsWritten, errors[k]) == FailureBlock(Corrected, errors[k])
    {
      BuildersAgreeOnBlock(errors[k]);
    }
    MapResultPointwise(rec => FailureBlock(AsWritten, rec), rec => FailureBlock(Corrected, rec), errors);
  }

  /** As written, a failed file under `<dir>/blob/` gets the block of a link
      showing only `<dir>/`; the corrected builder shows the whole path. */
  lemma BlockWithBlobDir(base: string, ref: string, dir: string, file: string, errors: seq<string>)
    requires !Contains(base, BlobMarker)
    requires '/' !in ref && !EndsWith(ref, "blob")
    requires !EndsWith(PercentEncoding.Encode(dir), "blob")
    ensures var url := base + BlobMarker + (ref + "/" + (PercentEncoding.Encode(dir) + "/" + "blob" + "/" + PercentEncoding.Encode(file)));
      && FailureBlock(AsWritten, FailureRecord(url, Validation(false, errors))) == Ok(Block(Link(dir + "/", url), errors))
      && FailureBlock(Corrected, FailureRecord(url, Validation(false, errors)))
         == Ok(Block(Link(dir + "/" + "blob" + "/" + file, url), errors))
  {
    var url := base + BlobMarker + (ref + "/" + (PercentEncoding.Encode(dir) + "/" + "blob" + "/" + PercentEncoding.Encode(file)));
    var rec := FailureRecord(url, Validation(false, errors));
    SecondMarkerCutsName(base, ref, dir, file);
    BlockOfLink(AsWritten, rec, Link(dir + "/", url));
    BlockOfLink(Corrected, rec, Link(dir + "/" + "blob" + "/" + file, url));
  }

  lemma BlockOfLink(builder: LinkBuilder, rec: FailureRecord, link: string)
    requires MarkdownUrl(builder, rec.fileUrl) == Ok(link)
    ensures FailureBlock(builder, rec) == Ok(Block(link, rec.body.errors))
  {
  }
}
