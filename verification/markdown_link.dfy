/**
 * `getFileMarkdownUrl` (src/index.ts): a Markdown link to a changed file
 * whose target is the file's blob URL and whose text is the file's path,
 * found by splitting the URL on "blob/", dropping the ref segment and
 * percent-decoding what remains.
 */
module MarkdownLink {
  import opened Wrappers
  import opened Text
  import opened Seqs
  import PercentEncoding

  const BlobMarker := "blob/"

  /** The two ways `getFileMarkdownUrl` throws. */
  datatype LinkError =
    | MissingBlobSegment  // no "blob/": element [1] of the split is undefined (a TypeError)
    | MalformedEscape     // decodeURIComponent throws a URIError

  /** A Markdown inline link `[text](target)`. */
  function Link(text: string, target: string): (r: string)
    ensures |r| == |text| + |target| + 4
    ensures r[1..|text| + 1] == text && r[|text| + 3..|r| - 1] == target
  {
    "[" + text + "](" + target + ")"
  }

  /** `md` is a Markdown link whose target is exactly `target`. */
  predicate IsLinkTo(md: string, target: string) {
    |md| >= |target| + 4 && md == Link(md[1..|md| - |target| - 3], target)
  }

  /** The path below the ref: what follows the first `/` of `segment`, or
      nothing when it has no `/`. */
  function DropRef(segment: string): string {
    match IndexFrom(segment, "/", 0)
    case None => ""
    case Some(k) => segment[k + 1..]
  }

  /** Line 118-119 as written: element [1] of `split("blob/")`, split on "/",
      its first segment dropped and the rest rejoined with "/". */
  function RawName(blobUrl: string): (r: Result<string, LinkError>)
    ensures r.Err? <==> !Contains(blobUrl, BlobMarker)
    ensures r.Err? ==> r.error == MissingBlobSegment
  {
    var parts := Split(blobUrl, BlobMarker);
    if |parts| < 2 then Err(MissingBlobSegment)
    else Ok(Join(Split(parts[1], "/")[1..], "/"))
  }

  /** Line 121: the decoded name as link text, the blob URL as target. */
  function LinkFor(name: string, blobUrl: string): (r: Result<string, LinkError>)
    ensures r.Err? <==> PercentEncoding.Decode(name).None?
    ensures r.Ok? ==> IsLinkTo(r.value, blobUrl)
    ensures r.Err? ==> r.error == MalformedEscape
  {
    match PercentEncoding.Decode(name)
    case None => Err(MalformedEscape)
    case Some(text) => Ok(Link(text, blobUrl))
  }

  /** `getFileMarkdownUrl(blobUrl)` as written. */
  function FileMarkdownUrl(blobUrl: string): (r: Result<string, LinkError>)
    ensures r == Err(MissingBlobSegment) <==> !Contains(blobUrl, BlobMarker)
    ensures r.Ok? ==> IsLinkTo(r.value, blobUrl)
  {
    var name :- RawName(blobUrl);
    LinkFor(name, blobUrl)
  }

  /** `getFileMarkdownUrl` with the name taken from everything after the first
      "blob/" (`split("blob/").slice(1).join("blob/")`), so that a later
      "blob/" in the path no longer cuts the name short. */
  function CorrectedRawName(blobUrl: string): (r: Result<string, LinkError>)
    ensures r.Err? <==> !Contains(blobUrl, BlobMarker)
  {
    var parts := Split(blobUrl, BlobMarker);
    if |parts| < 2 then Err(MissingBlobSegment)
    else Ok(Join(Split(Join(parts[1..], BlobMarker), "/")[1..], "/"))
  }

  function CorrectedFileMarkdownUrl(blobUrl: string): (r: Result<string, LinkError>)
    ensures r == Err(MissingBlobSegment) <==> !Contains(blobUrl, BlobMarker)
    ensures r.Ok? ==> IsLinkTo(r.value, blobUrl)
  {
    var name :- CorrectedRawName(blobUrl);
    LinkFor(name, blobUrl)
  }

  // ---- What the link text is ----

  /** `segment.split("/").slice(1).join("/")` is the text after the first "/". */
  lemma DropRefBySplitJoin(segment: string)
    ensures Join(Split(segment, "/")[1..], "/") == DropRef(segment)
  {
    match IndexFrom(segment, "/", 0)
    case None =>
    case Some(k) =>
      var rest := segment[k + 1..];
      assert Split(segment, "/")[1..] == Split(rest, "/");
      JoinSplit(rest, "/");
  }

  /** The text after the first "blob/". */
  function AfterMarker(blobUrl: string): (r: string)
    requires Contains(blobUrl, BlobMarker)
    ensures |r| <= |blobUrl|
  {
    var i := IndexFrom(blobUrl, BlobMarker, 0).value;
    blobUrl[i + |BlobMarker|..]
  }

  /** The text after the first "blob/" up to the next "blob/", or to the end. */
  function BetweenMarkers(blobUrl: string): string
    requires Contains(blobUrl, BlobMarker)
  {
    Split(AfterMarker(blobUrl), BlobMarker)[0]
  }

  /** After its first piece, `split("blob/")` is the split of the text after the first "blob/". */
  lemma SplitAtFirstMarker(blobUrl: string)
    requires Contains(blobUrl, BlobMarker)
    ensures |Split(blobUrl, BlobMarker)| >= 2
    ensures Split(blobUrl, BlobMarker)[1..] == Split(AfterMarker(blobUrl), BlobMarker)
  {
    var i := IndexFrom(blobUrl, BlobMarker, 0).value;
    var after := blobUrl[i + |BlobMarker|..];
    assert AfterMarker(blobUrl) == after;
    assert Split(blobUrl, BlobMarker) == [blobUrl[..i]] + Split(after, BlobMarker);
  }

  /** The second piece of `split("blob/")` is the text between the first two markers. */
  lemma SecondPieceBetweenMarkers(blobUrl: string)
    requires Contains(blobUrl, BlobMarker)
    ensures |Split(blobUrl, BlobMarker)| >= 2
    ensures Split(blobUrl, BlobMarker)[1] == BetweenMarkers(blobUrl)
  {
    SplitAtFirstMarker(blobUrl);
  }

  /** The name as written is the text between the first "blob/" and the next
      one (or the end), with its first "/"-segment, the ref, removed; it is
      empty when that text has no "/". */
  lemma RawNameBetweenMarkers(blobUrl: string)
    requires Contains(blobUrl, BlobMarker)
    ensures RawName(blobUrl) == Ok(DropRef(BetweenMarkers(blobUrl)))
  {
    SecondPieceBetweenMarkers(blobUrl);
    DropRefBySplitJoin(BetweenMarkers(blobUrl));
  }

  /** The corrected name is everything after the first "blob/" with the ref removed. */
  lemma CorrectedRawNameAfterMarker(blobUrl: string)
    requires Contains(blobUrl, BlobMarker)
    ensures CorrectedRawName(blobUrl) == Ok(DropRef(AfterMarker(blobUrl)))
  {
    SplitAtFirstMarker(blobUrl);
    JoinSplit(AfterMarker(blobUrl), BlobMarker);
    DropRefBySplitJoin(AfterMarker(blobUrl));
  }

  /** The link text is the percent-decoded name, and the link is produced
      exactly when "blob/" occurs and the name decodes. */
  lemma FileMarkdownUrlText(blobUrl: string)
    requires Contains(blobUrl, BlobMarker)
    ensures var name := DropRef(BetweenMarkers(blobUrl));
      && (FileMarkdownUrl(blobUrl).Ok? <==> PercentEncoding.Decode(name).Some?)
      && (FileMarkdownUrl(blobUrl).Ok? ==>
            FileMarkdownUrl(blobUrl).value == Link(PercentEncoding.Decode(name).value, blobUrl))
  {
    RawNameBetweenMarkers(blobUrl);
  }

  /** When no second "blob/" follows the first, the corrected definition and
      the one as written produce the same link. */
  lemma CorrectionAgreesWithoutSecondMarker(blobUrl: string)
    requires Contains(blobUrl, BlobMarker)
    requires !Contains(AfterMarker(blobUrl), BlobMarker)
    ensures CorrectedFileMarkdownUrl(blobUrl) == FileMarkdownUrl(blobUrl)
  {
    RawNameBetweenMarkers(blobUrl);
    CorrectedRawNameAfterMarker(blobUrl);
    SplitWithoutSeparator(AfterMarker(blobUrl), BlobMarker);
  }

  // ---- Blob URLs built from a path ----

  /** A repository path as it appears in a blob URL: each segment percent-encoded. */
  function EncodePath(path: seq<string>): string {
    Join(Map(PercentEncoding.Encode, path), "/")
  }

  lemma {:induction false} DecodeEncodedPath(path: seq<string>)
    ensures PercentEncoding.Decode(EncodePath(path)) == Some(Join(path, "/"))
    decreases |path|
  {
    var encoded := Map(PercentEncoding.Encode, path);
    if |path| == 0 {
      assert EncodePath(path) == [];
    } else if |path| == 1 {
      PercentEncoding.DecodeEncode(path[0]);
    } else {
      var rest := EncodePath(path[1..]);
      assert encoded[1..] == Map(PercentEncoding.Encode, path[1..]);
      JoinCons(encoded, "/");
      PercentEncoding.DecodeEncodedPrefix(path[0], "/" + rest);
      assert ("/" + rest)[1..] == rest;
      DecodeEncodedPath(path[1..]);
      assert PercentEncoding.Decode("/" + rest) == Some("/" + Join(path[1..], "/"));
      JoinCons(path, "/");
    }
  }

  /** "blob/" has no proper prefix that is also a suffix, so appended to text
      without it, its first occurrence is where it was appended. */
  lemma MarkerFirstAfter(base: string, tail: string)
    requires !Contains(base, BlobMarker)
    ensures IndexFrom(base + BlobMarker + tail, BlobMarker, 0) == Some(|base|)
  {
    var url := base + BlobMarker + tail;
    forall j: nat | j < |base| ensures !OccursAt(url, BlobMarker, j) {
      if j + |BlobMarker| <= |base| {
        assert url[j..j + |BlobMarker|] == base[j..j + |BlobMarker|];
        assert !OccursAt(base, BlobMarker, j);
      } else {
        var m := |base| - j;
        assert url[j..j + |BlobMarker|][m] == url[|base|] == 'b';
        if m == 3 {
          assert url[j..j + |BlobMarker|][4] == url[|base| + 1] == 'l';
        }
      }
    }
    assert url[|base|..|base| + |BlobMarker|] == BlobMarker;
    IndexFromIs(url, BlobMarker, 0, |base|);
  }

  /** The intended behaviour: for a blob URL `<base>blob/<ref>/<encoded path>`
      whose base does not itself hold "blob/", the link text is the decoded
      path, whatever its segments are called. */
  lemma CorrectedLinkShowsPath(base: string, ref: string, path: seq<string>)
    requires !Contains(base, BlobMarker)
    requires '/' !in ref
    ensures var url := base + BlobMarker + (ref + "/" + EncodePath(path));
      CorrectedFileMarkdownUrl(url) == Ok(Link(Join(path, "/"), url))
  {
    var tail := ref + "/" + EncodePath(path);
    var url := base + BlobMarker + tail;
    assert CorrectedRawName(url) == Ok(EncodePath(path)) by {
      AfterMarkerOfAppended(base, tail);
      DropRefAfterRef(ref, EncodePath(path));
      CorrectedRawNameAfterMarker(url);
    }
    assert LinkFor(EncodePath(path), url) == Ok(Link(Join(path, "/"), url)) by {
      DecodeEncodedPath(path);
    }
  }

  lemma AfterMarkerOfAppended(base: string, tail: string)
    requires !Contains(base, BlobMarker)
    ensures Contains(base + BlobMarker + tail, BlobMarker)
    ensures AfterMarker(base + BlobMarker + tail) == tail
  {
    var url := base + BlobMarker + tail;
    MarkerFirstAfter(base, tail);
    assert OccursAt(url, BlobMarker, |base|);
  }

  /** Dropping the ref of `<ref>/<rest>` leaves `<rest>` when the ref holds no "/". */
  lemma DropRefAfterRef(ref: string, rest: string)
    requires '/' !in ref
    ensures DropRef(ref + "/" + rest) == rest
  {
    var segment := ref + "/" + rest;
    forall j: nat | j < |ref| ensures !OccursAt(segment, "/", j) {
      OccursAtChar(segment, '/', j);
    }
    OccursAtChar(segment, '/', |ref|);
    IndexFromIs(segment, "/", 0, |ref|);
    assert segment[|ref| + 1..] == rest;
  }

  // ---- When the marker is absent ----

  /** A string that lacks one of the characters of "blob/" does not contain it. */
  lemma MarkerNeedsChar(s: string, c: char)
    requires c in BlobMarker && c !in s
    ensures !Contains(s, BlobMarker)
  {
    var k :| 0 <= k < |BlobMarker| && BlobMarker[k] == c;
    forall j: nat | j + |BlobMarker| <= |s| ensures !OccursAt(s, BlobMarker, j) {
      assert s[j..j + |BlobMarker|][k] == s[j + k] != c;
    }
  }

  /** Segments joined with "/" hold "blob/" only where a segment other than
      the last ends with "blob". */
  lemma {:induction false} NoMarkerInJoin(xs: seq<string>)
    requires forall k :: 0 <= k < |xs| ==> '/' !in xs[k]
    requires forall k :: 0 <= k < |xs| - 1 ==> !EndsWith(xs[k], "blob")
    ensures !Contains(Join(xs, "/"), BlobMarker)
    decreases |xs|
  {
    if |xs| == 1 {
      MarkerNeedsChar(xs[0], '/');
    } else if |xs| > 1 {
      JoinCons(xs, "/");
      NoMarkerInJoin(xs[1..]);
      NoMarkerAcrossSlash(xs[0], Join(xs[1..], "/"));
    }
  }

  /** Putting a segment without "/" that does not end with "blob" in front
      of a text without "blob/" creates no "blob/". */
  lemma NoMarkerAcrossSlash(x: string, rest: string)
    requires '/' !in x && !EndsWith(x, "blob")
    requires !Contains(rest, BlobMarker)
    ensures !Contains(x + ("/" + rest), BlobMarker)
  {
    var s := x + ("/" + rest);
    forall j: nat | j + |BlobMarker| <= |s| ensures !OccursAt(s, BlobMarker, j) {
      var w := s[j..j + |BlobMarker|];
      if j + |BlobMarker| <= |x| {
        assert w[4] == x[j + 4] != '/';
      } else if j + 4 == |x| {
        assert s[j..j + 4] == x[|x| - 4..] != "blob";
        assert w[..4] == s[j..j + 4];
        assert BlobMarker[..4] == "blob";
      } else if j <= |x| {
        assert w[|x| - j] == s[|x|] == '/';
      } else {
        assert s[|x| + 1..] == rest;
        OccursAtSuffix(s, BlobMarker, |x| + 1, j - |x| - 1);
      }
    }
  }

  // ---- Blob URLs whose path holds no further "blob/" ----

  /** The path part of a blob URL, `<ref>/<encoded path>`, holds no "blob/"
      when neither the ref nor any encoded directory name ends with "blob". */
  lemma NoMarkerAfterRef(ref: string, path: seq<string>)
    requires '/' !in ref && !EndsWith(ref, "blob")
    requires forall k :: 0 <= k < |path| - 1 ==> !EndsWith(PercentEncoding.Encode(path[k]), "blob")
    ensures !Contains(ref + "/" + EncodePath(path), BlobMarker)
  {
    if path == [] {
      assert EncodePath(path) == [];
      assert !Contains([], BlobMarker);
      NoMarkerAcrossSlash(ref, []);
      assert ref + "/" + EncodePath(path) == ref + ("/" + []);
      return;
    }
    var encoded := Map(PercentEncoding.Encode, path);
    var segments := [ref] + encoded;
    assert segments[1..] == encoded;
    JoinCons(segments, "/");
    assert ref + "/" + EncodePath(path) == Join(segments, "/");
    forall k | 0 <= k < |path| ensures '/' !in encoded[k] {
      PercentEncoding.EncodeHasNoSlash(path[k]);
    }
    NoMarkerInJoin(segments);
  }

  /** As written, the link text is the decoded path whenever the path after
      the ref holds no further "blob/". */
  lemma LinkShowsPath(base: string, ref: string, path: seq<string>)
    requires !Contains(base, BlobMarker)
    requires '/' !in ref && !EndsWith(ref, "blob")
    requires forall k :: 0 <= k < |path| - 1 ==> !EndsWith(PercentEncoding.Encode(path[k]), "blob")
    ensures var url := base + BlobMarker + (ref + "/" + EncodePath(path));
      FileMarkdownUrl(url) == Ok(Link(Join(path, "/"), url))
  {
    var tail := ref + "/" + EncodePath(path);
    var url := base + BlobMarker + tail;
    CorrectedLinkShowsPath(base, ref, path);
    AfterMarkerOfAppended(base, tail);
    NoMarkerAfterRef(ref, path);
    CorrectionAgreesWithoutSecondMarker(url);
  }

  lemma JoinOfThree(a: string, b: string, c: string)
    ensures Join([a, b, c], "/") == a + "/" + b + "/" + c
  {
    JoinCons([a, b, c], "/");
    assert [a, b, c][1..] == [b, c];
    JoinCons([b, c], "/");
  }

  /** A three-segment path encodes segment by segment. */
  lemma EncodePathOfThree(a: string, b: string, c: string)
    ensures EncodePath([a, b, c]) == PercentEncoding.Encode(a) + "/" + PercentEncoding.Encode(b) + "/" + PercentEncoding.Encode(c)
    ensures Join([a, b, c], "/") == a + "/" + b + "/" + c
  {
    var encoded := Map(PercentEncoding.Encode, [a, b, c]);
    assert encoded == [PercentEncoding.Encode(a), PercentEncoding.Encode(b), PercentEncoding.Encode(c)];
    JoinOfThree(PercentEncoding.Encode(a), PercentEncoding.Encode(b), PercentEncoding.Encode(c));
    JoinOfThree(a, b, c);
  }

  // ---- A directory named "blob" ----

  /** With no marker in `base` nor in `x`, the text between the first two
      markers of `<base>blob/<x>blob/<rest>` is `x`. */
  lemma BetweenMarkersOfTwo(base: string, x: string, rest: string)
    requires !Contains(base, BlobMarker) && !Contains(x, BlobMarker)
    ensures Contains(base + BlobMarker + (x + BlobMarker + rest), BlobMarker)
    ensures BetweenMarkers(base + BlobMarker + (x + BlobMarker + rest)) == x
  {
    var tail := x + BlobMarker + rest;
    AfterMarkerOfAppended(base, tail);
    MarkerFirstAfter(x, rest);
    assert tail[..|x|] == x;
  }

  lemma EncodedBlob() ensures PercentEncoding.Encode("blob") == "blob" {}

  /** The blob-URL tail of the path `<dir>/blob/<file>` at `ref`, cut at its "blob/". */
  lemma TailWithBlobDir(ref: string, encDir: string, encFile: string)
    ensures ref + "/" + (encDir + "/" + "blob" + "/" + encFile) == (ref + "/" + encDir + "/") + BlobMarker + encFile
  {
    var b := encDir + "/";
    assert b + "blob" + "/" == b + BlobMarker;
  }

  lemma NoMarkerBeforeBlobDir(ref: string, dir: string)
    requires '/' !in ref && !EndsWith(ref, "blob")
    requires !EndsWith(PercentEncoding.Encode(dir), "blob")
    ensures !Contains(ref + "/" + PercentEncoding.Encode(dir) + "/", BlobMarker)
  {
    var encDir := PercentEncoding.Encode(dir);
    var xs := [ref, encDir, ""];
    PercentEncoding.EncodeHasNoSlash(dir);
    assert forall k :: 0 <= k < |xs| ==> '/' !in xs[k];
    assert forall k :: 0 <= k < |xs| - 1 ==> !EndsWith(xs[k], "blob");
    NoMarkerInJoin(xs);
    JoinOfThree(ref, encDir, "");
    assert ref + "/" + encDir + "/" + "" == ref + "/" + encDir + "/";
  }

  /** As written, the name taken from such a URL is the encoded `dir` and a "/". */
  lemma RawNameWithBlobDir(base: string, ref: string, dir: string, file: string)
    requires !Contains(base, BlobMarker)
    requires '/' !in ref && !EndsWith(ref, "blob")
    requires !EndsWith(PercentEncoding.Encode(dir), "blob")
    ensures var url := base + BlobMarker + (ref + "/" + (PercentEncoding.Encode(dir) + "/" + "blob" + "/" + PercentEncoding.Encode(file)));
      RawName(url) == Ok(PercentEncoding.Encode(dir) + "/")
  {
    var encDir, encFile := PercentEncoding.Encode(dir), PercentEncoding.Encode(file);
    var x := ref + "/" + encDir + "/";
    var url := base + BlobMarker + (x + BlobMarker + encFile);
    assert base + BlobMarker + (ref + "/" + (encDir + "/" + "blob" + "/" + encFile)) == url by {
      TailWithBlobDir(ref, encDir, encFile);
    }
    assert BetweenMarkers(url) == x by {
      NoMarkerBeforeBlobDir(ref, dir);
      BetweenMarkersOfTwo(base, x, encFile);
    }
    assert DropRef(x) == encDir + "/" by {
      assert x == ref + "/" + (encDir + "/");
      DropRefAfterRef(ref, encDir + "/");
    }
    RawNameBetweenMarkers(url);
  }

  /** As written: when the path below the ref has a directory named "blob"
      right after its first directory `dir`, the link text is only `dir/`,
      while the corrected definition shows the whole path. */
  lemma SecondMarkerCutsName(base: string, ref: string, dir: string, file: string)
    requires !Contains(base, BlobMarker)
    requires '/' !in ref && !EndsWith(ref, "blob")
    requires !EndsWith(PercentEncoding.Encode(dir), "blob")
    ensures var url := base + BlobMarker + (ref + "/" + (PercentEncoding.Encode(dir) + "/" + "blob" + "/" + PercentEncoding.Encode(file)));
      && FileMarkdownUrl(url) == Ok(Link(dir + "/", url))
      && CorrectedFileMarkdownUrl(url) == Ok(Link(dir + "/" + "blob" + "/" + file, url))
  {
    var url := base + BlobMarker + (ref + "/" + (PercentEncoding.Encode(dir) + "/" + "blob" + "/" + PercentEncoding.Encode(file)));
    assert FileMarkdownUrl(url) == Ok(Link(dir + "/", url)) by {
      RawNameWithBlobDir(base, ref, dir, file);
      PercentEncoding.DecodeEncodedPrefix(dir, "/");
      PercentEncoding.DecodeWithoutEscapes("/");
    }
    assert CorrectedFileMarkdownUrl(url) == Ok(Link(dir + "/" + "blob" + "/" + file, url)) by {
      CorrectedLinkShowsPath(base, ref, [dir, "blob", file]);
      EncodedBlob();
      EncodePathOfThree(dir, "blob", file);
    }
  }
}
