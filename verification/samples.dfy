/**
 * The files of a pull request and the filter that picks the sample
 * descriptors out of them (src/index.ts:47-55).
 */
module Samples {
  import opened Text

  /** One entry of the pull request's file listing. */
  datatype ChangedFile = ChangedFile(filename: string, blobUrl: string, contentsUrl: string, rawUrl: string)

  const SampleSuffix := "sample.json"

  /** `file.filename.endsWith("sample.json")`, case-sensitive. */
  predicate IsSample(file: ChangedFile)
    ensures IsSample(file) <==> |file.filename| >= |SampleSuffix|
                                && file.filename == file.filename[..|file.filename| - |SampleSuffix|] + SampleSuffix
  {
    EndsWith(file.filename, SampleSuffix)
  }

  /** `files.filter(file => file.filename.endsWith("sample.json"))`. */
  function SampleFiles(files: seq<ChangedFile>): (kept: seq<ChangedFile>)
    ensures |kept| <= |files|
    ensures forall k :: 0 <= k < |kept| ==> IsSample(kept[k])
    decreases |files|
  {
    if files == [] then []
    else
      var last := files[|files| - 1];
      SampleFiles(files[..|files| - 1]) + (if IsSample(last) then [last] else [])
  }

  /** The positions of the sample files, in ascending order. */
  function SampleIndices(files: seq<ChangedFile>): (idx: seq<nat>)
    ensures forall k :: 0 <= k < |idx| ==> idx[k] < |files| && IsSample(files[idx[k]])
    ensures forall k, l :: 0 <= k < l < |idx| ==> idx[k] < idx[l]
    decreases |files|
  {
    if files == [] then []
    else
      var n := |files| - 1;
      SampleIndices(files[..n]) + (if IsSample(files[n]) then [n] else [])
  }

  /** Every sample position is listed. */
  lemma {:induction false} SampleIndicesComplete(files: seq<ChangedFile>, i: nat)
    requires i < |files| && IsSample(files[i])
    ensures i in SampleIndices(files)
    decreases |files|
  {
    var n := |files| - 1;
    if i < n {
      SampleIndicesComplete(files[..n], i);
    }
  }

  /** The filter keeps exactly the sample files, unchanged and in their input order:
      its k-th element is the file at the k-th sample position. */
  lemma {:induction false} SampleFilesInOrder(files: seq<ChangedFile>)
    ensures |SampleFiles(files)| == |SampleIndices(files)|
    ensures forall k :: 0 <= k < |SampleIndices(files)| ==>
              SampleFiles(files)[k] == files[SampleIndices(files)[k]]
    decreases |files|
  {
    if files != [] {
      var n := |files| - 1;
      var init := files[..n];
      SampleFilesInOrder(init);
      var kept, idx := SampleFiles(init), SampleIndices(init);
      SelectedInPrefix(kept, idx, files, n);
      if IsSample(files[n]) {
        assert SampleFiles(files) == kept + [files[n]];
        assert SampleIndices(files) == idx + [n];
        SelectedAppend(kept, idx, files, n);
      } else {
        assert SampleFiles(files) == kept;
        assert SampleIndices(files) == idx;
      }
    }
  }

  lemma SelectedInPrefix(kept: seq<ChangedFile>, idx: seq<nat>, files: seq<ChangedFile>, n: nat)
    requires n <= |files| && |kept| == |idx|
    requires forall k :: 0 <= k < |idx| ==> idx[k] < n && kept[k] == files[..n][idx[k]]
    ensures forall k :: 0 <= k < |idx| ==> kept[k] == files[idx[k]]
  {
  }

  lemma SelectedAppend(kept: seq<ChangedFile>, idx: seq<nat>, files: seq<ChangedFile>, n: nat)
    requires n < |files| && |kept| == |idx|
    requires forall k :: 0 <= k < |idx| ==> idx[k] < |files| && kept[k] == files[idx[k]]
    ensures forall k :: 0 <= k < |idx| + 1 ==> (kept + [files[n]])[k] == files[(idx + [n])[k]]
  {
  }

  /** A file is kept if and only if it is in the input and is a sample. */
  lemma SampleFilesMembership(files: seq<ChangedFile>, f: ChangedFile)
    ensures f in SampleFiles(files) <==> f in files && IsSample(f)
  {
    SampleFilesInOrder(files);
    var kept, idx := SampleFiles(files), SampleIndices(files);
    if f in kept {
      var k :| 0 <= k < |kept| && kept[k] == f;
      assert files[idx[k]] == f;
    }
    if f in files && IsSample(f) {
      var i :| 0 <= i < |files| && files[i] == f;
      SampleIndicesComplete(files, i);
      var k :| 0 <= k < |idx| && idx[k] == i;
      assert kept[k] == f;
    }
  }

  /** Filtering distributes over concatenation. */
  lemma {:induction false} SampleFilesAppend(a: seq<ChangedFile>, b: seq<ChangedFile>)
    ensures SampleFiles(a + b) == SampleFiles(a) + SampleFiles(b)
    decreases |b|
  {
    if b == [] {
      assert a + b == a;
    } else {
      var b' := b[..|b| - 1];
      assert (a + b)[..|a + b| - 1] == a + b';
      assert (a + b)[|a + b| - 1] == b[|b| - 1];
      SampleFilesAppend(a, b');
    }
  }

  /** Filtering the filtered list changes nothing. */
  lemma {:induction false} SampleFilesIdempotent(files: seq<ChangedFile>)
    ensures SampleFiles(SampleFiles(files)) == SampleFiles(files)
    decreases |files|
  {
    if files != [] {
      var n := |files| - 1;
      var last := files[n];
      SampleFilesIdempotent(files[..n]);
      var tail := if IsSample(last) then [last] else [];
      SampleFilesAppend(SampleFiles(files[..n]), tail);
      assert SampleFiles(tail) == tail by {
        if IsSample(last) {
          assert [last][..0] == [];
        }
      }
    }
  }
}
