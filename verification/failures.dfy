/**
 * Accumulating the failed validations (src/index.ts:57-84). Every sample
 * file is validated concurrently; each one whose result is not valid pushes
 * one record onto a shared list when its request completes, so the list ends
 * up in completion order, which the model takes as a parameter.
 */
module Failures {
  import opened Seqs
  import opened Samples

  /** The validator's answer for one descriptor. */
  datatype Validation = Validation(isValid: bool, errors: seq<string>)

  /** One entry of the shared `errors` list: the file's blob URL and the answer. */
  datatype FailureRecord = FailureRecord(fileUrl: string, body: Validation)

  /** What handling one file contributes: nothing when valid, else one record. */
  function RecordFor(file: ChangedFile, result: Validation): (r: seq<FailureRecord>)
    ensures |r| <= 1
    ensures r == [] <==> result.isValid
    ensures forall k :: 0 <= k < |r| ==> r[k].fileUrl == file.blobUrl && r[k].body == result
  {
    if result.isValid then [] else [FailureRecord(file.blobUrl, result)]
  }

  /** The records in file order: the reference the completion order is compared with. */
  function FileOrderFailures(files: seq<ChangedFile>, results: seq<Validation>): seq<FailureRecord>
    requires |files| == |results|
    decreases |files|
  {
    if files == [] then []
    else
      var n := |files| - 1;
      FileOrderFailures(files[..n], results[..n]) + RecordFor(files[n], results[n])
  }

  /** The positions of the results that are not valid, in ascending order. */
  function InvalidIndices(results: seq<Validation>): (idx: seq<nat>)
    ensures forall k :: 0 <= k < |idx| ==> idx[k] < |results| && !results[idx[k]].isValid
    ensures forall k, l :: 0 <= k < l < |idx| ==> idx[k] < idx[l]
    decreases |results|
  {
    if results == [] then []
    else
      var n := |results| - 1;
      InvalidIndices(results[..n]) + (if results[n].isValid then [] else [n])
  }

  /** Every position of a result that is not valid is listed. */
  lemma {:induction false} InvalidIndicesComplete(results: seq<Validation>, i: nat)
    requires i < |results| && !results[i].isValid
    ensures i in InvalidIndices(results)
    decreases |results|
  {
    var n := |results| - 1;
    if i < n {
      InvalidIndicesComplete(results[..n], i);
    }
  }

  /** Exactly one record per result that is not valid, in file order, each
      carrying that file's blob URL and the result unchanged. */
  lemma {:induction false} FailuresInOrder(files: seq<ChangedFile>, results: seq<Validation>)
    requires |files| == |results|
    ensures |FileOrderFailures(files, results)| == |InvalidIndices(results)|
    ensures forall k :: 0 <= k < |InvalidIndices(results)| ==>
              FileOrderFailures(files, results)[k]
              == FailureRecord(files[InvalidIndices(results)[k]].blobUrl, results[InvalidIndices(results)[k]])
    decreases |files|
  {
    if files != [] {
      var n := |files| - 1;
      FailuresInOrder(files[..n], results[..n]);
      var recs, idx := FileOrderFailures(files[..n], results[..n]), InvalidIndices(results[..n]);
      RecordsInPrefix(recs, idx, files, results, n);
      if results[n].isValid {
        assert FileOrderFailures(files, results) == recs;
        assert InvalidIndices(results) == idx;
      } else {
        assert FileOrderFailures(files, results) == recs + [FailureRecord(files[n].blobUrl, results[n])];
        assert InvalidIndices(results) == idx + [n];
        RecordsAppend(recs, idx, files, results, n);
      }
    }
  }

  lemma RecordsInPrefix(recs: seq<FailureRecord>, idx: seq<nat>, files: seq<ChangedFile>,
                        results: seq<Validation>, n: nat)
    requires n <= |files| == |results| && |recs| == |idx|
    requires forall k :: 0 <= k < |idx| ==>
               idx[k] < n && recs[k] == FailureRecord(files[..n][idx[k]].blobUrl, results[..n][idx[k]])
    ensures forall k :: 0 <= k < |idx| ==> recs[k] == FailureRecord(files[idx[k]].blobUrl, results[idx[k]])
  {
  }

  lemma RecordsAppend(recs: seq<FailureRecord>, idx: seq<nat>, files: seq<ChangedFile>,
                      results: seq<Validation>, n: nat)
    requires n < |files| == |results| && |recs| == |idx|
    requires forall k :: 0 <= k < |idx| ==>
               idx[k] < |files| && recs[k] == FailureRecord(files[idx[k]].blobUrl, results[idx[k]])
    ensures forall k :: 0 <= k < |idx| + 1 ==>
              (recs + [FailureRecord(files[n].blobUrl, results[n])])[k]
              == FailureRecord(files[(idx + [n])[k]].blobUrl, results[(idx + [n])[k]])
  {
  }

  /** A record is in the list if and only if it belongs to a result that is not valid. */
  lemma FailuresMembership(files: seq<ChangedFile>, results: seq<Validation>, rec: FailureRecord)
    requires |files| == |results|
    ensures rec in FileOrderFailures(files, results) <==>
            exists i :: 0 <= i < |files| && !results[i].isValid
                        && rec == FailureRecord(files[i].blobUrl, results[i])
  {
    FailuresInOrder(files, results);
    var recs, idx := FileOrderFailures(files, results), InvalidIndices(results);
    if rec in recs {
      var k :| 0 <= k < |recs| && recs[k] == rec;
      assert idx[k] < |files| && !results[idx[k]].isValid;
    }
    if exists i :: 0 <= i < |files| && !results[i].isValid
                   && rec == FailureRecord(files[i].blobUrl, results[i]) {
      var i :| 0 <= i < |files| && !results[i].isValid
               && rec == FailureRecord(files[i].blobUrl, results[i]);
      InvalidIndicesComplete(results, i);
      var k :| 0 <= k < |idx| && idx[k] == i;
      assert recs[k] == rec;
    }
  }

  /** The list is empty exactly when every result is valid. */
  lemma FailuresEmptyIffAllValid(files: seq<ChangedFile>, results: seq<Validation>)
    requires |files| == |results|
    ensures FileOrderFailures(files, results) == [] <==> forall i :: 0 <= i < |results| ==> results[i].isValid
  {
    FailuresInOrder(files, results);
    if exists i :: 0 <= i < |results| && !results[i].isValid {
      var i :| 0 <= i < |results| && !results[i].isValid;
      InvalidIndicesComplete(results, i);
    }
  }

  /** The file positions `0 .. n-1`. */
  function Range(n: nat): (r: seq<nat>)
    ensures |r| == n && forall k :: 0 <= k < n ==> r[k] == k
  {
    seq(n, k requires 0 <= k < n => k)
  }

  /** The order in which the `n` validations complete: each position exactly once. */
  predicate IsCompletionOrder(order: seq<nat>, n: nat) {
    multiset(order) == multiset(Range(n))
  }

  /** What the completion of position `i` contributes. */
  function RecordAt(files: seq<ChangedFile>, results: seq<Validation>, i: nat): seq<FailureRecord> {
    if i < |files| && i < |results| then RecordFor(files[i], results[i]) else []
  }

  /** The records pushed when the validations complete in `order`. */
  function FailuresAlong(files: seq<ChangedFile>, results: seq<Validation>, order: seq<nat>): (r: seq<FailureRecord>)
    ensures forall j :: 0 <= j < |r| ==>
              exists k :: 0 <= k < |order| && order[k] < |files| && order[k] < |results|
                          && !results[order[k]].isValid
                          && r[j] == FailureRecord(files[order[k]].blobUrl, results[order[k]])
  {
    FlatMapOrigins(i => RecordAt(files, results, i), order);
    FlatMap(i => RecordAt(files, results, i), order)
  }

  /** Completing in file order pushes the records in file order. */
  lemma {:induction false} FailuresAlongRange(files: seq<ChangedFile>, results: seq<Validation>, m: nat)
    requires |files| == |results| && m <= |files|
    ensures FailuresAlong(files, results, Range(m)) == FileOrderFailures(files[..m], results[..m])
    decreases m
  {
    if m > 0 {
      FailuresAlongRange(files, results, m - 1);
      assert Range(m)[..m - 1] == Range(m - 1);
      assert files[..m][..m - 1] == files[..m - 1];
      assert results[..m][..m - 1] == results[..m - 1];
    }
  }

  /** Whatever the completion order, the same records are pushed, each as
      often as in file order. */
  lemma FailuresOrderIndependent(files: seq<ChangedFile>, results: seq<Validation>, order: seq<nat>)
    requires |files| == |results| && IsCompletionOrder(order, |files|)
    ensures multiset(FailuresAlong(files, results, order)) == multiset(FileOrderFailures(files, results))
  {
    FailuresAlongRange(files, results, |files|);
    assert files[..|files|] == files && results[..|results|] == results;
    FlatMapPermutation(i => RecordAt(files, results, i), order, Range(|files|));
  }

  /** The validation callbacks pushing onto `errors` as they complete. */
  method CollectFailures(files: seq<ChangedFile>, results: seq<Validation>, order: seq<nat>)
    returns (errors: seq<FailureRecord>)
    requires |files| == |results| && IsCompletionOrder(order, |files|)
    ensures errors == FailuresAlong(files, results, order)
    ensures multiset(errors) == multiset(FileOrderFailures(files, results))
  {
    errors := [];
    var k := 0;
    while k < |order|
      invariant k <= |order|
      invariant errors == FailuresAlong(files, results, order[..k])
    {
      var i := order[k];
      assert i in multiset(Range(|files|));
      var result := results[i];
      if !result.isValid {
        errors := errors + [FailureRecord(files[i].blobUrl, result)];
      }
      assert order[..k + 1][..k] == order[..k];
      k := k + 1;
    }
    assert order[..k] == order;
    FailuresOrderIndependent(files, results, order);
  }
}
