/**
 * One run of the action over a pull request (src/index.ts:47-107), with the
 * remote validator's answers and the order in which they complete given as
 * inputs.
 */
module Action {
  import opened Samples
  import opened Failures
  import opened Report

  /** Filters the sample files, collects the failures as the validations
      complete in `order`, and decides the outcome. `results[i]` is the
      validator's answer for the i-th sample file. */
  method Run(prFiles: seq<ChangedFile>, results: seq<Validation>, order: seq<nat>)
    returns (outcome: RunOutcome)
    requires |results| == |SampleFiles(prFiles)|
    requires IsCompletionOrder(order, |results|)
    ensures outcome == Outcome(AsWritten, FailuresAlong(SampleFiles(prFiles), results, order))
    ensures outcome.Passed? <==> forall i :: 0 <= i < |results| ==> results[i].isValid
    ensures outcome.InvalidSamples? ==> outcome.message == InvalidSamplesMessage
  {
    var files := SampleFiles(prFiles);
    var errors := CollectFailures(files, results, order);
    FailuresEmptyIffAllValid(files, results);
    assert errors == [] <==> FileOrderFailures(files, results) == [] by {
      if errors != [] {
        assert errors[0] in multiset(FileOrderFailures(files, results));
      }
      if FileOrderFailures(files, results) != [] {
        assert FileOrderFailures(files, results)[0] in multiset(errors);
      }
    }
    outcome := Outcome(AsWritten, errors);
  }

  /** Two completion orders end the run the same way: both pass, both fail
      with the same blocks (possibly reordered), or both abort. */
  lemma RunOrderIndependent(builder: LinkBuilder, files: seq<ChangedFile>, results: seq<Validation>, o1: seq<nat>, o2: seq<nat>)
    requires |files| == |results|
    requires IsCompletionOrder(o1, |files|) && IsCompletionOrder(o2, |files|)
    ensures Outcome(builder, FailuresAlong(files, results, o1)).Passed?
            <==> Outcome(builder, FailuresAlong(files, results, o2)).Passed?
    ensures Outcome(builder, FailuresAlong(files, results, o1)).Aborted?
            <==> Outcome(builder, FailuresAlong(files, results, o2)).Aborted?
    ensures Outcome(builder, FailuresAlong(files, results, o1)).InvalidSamples? ==>
              multiset(Blocks(builder, FailuresAlong(files, results, o1)).value)
              == multiset(Blocks(builder, FailuresAlong(files, results, o2)).value)
  {
    FailuresOrderIndependent(files, results, o1);
    FailuresOrderIndependent(files, results, o2);
    OutcomeOrderIndependent(builder, FailuresAlong(files, results, o1), FailuresAlong(files, results, o2));
  }
}
