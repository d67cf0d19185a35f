/**
 * Sequence combinators shared by the model: the `map`/`flatMap` that the
 * action's array pipelines perform, and the fact that reordering the input
 * only reorders the output.
 */
module Seqs {
  import opened Wrappers

  /** `s.flatMap(f)`: the outputs of `f` concatenated in input order. */
  function FlatMap<A, B>(f: A -> seq<B>, s: seq<A>): (r: seq<B>)
    ensures r == [] <==> forall k :: 0 <= k < |s| ==> f(s[k]) == []
    decreases |s|
  {
    if s == [] then [] else FlatMap(f, s[..|s| - 1]) + f(s[|s| - 1])
  }

  /** Every output element comes from the output of some input element. */
  lemma {:induction false} FlatMapOrigins<A, B>(f: A -> seq<B>, s: seq<A>)
    ensures forall j :: 0 <= j < |FlatMap(f, s)| ==> exists k :: 0 <= k < |s| && FlatMap(f, s)[j] in f(s[k])
    decreases |s|
  {
    if s != [] {
      var n := |s| - 1;
      FlatMapOrigins(f, s[..n]);
      var front := FlatMap(f, s[..n]);
      assert FlatMap(f, s) == front + f(s[n]);
      forall j | 0 <= j < |FlatMap(f, s)|
        ensures exists k :: 0 <= k < |s| && FlatMap(f, s)[j] in f(s[k])
      {
        if j < |front| {
          var k :| 0 <= k < n && front[j] in f(s[..n][k]);
          assert s[..n][k] == s[k];
        } else {
          assert FlatMap(f, s)[j] == f(s[n])[j - |front|];
          assert FlatMap(f, s)[j] in f(s[n]);
        }
      }
    } else {
      assert FlatMap(f, s) == [];
    }
  }

  /** `s.map(f)`. */
  function Map<A, B>(f: A -> B, s: seq<A>): (r: seq<B>)
    ensures |r| == |s|
    ensures forall k :: 0 <= k < |s| ==> r[k] == f(s[k])
  {
    seq(|s|, k requires 0 <= k < |s| => f(s[k]))
  }

  /** `s.map(f)` where `f` may throw: the elements are visited in order and
      the first failure aborts the whole map. */
  function MapResult<A, B, E>(f: A -> Result<B, E>, s: seq<A>): (r: Result<seq<B>, E>)
    ensures r.Ok? <==> forall k :: 0 <= k < |s| ==> f(s[k]).Ok?
    ensures r.Ok? ==> |r.value| == |s| && forall k :: 0 <= k < |s| ==> r.value[k] == f(s[k]).value
    ensures r.Err? ==> exists k :: 0 <= k < |s| && f(s[k]) == Err(r.error)
                                   && forall j :: 0 <= j < k ==> f(s[j]).Ok?
    decreases |s|
  {
    if s == [] then Ok([])
    else
      match f(s[0])
      case Err(e) => Err(e)
      case Ok(x) =>
        match MapResult(f, s[1..])
        case Err(e) => Err(e)
        case Ok(rest) => Ok([x] + rest)
  }

  /** Two callbacks that agree on every element give the same throwing map. */
  lemma {:induction false} MapResultPointwise<A, B, E>(f: A -> Result<B, E>, g: A -> Result<B, E>, s: seq<A>)
    requires forall k :: 0 <= k < |s| ==> f(s[k]) == g(s[k])
    ensures MapResult(f, s) == MapResult(g, s)
    decreases |s|
  {
    if s != [] {
      assert f(s[0]) == g(s[0]);
      MapResultPointwise(f, g, s[1..]);
    }
  }

  lemma {:induction false} FlatMapAppend<A, B>(f: A -> seq<B>, a: seq<A>, b: seq<A>)
    ensures FlatMap(f, a + b) == FlatMap(f, a) + FlatMap(f, b)
    decreases |b|
  {
    if b == [] {
      assert a + b == a;
      assert FlatMap(f, b) == [];
    } else {
      var b' := b[..|b| - 1];
      assert (a + b)[..|a + b| - 1] == a + b';
      assert (a + b)[|a + b| - 1] == b[|b| - 1];
      assert FlatMap(f, a + b) == FlatMap(f, a + b') + f(b[|b| - 1]);
      FlatMapAppend(f, a, b');
      assert FlatMap(f, b) == FlatMap(f, b') + f(b[|b| - 1]);
    }
  }

  /** Where the last element of `s1` sits in a reordering `s2`, and what is left on both sides. */
  lemma PermutationWithoutLast<A>(s1: seq<A>, s2: seq<A>) returns (j: nat)
    requires multiset(s1) == multiset(s2) && |s1| > 0
    ensures j < |s2| && s2[j] == s1[|s1| - 1]
    ensures multiset(s1[..|s1| - 1]) == multiset(s2[..j] + s2[j + 1..])
  {
    var x := s1[|s1| - 1];
    var s1' := s1[..|s1| - 1];
    assert s1 == s1' + [x];
    assert x in multiset(s2);
    j :| 0 <= j < |s2| && s2[j] == x;
    assert s2 == s2[..j] + [x] + s2[j + 1..];
    assert multiset(s2) == multiset(s2[..j]) + multiset{x} + multiset(s2[j + 1..]);
    assert multiset(s1) == multiset(s1') + multiset{x};
    assert multiset(s2[..j] + s2[j + 1..]) == multiset(s2[..j]) + multiset(s2[j + 1..]);
    assert multiset(s1') == multiset(s1) - multiset{x};
  }

  /** Feeding the same elements in another order yields the same outputs in another order. */
  lemma {:induction false} FlatMapPermutation<A, B>(f: A -> seq<B>, s1: seq<A>, s2: seq<A>)
    requires multiset(s1) == multiset(s2)
    ensures multiset(FlatMap(f, s1)) == multiset(FlatMap(f, s2))
    decreases |s1|
  {
    if s1 == [] {
      assert |multiset(s2)| == 0;
    } else {
      var x := s1[|s1| - 1];
      var s1' := s1[..|s1| - 1];
      var j := PermutationWithoutLast(s1, s2);
      var before, after := s2[..j], s2[j + 1..];
      FlatMapPermutation(f, s1', before + after);
      assert s2 == before + [x] + after;
      FlatMapAround(f, before, x, after);
      FlatMapAppend(f, before, after);
      assert FlatMap(f, s1) == FlatMap(f, s1') + f(x);
      calc {
        multiset(FlatMap(f, s2));
        multiset(FlatMap(f, before)) + multiset(f(x)) + multiset(FlatMap(f, after));
        multiset(FlatMap(f, before + after)) + multiset(f(x));
        multiset(FlatMap(f, s1')) + multiset(f(x));
        multiset(FlatMap(f, s1));
      }
    }
  }

  lemma FlatMapAround<A, B>(f: A -> seq<B>, before: seq<A>, x: A, after: seq<A>)
    ensures FlatMap(f, before + [x] + after) == FlatMap(f, before) + f(x) + FlatMap(f, after)
  {
    FlatMapAppend(f, before + [x], after);
    FlatMapAppend(f, before, [x]);
    assert FlatMap(f, [x]) == f(x) by {
      assert [x][..0] == [];
    }
  }

  lemma MapAppend<A, B>(f: A -> B, a: seq<A>, b: seq<A>)
    ensures Map(f, a + b) == Map(f, a) + Map(f, b)
  {
    assert forall k :: 0 <= k < |a + b| ==> Map(f, a + b)[k] == (Map(f, a) + Map(f, b))[k];
  }

  /** Mapping commutes with reordering. */
  lemma {:induction false} MapPermutation<A, B>(f: A -> B, s1: seq<A>, s2: seq<A>)
    requires multiset(s1) == multiset(s2)
    ensures multiset(Map(f, s1)) == multiset(Map(f, s2))
    decreases |s1|
  {
    if s1 == [] {
      assert |multiset(s2)| == 0;
    } else {
      var x := s1[|s1| - 1];
      var s1' := s1[..|s1| - 1];
      var j := PermutationWithoutLast(s1, s2);
      var before, after := s2[..j], s2[j + 1..];
      MapPermutation(f, s1', before + after);
      assert s1 == s1' + [x];
      MapAppend(f, s1', [x]);
      assert Map(f, s2) == Map(f, before) + Map(f, [x]) + Map(f, after) by {
        assert s2 == before + [x] + after;
        MapAppend(f, before + [x], after);
        MapAppend(f, before, [x]);
      }
      MapAppend(f, before, after);
      calc {
        multiset(Map(f, s2));
        multiset(Map(f, before)) + multiset(Map(f, [x])) + multiset(Map(f, after));
        multiset(Map(f, before + after)) + multiset(Map(f, [x]));
        multiset(Map(f, s1')) + multiset(Map(f, [x]));
        multiset(Map(f, s1));
      }
    }
  }
}
