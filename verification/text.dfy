/**
 * The JavaScript string operations the action relies on, over `string`
 * (a sequence of Unicode scalar values): `endsWith`, `split` with a
 * non-empty string separator, and `Array.prototype.join`.
 */
module Text {
  import opened Wrappers

  /** `s.endsWith(suffix)`: the last |suffix| characters of `s` are `suffix`. */
  predicate EndsWith(s: string, suffix: string)
    ensures EndsWith(s, suffix) <==> |suffix| <= |s| && s == s[..|s| - |suffix|] + suffix
  {
    |suffix| <= |s| && s[|s| - |suffix|..] == suffix
  }

  /** `pat` occurs in `s` starting at index `i`. */
  predicate OccursAt(s: string, pat: string, i: nat) {
    i + |pat| <= |s| && s[i..i + |pat|] == pat
  }

  predicate Contains(s: string, pat: string) {
    exists i: nat :: i <= |s| && OccursAt(s, pat, i)
  }

  /** `s.indexOf(pat, from)`: the first occurrence of `pat` at or after `from`. */
  function IndexFrom(s: string, pat: string, from: nat): (r: Option<nat>)
    requires from <= |s|
    ensures r.Some? ==> from <= r.value && OccursAt(s, pat, r.value)
    ensures r.Some? ==> forall j: nat :: from <= j < r.value ==> !OccursAt(s, pat, j)
    ensures r.None? ==> forall j: nat :: from <= j ==> !OccursAt(s, pat, j)
    decreases |s| - from
  {
    if OccursAt(s, pat, from) then Some(from)
    else if from == |s| then None
    else IndexFrom(s, pat, from + 1)
  }

  /** `s.split(sep)` for a non-empty separator: the pieces between the
      occurrences of `sep` found scanning left to right. */
  function Split(s: string, sep: string): (parts: seq<string>)
    requires sep != []
    ensures |parts| >= 1
    decreases |s|
  {
    match IndexFrom(s, sep, 0)
    case None => [s]
    case Some(i) => [s[..i]] + Split(s[i + |sep|..], sep)
  }

  /** The number of characters in all of `parts` together. */
  function TotalLength(parts: seq<string>): nat
    decreases |parts|
  {
    if parts == [] then 0 else |parts[0]| + TotalLength(parts[1..])
  }

  /** The length of `n` separators one after the other. */
  function SeparatorsLength(n: nat, sep: string): nat {
    if n == 0 then 0 else |sep| + SeparatorsLength(n - 1, sep)
  }

  /** `parts.join(sep)`: every character of every part, and one separator
      between each two consecutive parts. */
  function Join(parts: seq<string>, sep: string): (r: string)
    ensures |parts| >= 1 ==> |r| == TotalLength(parts) + SeparatorsLength(|parts| - 1, sep)
    decreases |parts|
  {
    if |parts| == 0 then ""
    else if |parts| == 1 then parts[0]
    else parts[0] + sep + Join(parts[1..], sep)
  }

  lemma JoinCons(parts: seq<string>, sep: string)
    requires |parts| > 1
    ensures Join(parts, sep) == parts[0] + (sep + Join(parts[1..], sep))
  {
  }

  /** The first occurrence is the only index with an occurrence and none before it. */
  lemma IndexFromIs(s: string, pat: string, from: nat, i: nat)
    requires from <= i <= |s|
    requires OccursAt(s, pat, i)
    requires forall j: nat :: from <= j < i ==> !OccursAt(s, pat, j)
    ensures IndexFrom(s, pat, from) == Some(i)
  {
  }

  /** An occurrence in a suffix of `s` is an occurrence in `s`, shifted. */
  lemma OccursAtSuffix(s: string, pat: string, m: nat, j: nat)
    requires m <= |s|
    ensures OccursAt(s[m..], pat, j) <==> OccursAt(s, pat, m + j)
  {
    if m + j + |pat| <= |s| {
      assert s[m..][j..j + |pat|] == s[m + j..m + j + |pat|];
    }
  }

  /** An occurrence inside a prefix of `s` is an occurrence in `s`. */
  lemma OccursAtPrefix(s: string, pat: string, e: nat, j: nat)
    requires e <= |s|
    requires OccursAt(s[..e], pat, j)
    ensures OccursAt(s, pat, j)
  {
    assert s[..e][j..j + |pat|] == s[j..j + |pat|];
  }

  /** No piece produced by `Split` contains the separator. */
  lemma {:induction false} SplitPiecesAvoidSeparator(s: string, sep: string, k: nat)
    requires sep != []
    requires k < |Split(s, sep)|
    ensures !Contains(Split(s, sep)[k], sep)
    decreases |s|
  {
    match IndexFrom(s, sep, 0)
    case None =>
      assert !Contains(s, sep);
    case Some(i) =>
      if k == 0 {
        if Contains(s[..i], sep) {
          var j: nat :| j <= i && OccursAt(s[..i], sep, j);
          OccursAtPrefix(s, sep, i, j);
        }
      } else {
        SplitPiecesAvoidSeparator(s[i + |sep|..], sep, k - 1);
      }
  }

  /** `s.split(sep).join(sep) == s`: splitting loses nothing. */
  lemma {:induction false} JoinSplit(s: string, sep: string)
    requires sep != []
    ensures Join(Split(s, sep), sep) == s
    decreases |s|
  {
    match IndexFrom(s, sep, 0)
    case None =>
    case Some(i) =>
      var rest := s[i + |sep|..];
      assert Split(s, sep) == [s[..i]] + Split(rest, sep);
      JoinSplit(rest, sep);
      JoinPrepend(s[..i], Split(rest, sep), sep);
      Around(s, sep, i);
  }

  /** Joining after a first element puts the separator after it. */
  lemma JoinPrepend(head: string, tail: seq<string>, sep: string)
    requires |tail| >= 1
    ensures Join([head] + tail, sep) == head + sep + Join(tail, sep)
  {
    assert ([head] + tail)[1..] == tail;
  }

  /** A string is what comes before an occurrence, the occurrence, and what follows. */
  lemma Around(s: string, pat: string, i: nat)
    requires OccursAt(s, pat, i)
    ensures s == s[..i] + pat + s[i + |pat|..]
  {
    assert s == s[..i] + s[i..i + |pat|] + s[i + |pat|..];
  }

  /** Without `sep` in it, a string splits into itself alone. */
  lemma SplitWithoutSeparator(s: string, sep: string)
    requires sep != [] && !Contains(s, sep)
    ensures Split(s, sep) == [s]
  {
  }

  /** For a one-character separator, occurrences are positions holding that character. */
  lemma OccursAtChar(s: string, c: char, j: nat)
    ensures OccursAt(s, [c], j) <==> j < |s| && s[j] == c
  {
    if j < |s| && s[j] == c {
      assert s[j..j + 1] == [c];
    }
  }

  lemma ContainsChar(s: string, c: char)
    ensures Contains(s, [c]) <==> c in s
  {
    if c in s {
      var j :| 0 <= j < |s| && s[j] == c;
      OccursAtChar(s, c, j);
    }
    if Contains(s, [c]) {
      var j: nat :| j <= |s| && OccursAt(s, [c], j);
      OccursAtChar(s, c, j);
    }
  }

  /** Where `a` lacks `c`, the first `c` of `a + [c] + b` is the appended one. */
  lemma FirstCharAppended(a: string, c: char, b: string)
    requires IndexFrom(a, [c], 0).None?
    ensures IndexFrom(a + [c] + b, [c], 0) == Some(|a|)
  {
    var s := a + [c] + b;
    forall j: nat | j < |a| ensures !OccursAt(s, [c], j) {
      OccursAtChar(a, c, j);
      OccursAtChar(s, c, j);
    }
    OccursAtChar(s, c, |a|);
    IndexFromIs(s, [c], 0, |a|);
  }

  /** Where `a` holds `c`, the first `c` of `a + [c] + b` is the first of `a`. */
  lemma FirstCharInPrefix(a: string, c: char, b: string, i: nat)
    requires IndexFrom(a, [c], 0) == Some(i)
    ensures IndexFrom(a + [c] + b, [c], 0) == Some(i)
  {
    var s := a + [c] + b;
    forall j: nat | j < i ensures !OccursAt(s, [c], j) {
      OccursAtChar(a, c, j);
      OccursAtChar(s, c, j);
    }
    OccursAtChar(a, c, i);
    OccursAtChar(s, c, i);
    IndexFromIs(s, [c], 0, i);
  }

  lemma SlicesBeforeChar(a: string, c: char, b: string, i: nat)
    requires i < |a|
    ensures (a + [c] + b)[..i] == a[..i]
    ensures (a + [c] + b)[i + 1..] == a[i + 1..] + [c] + b
  {
  }

  /** Splitting `a + [c] + b` where `a` lacks `c`: `a`, then the pieces of `b`. */
  lemma SplitAtAppendedChar(a: string, c: char, b: string)
    requires IndexFrom(a, [c], 0).None?
    ensures Split(a + [c] + b, [c]) == Split(a, [c]) + Split(b, [c])
  {
    var s := a + [c] + b;
    FirstCharAppended(a, c, b);
    assert s[..|a|] == a && s[|a| + 1..] == b;
    assert Split(s, [c]) == [a] + Split(b, [c]);
  }

  /** Splitting `a + [c] + b` where `a` holds `c`, first at `i`. */
  lemma {:induction false} SplitAtCharInPrefix(a: string, c: char, b: string, i: nat)
    requires IndexFrom(a, [c], 0) == Some(i)
    ensures Split(a + [c] + b, [c]) == Split(a, [c]) + Split(b, [c])
    decreases |a|, 0
  {
    assert Split(a + [c] + b, [c]) == [a[..i]] + Split(a[i + 1..] + [c] + b, [c]) by {
      FirstCharInPrefix(a, c, b, i);
      SlicesBeforeChar(a, c, b, i);
    }
    SplitAtChar(a[i + 1..], c, b);
    SplitAtFirstChar(a, c, i);
    ConsAppend(a[..i], Split(a[i + 1..], [c]), Split(b, [c]));
  }

  lemma SplitAtFirstChar(a: string, c: char, i: nat)
    requires IndexFrom(a, [c], 0) == Some(i)
    ensures Split(a, [c]) == [a[..i]] + Split(a[i + 1..], [c])
  {
  }

  lemma ConsAppend<T>(x: T, p: seq<T>, q: seq<T>)
    ensures [x] + (p + q) == ([x] + p) + q
  {
  }

  /** Splitting on a one-character separator cuts at every occurrence:
      `(a + c + b).split(c)` is `a.split(c)` followed by `b.split(c)`. */
  lemma {:induction false} SplitAtChar(a: string, c: char, b: string)
    ensures Split(a + [c] + b, [c]) == Split(a, [c]) + Split(b, [c])
    decreases |a|, 1
  {
    match IndexFrom(a, [c], 0)
    case None => SplitAtAppendedChar(a, c, b);
    case Some(i) => SplitAtCharInPrefix(a, c, b, i);
  }

  /** `xs.join(c).split(c) == xs` when no element holds the one-character separator. */
  lemma {:induction false} SplitJoinChar(xs: seq<string>, c: char)
    requires |xs| >= 1
    requires forall k :: 0 <= k < |xs| ==> c !in xs[k]
    ensures Split(Join(xs, [c]), [c]) == xs
    decreases |xs|
  {
    ContainsChar(xs[0], c);
    SplitWithoutSeparator(xs[0], [c]);
    if |xs| > 1 {
      SplitAtChar(xs[0], c, Join(xs[1..], [c]));
      SplitJoinChar(xs[1..], c);
      assert xs == [xs[0]] + xs[1..];
    }
  }

  /** Lines of a text made of a first line, joined lines and a final break:
      the first line, the joined lines (one empty line when there are none),
      and the empty line after the final break. */
  lemma SplitLines(first: string, lines: seq<string>, c: char)
    requires c !in first
    requires forall k :: 0 <= k < |lines| ==> c !in lines[k]
    ensures Split(first + [c] + (Join(lines, [c]) + [c]), [c])
            == [first] + (if lines == [] then [""] else lines) + [""]
  {
    var joined := Join(lines, [c]);
    var rest := joined + [c];
    var middle := if lines == [] then [""] else lines;
    assert Split(joined, [c]) == middle by {
      if lines != [] {
        SplitJoinChar(lines, c);
      }
    }
    assert Split(rest, [c]) == middle + [""] by {
      SplitAtChar(joined, c, []);
      assert joined + [c] + [] == rest;
      SplitWithoutSeparator([], [c]);
    }
    assert Split(first, [c]) == [first] by {
      ContainsChar(first, c);
      SplitWithoutSeparator(first, [c]);
    }
    calc {
      Split(first + [c] + rest, [c]);
    == { SplitAtChar(first, c, rest); }
      [first] + (middle + [""]);
    == { ConsAppend(first, middle, [""]); }
      [first] + middle + [""];
    }
  }

  /** Joining with a one-character separator and splitting again flattens the
      pieces of each element: the separator between elements is a cut like any other. */
  function Flatten(xss: seq<seq<string>>): seq<string>
    decreases |xss|
  {
    if xss == [] then [] else xss[0] + Flatten(xss[1..])
  }

  function SplitEach(xs: seq<string>, c: char): (r: seq<seq<string>>)
    ensures |r| == |xs|
    ensures forall k :: 0 <= k < |xs| ==> r[k] == Split(xs[k], [c])
    decreases |xs|
  {
    if xs == [] then [] else [Split(xs[0], [c])] + SplitEach(xs[1..], c)
  }

  lemma {:induction false} SplitJoinFlatten(xs: seq<string>, c: char)
    requires |xs| >= 1
    ensures Split(Join(xs, [c]), [c]) == Flatten(SplitEach(xs, c))
    decreases |xs|
  {
    if |xs| == 1 {
      assert SplitEach(xs, c) == [Split(xs[0], [c])];
    } else {
      SplitAtChar(xs[0], c, Join(xs[1..], [c]));
      SplitJoinFlatten(xs[1..], c);
      assert SplitEach(xs, c)[1..] == SplitEach(xs[1..], c);
    }
  }
}
