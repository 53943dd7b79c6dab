/** The one-pass check that a required sequence of events was observed in order. */
module OrderedSubsequence {

  /** `at` places every expected value at an observed position, in increasing order. */
  predicate Embeds<T(==)>(expected: seq<T>, actual: seq<T>, at: seq<nat>) {
    && |at| == |expected|
    && (forall i :: 0 <= i < |at| ==> at[i] < |actual| && actual[at[i]] == expected[i])
    && (forall i, j :: 0 <= i < j < |at| ==> at[i] < at[j])
  }

  ghost predicate IsSubsequence<T>(expected: seq<T>, actual: seq<T>) {
    exists at :: Embeds(expected, actual, at)
  }

  /** How many expected values the greedy scan has matched. */
  function Position<T(==)>(expected: seq<T>, actual: seq<T>): (p: nat)
    ensures p <= |expected|
  {
    if actual == [] then 0
    else
      var p := Position(expected, actual[..|actual| - 1]);
      if p < |expected| && actual[|actual| - 1] == expected[p] then p + 1 else p
  }

  lemma EmbedsLonger<T>(expected: seq<T>, actual: seq<T>, x: T, at: seq<nat>)
    requires Embeds(expected, actual, at)
    ensures Embeds(expected, actual + [x], at)
  {
  }

  /** The matched prefix does embed. */
  lemma {:induction false} GreedyEmbeds<T>(expected: seq<T>, actual: seq<T>) returns (at: seq<nat>)
    ensures Embeds(expected[..Position(expected, actual)], actual, at)
  {
    if actual == [] {
      at := [];
    } else {
      var n := |actual| - 1;
      var less, x := actual[..n], actual[n];
      assert less + [x] == actual;
      at := GreedyEmbeds(expected, less);
      var p := Position(expected, less);
      EmbedsLonger(expected[..p], less, x, at);
      if p < |expected| && x == expected[p] {
        assert expected[..p + 1] == expected[..p] + [x];
        at := at + [n];
      }
    }
  }

  /** No embedded prefix is longer than the matched one. */
  lemma {:induction false} GreedyIsMaximal<T>(expected: seq<T>, actual: seq<T>, k: nat, at: seq<nat>)
    requires k <= |expected| && Embeds(expected[..k], actual, at)
    ensures k <= Position(expected, actual)
    decreases |actual|
  {
    if k > 0 {
      assert at[0] < |actual|;
      var n := |actual| - 1;
      var less := actual[..n];
      if at[k - 1] == n {
        var before := at[..k - 1];
        forall i | 0 <= i < k - 1 ensures before[i] < n && less[before[i]] == expected[..k - 1][i] {
          assert at[i] < at[k - 1];
        }
        GreedyIsMaximal(expected, less, k - 1, before);
        assert actual[n] == expected[..k][k - 1] == expected[k - 1];
      } else {
        forall i | 0 <= i < k ensures at[i] < n && less[at[i]] == expected[..k][i] {
          assert i < k - 1 ==> at[i] < at[k - 1];
        }
        GreedyIsMaximal(expected, less, k, at);
      }
    }
  }

  method IsOrderedSubsequence<T(==)>(expected: seq<T>, actual: seq<T>) returns (yes: bool)
    ensures yes <==> IsSubsequence(expected, actual)
  {
    var position, i := 0, 0;
    while i < |actual|
      invariant i <= |actual| && position == Position(expected, actual[..i])
    {
      assert actual[..i + 1][..i] == actual[..i];
      if position < |expected| && actual[i] == expected[position] {
        position := position + 1;
      }
      i := i + 1;
    }
    assert actual[..i] == actual && expected[..|expected|] == expected;
    yes := position == |expected|;
    ghost var at := GreedyEmbeds(expected, actual);
    if IsSubsequence(expected, actual) {
      ghost var w :| Embeds(expected, actual, w);
      GreedyIsMaximal(expected, actual, |expected|, w);
    }
  }

  /** Further observations, anywhere, never turn acceptance into rejection. */
  lemma MoreObservations<T>(expected: seq<T>, before: seq<T>, extra: seq<T>, after: seq<T>)
    requires IsSubsequence(expected, before + after)
    ensures IsSubsequence(expected, before + extra + after)
  {
    var at :| Embeds(expected, before + after, at);
    var moved := seq(|at|, i requires 0 <= i < |at| => if at[i] < |before| then at[i] else at[i] + |extra|);
    assert Embeds(expected, before + extra + after, moved);
  }
}
