/** The longest-common-subsequence alignment of two lists (the static `Comparer` class),
    over any element type and the equality it is given; the comparison of arrays uses
    it with `Comparer.JsonEquals` (`JsonComparer.Equals`). */
module Lcs {
  // ---------------------------------------------------------------------------
  // Longest common subsequence

  function Max(a: int, b: int): int { if a >= b then a else b }

  /** The dynamic-programming table: `LcsLength(eq, first, last, i, j)` is `c[i, j]`, the
      length of a longest common subsequence of `first[..i]` and `last[..j]`. */
  function LcsLength<T>(eq: (T, T) -> bool, first: seq<T>, last: seq<T>, i: nat, j: nat): (r: nat)
    requires i <= |first| && j <= |last|
    ensures r <= i && r <= j
    decreases i + j
  {
    if i == 0 || j == 0 then 0
    else if eq(first[i - 1], last[j - 1]) then LcsLength(eq, first, last, i - 1, j - 1) + 1
    else Max(LcsLength(eq, first, last, i - 1, j), LcsLength(eq, first, last, i, j - 1))
  }

  /** The pairs the backtrack emits from cell (i, j), in output order. On an equal pair
      both indices step back; otherwise j steps back only when that keeps a strictly
      larger length, so ties step back i. */
  function Backtrack<T>(eq: (T, T) -> bool, first: seq<T>, last: seq<T>, i: nat, j: nat): seq<(int, int)>
    requires i <= |first| && j <= |last|
    decreases i + j
  {
    if LcsLength(eq, first, last, i, j) == 0 then []
    else if eq(first[i - 1], last[j - 1]) then Backtrack(eq, first, last, i - 1, j - 1) + [(i - 1, j - 1)]
    else if LcsLength(eq, first, last, i, j - 1) > LcsLength(eq, first, last, i - 1, j) then Backtrack(eq, first, last, i, j - 1)
    else Backtrack(eq, first, last, i - 1, j)
  }

  /** `m` aligns `first[..i]` with `last[..j]`: both index components are strictly
      increasing and in bounds, and every pair is equal. */
  ghost predicate IsAlignment<T>(eq: (T, T) -> bool, first: seq<T>, last: seq<T>, m: seq<(int, int)>, i: nat, j: nat)
  {
    && (forall t :: 0 <= t < |m| ==> 0 <= m[t].0 < i && 0 <= m[t].1 < j)
    && (forall t :: 0 <= t < |m| ==> m[t].0 < |first| && m[t].1 < |last| && eq(first[m[t].0], last[m[t].1]))
    && Increasing(m)
  }

  /** Both index components strictly increase along `m`. */
  predicate Increasing(m: seq<(int, int)>)
  {
    forall s, t :: 0 <= s < t < |m| ==> m[s].0 < m[t].0 && m[s].1 < m[t].1
  }

  /** Both index components increase from each pair to the next. */
  predicate Chained(m: seq<(int, int)>)
  {
    forall t :: 0 < t < |m| ==> m[t - 1].0 < m[t].0 && m[t - 1].1 < m[t].1
  }

  /** Increase between neighbours is increase throughout. */
  lemma {:induction false} ChainedIsIncreasing(m: seq<(int, int)>)
    requires Chained(m)
    ensures Increasing(m)
  {
    if |m| > 1 {
      var init := m[..|m| - 1];
      assert forall t :: 0 <= t < |init| ==> init[t] == m[t];
      ChainedIsIncreasing(init);
      forall s | 0 <= s < |m| - 1
        ensures m[s].0 < m[|m| - 1].0 && m[s].1 < m[|m| - 1].1
      {
        assert init[s] == m[s];
        if s < |m| - 2 {
          assert init[s].0 < init[|m| - 2].0 && init[s].1 < init[|m| - 2].1;
        }
      }
    }
  }

  /** `IsAlignment` with the order stated between neighbours only: the form the
      backtrack builds, one pair at a time. */
  ghost predicate IsChain<T>(eq: (T, T) -> bool, first: seq<T>, last: seq<T>, m: seq<(int, int)>, i: nat, j: nat)
  {
    && (forall t :: 0 <= t < |m| ==> 0 <= m[t].0 < i && 0 <= m[t].1 < j)
    && (forall t :: 0 <= t < |m| ==> m[t].0 < |first| && m[t].1 < |last| && eq(first[m[t].0], last[m[t].1]))
    && Chained(m)
  }

  /** A chain of shorter prefixes is one of longer prefixes. */
  lemma ChainWiden<T>(eq: (T, T) -> bool, first: seq<T>, last: seq<T>, m: seq<(int, int)>, i: nat, j: nat, i2: nat, j2: nat)
    requires i <= i2 && j <= j2 && IsChain(eq, first, last, m, i, j)
    ensures IsChain(eq, first, last, m, i2, j2)
  {
  }

  /** An equal pair just past both prefixes extends a chain. */
  lemma ChainExtend<T>(eq: (T, T) -> bool, first: seq<T>, last: seq<T>, m: seq<(int, int)>, i: nat, j: nat)
    requires 0 < i <= |first| && 0 < j <= |last|
    requires IsChain(eq, first, last, m, i - 1, j - 1) && eq(first[i - 1], last[j - 1])
    ensures IsChain(eq, first, last, m + [(i - 1, j - 1)], i, j)
  {
    var m2 := m + [(i - 1, j - 1)];
    assert forall t :: 0 <= t < |m| ==> m2[t] == m[t];
  }

  /** The backtrack emits exactly as many pairs as the table's length. */
  lemma {:induction false} BacktrackLength<T>(eq: (T, T) -> bool, first: seq<T>, last: seq<T>, i: nat, j: nat)
    requires i <= |first| && j <= |last|
    ensures |Backtrack(eq, first, last, i, j)| == LcsLength(eq, first, last, i, j)
    decreases i + j
  {
    if LcsLength(eq, first, last, i, j) == 0 {
    } else if eq(first[i - 1], last[j - 1]) {
      BacktrackLength(eq, first, last, i - 1, j - 1);
    } else if LcsLength(eq, first, last, i, j - 1) > LcsLength(eq, first, last, i - 1, j) {
      BacktrackLength(eq, first, last, i, j - 1);
    } else {
      BacktrackLength(eq, first, last, i - 1, j);
    }
  }

  lemma {:induction false} BacktrackChains<T>(eq: (T, T) -> bool, first: seq<T>, last: seq<T>, i: nat, j: nat)
    requires i <= |first| && j <= |last|
    ensures IsChain(eq, first, last, Backtrack(eq, first, last, i, j), i, j)
    decreases i + j
  {
    if LcsLength(eq, first, last, i, j) == 0 {
    } else if eq(first[i - 1], last[j - 1]) {
      StepMatch(eq, first, last, i, j);
      BacktrackChains(eq, first, last, i - 1, j - 1);
      ChainExtend(eq, first, last, Backtrack(eq, first, last, i - 1, j - 1), i, j);
    } else if LcsLength(eq, first, last, i, j - 1) > LcsLength(eq, first, last, i - 1, j) {
      StepLeft(eq, first, last, i, j);
      BacktrackChains(eq, first, last, i, j - 1);
      ChainWiden(eq, first, last, Backtrack(eq, first, last, i, j - 1), i, j - 1, i, j);
    } else {
      StepUp(eq, first, last, i, j);
      BacktrackChains(eq, first, last, i - 1, j);
      ChainWiden(eq, first, last, Backtrack(eq, first, last, i - 1, j), i - 1, j, i, j);
    }
  }

  /** The backtrack yields an alignment of exactly the table's length. */
  lemma BacktrackIsAlignment<T>(eq: (T, T) -> bool, first: seq<T>, last: seq<T>, i: nat, j: nat)
    requires i <= |first| && j <= |last|
    ensures |Backtrack(eq, first, last, i, j)| == LcsLength(eq, first, last, i, j)
    ensures IsAlignment(eq, first, last, Backtrack(eq, first, last, i, j), i, j)
  {
    BacktrackLength(eq, first, last, i, j);
    BacktrackChains(eq, first, last, i, j);
    ChainedIsIncreasing(Backtrack(eq, first, last, i, j));
  }

  /** Each table step adds at most one to a neighbouring cell, and never loses one. */
  lemma {:induction false} LcsSteps<T>(eq: (T, T) -> bool, first: seq<T>, last: seq<T>, i: nat, j: nat)
    requires i <= |first| && j <= |last|
    ensures i > 0 ==> LcsLength(eq, first, last, i - 1, j) <= LcsLength(eq, first, last, i, j) <= LcsLength(eq, first, last, i - 1, j) + 1
    ensures j > 0 ==> LcsLength(eq, first, last, i, j - 1) <= LcsLength(eq, first, last, i, j) <= LcsLength(eq, first, last, i, j - 1) + 1
    decreases i + j
  {
    if i > 0 && j > 0 {
      LcsSteps(eq, first, last, i - 1, j);
      LcsSteps(eq, first, last, i, j - 1);
      LcsSteps(eq, first, last, i - 1, j - 1);
    }
  }

  /** The table's length is maximal: no alignment of `first[..i]` with `last[..j]` is longer. */
  lemma {:induction false} LcsIsLongest<T>(eq: (T, T) -> bool, first: seq<T>, last: seq<T>, m: seq<(int, int)>, i: nat, j: nat)
    requires i <= |first| && j <= |last|
    requires IsAlignment(eq, first, last, m, i, j)
    ensures |m| <= LcsLength(eq, first, last, i, j)
    decreases i + j
  {
    if m != [] {
      var p := m[|m| - 1];
      AlignmentEnds(eq, first, last, m, i, j);
      LcsSteps(eq, first, last, i, j);
      if p.0 < i - 1 {
        AlignmentWiden(eq, first, last, m, p.0 + 1, p.1 + 1, i - 1, j);
        LcsIsLongest(eq, first, last, m, i - 1, j);
      } else if p.1 < j - 1 {
        AlignmentWiden(eq, first, last, m, p.0 + 1, p.1 + 1, i, j - 1);
        LcsIsLongest(eq, first, last, m, i, j - 1);
      } else {
        assert p == (i - 1, j - 1);
        StepMatch(eq, first, last, i, j);
        LcsIsLongest(eq, first, last, m[..|m| - 1], i - 1, j - 1);
      }
    }
  }

  /** An alignment lies below its last pair, and without that pair it lies strictly
      below it. */
  lemma AlignmentEnds<T>(eq: (T, T) -> bool, first: seq<T>, last: seq<T>, m: seq<(int, int)>, i: nat, j: nat)
    requires IsAlignment(eq, first, last, m, i, j) && m != []
    ensures var p := m[|m| - 1];
            && 0 <= p.0 < i && 0 <= p.1 < j && p.0 < |first| && p.1 < |last| && eq(first[p.0], last[p.1])
            && IsAlignment(eq, first, last, m, p.0 + 1, p.1 + 1)
            && IsAlignment(eq, first, last, m[..|m| - 1], p.0, p.1)
  {
    var init := m[..|m| - 1];
    assert forall t :: 0 <= t < |init| ==> init[t] == m[t];
  }

  /** An alignment of shorter prefixes is one of longer prefixes. */
  lemma AlignmentWiden<T>(eq: (T, T) -> bool, first: seq<T>, last: seq<T>, m: seq<(int, int)>, i: nat, j: nat, i2: nat, j2: nat)
    requires i <= i2 && j <= j2 && IsAlignment(eq, first, last, m, i, j)
    ensures IsAlignment(eq, first, last, m, i2, j2)
  {
  }

  /** The walk back from a cell with an equal pair steps diagonally. */
  lemma StepMatch<T>(eq: (T, T) -> bool, first: seq<T>, last: seq<T>, i: nat, j: nat)
    requires 0 < i <= |first| && 0 < j <= |last| && eq(first[i - 1], last[j - 1])
    ensures LcsLength(eq, first, last, i, j) == LcsLength(eq, first, last, i - 1, j - 1) + 1
    ensures Backtrack(eq, first, last, i, j) == Backtrack(eq, first, last, i - 1, j - 1) + [(i - 1, j - 1)]
  {
  }

  /** The walk back from a cell whose left neighbour is strictly larger steps left. */
  lemma StepLeft<T>(eq: (T, T) -> bool, first: seq<T>, last: seq<T>, i: nat, j: nat)
    requires 0 < i <= |first| && 0 < j <= |last| && !eq(first[i - 1], last[j - 1])
    requires LcsLength(eq, first, last, i, j - 1) > LcsLength(eq, first, last, i - 1, j)
    ensures LcsLength(eq, first, last, i, j) == LcsLength(eq, first, last, i, j - 1)
    ensures Backtrack(eq, first, last, i, j) == Backtrack(eq, first, last, i, j - 1)
  {
  }

  /** Otherwise the walk back steps up. */
  lemma StepUp<T>(eq: (T, T) -> bool, first: seq<T>, last: seq<T>, i: nat, j: nat)
    requires 0 < i <= |first| && 0 < j <= |last| && !eq(first[i - 1], last[j - 1])
    requires LcsLength(eq, first, last, i, j - 1) <= LcsLength(eq, first, last, i - 1, j)
    ensures LcsLength(eq, first, last, i, j) == LcsLength(eq, first, last, i - 1, j)
    ensures LcsLength(eq, first, last, i, j) > 0 ==> Backtrack(eq, first, last, i, j) == Backtrack(eq, first, last, i - 1, j)
  {
  }

  lemma PushFront<T>(a: seq<T>, x: T, b: seq<T>)
    ensures (a + [x]) + b == a + ([x] + b)
  {
  }

  lemma AppendNothing<T>(a: seq<T>)
    ensures a + [] == a
  {
  }

  /** The table fill of `Comparer.LongestCommonSubsequence`: `c[i, j]` is the table
      cell for every i, j. */
  method FillTable<T>(eq: (T, T) -> bool, first: seq<T>, last: seq<T>) returns (c: array2<int>)
    ensures fresh(c)
    ensures c.Length0 == |first| + 1 && c.Length1 == |last| + 1
    ensures forall a, b {:trigger c[a, b]} :: 0 <= a <= |first| && 0 <= b <= |last| ==> c[a, b] == LcsLength(eq, first, last, a, b)
  {
    var m, n := |first|, |last|;
    // .NET zero-initialises the table; column 0 is then copied from an all-zero buffer.
    c := new int[m + 1, n + 1]((_, _) => 0);
    var i := 0;
    while i <= m
      invariant 0 <= i <= m + 1
      invariant forall a, b :: 0 <= a <= m && 0 <= b <= n ==> c[a, b] == 0
    {
      c[i, 0] := 0;
      i := i + 1;
    }

    i := 1;
    while i <= m
      invariant 1 <= i <= m + 1
      invariant forall a, b {:trigger c[a, b]} :: 0 <= a < i && 0 <= b <= n ==> c[a, b] == LcsLength(eq, first, last, a, b)
      invariant forall a :: i <= a <= m ==> c[a, 0] == 0
    {
      var j := 1;
      while j <= n
        invariant 1 <= j <= n + 1
        invariant forall a, b {:trigger c[a, b]} :: 0 <= a < i && 0 <= b <= n ==> c[a, b] == LcsLength(eq, first, last, a, b)
        invariant forall b {:trigger c[i, b]} :: 0 <= b < j ==> c[i, b] == LcsLength(eq, first, last, i, b)
        invariant forall a :: i < a <= m ==> c[a, 0] == 0
      {
        if eq(first[i - 1], last[j - 1]) {
          c[i, j] := c[i - 1, j - 1] + 1;
        } else {
          c[i, j] := Max(c[i - 1, j], c[i, j - 1]);
        }
        j := j + 1;
      }
      i := i + 1;
    }
  }

  /** One step of the walk back as written: on an equal pair i, j and k step back
      BEFORE `output[k]` is written, so the write of the last match (k == 0) falls on
      index -1 and throws (`thrown`); otherwise as in `WalkStep`. */
  method WalkStepAsWritten<T>(eq: (T, T) -> bool, first: seq<T>, last: seq<T>, c: array2<int>, output: array<(int, int)>, i: nat, j: nat, k: int)
    returns (i2: nat, j2: nat, k2: int, thrown: bool)
    requires c.Length0 == |first| + 1 && c.Length1 == |last| + 1
    requires forall a, b {:trigger c[a, b]} :: 0 <= a <= |first| && 0 <= b <= |last| ==> c[a, b] == LcsLength(eq, first, last, a, b)
    requires i <= |first| && j <= |last| && 0 <= k < output.Length
    requires k + 1 == LcsLength(eq, first, last, i, j)
    modifies output
    ensures i2 <= i && j2 <= j && i2 + j2 < i + j
    ensures k2 <= k && k2 + 1 == LcsLength(eq, first, last, i2, j2)
    ensures thrown <==> k2 < 0
  {
    assert i > 0 && j > 0;
    if eq(first[i - 1], last[j - 1]) {
      StepMatch(eq, first, last, i, j);
      i2, j2, k2 := i - 1, j - 1, k - 1;
      if k2 < 0 {
        return i2, j2, k2, true;
      }
      output[k2] := (i2, j2);
      thrown := false;
    } else if c[i, j - 1] > c[i - 1, j] {
      StepLeft(eq, first, last, i, j);
      i2, j2, k2, thrown := i, j - 1, k, false;
    } else {
      StepUp(eq, first, last, i, j);
      i2, j2, k2, thrown := i - 1, j, k, false;
    }
  }

  /** `Comparer.LongestCommonSubsequence` as written: the walk back throws
      `IndexOutOfRangeException` at its last match (`ok == false`). It succeeds exactly
      when the lists have no equal pair at all. */
  method LongestCommonSubsequenceAsWritten<T>(eq: (T, T) -> bool, first: seq<T>, last: seq<T>) returns (output: array<(int, int)>, ok: bool)
    ensures ok <==> LcsLength(eq, first, last, |first|, |last|) == 0
    ensures ok ==> output.Length == 0
  {
    var m, n := |first|, |last|;
    var c := FillTable(eq, first, last);
    output := new (int, int)[c[m, n]];
    var i, j, k := m, n, c[m, n] - 1;
    while k >= 0
      modifies output
      invariant 0 <= i <= m && 0 <= j <= n
      invariant 0 <= k + 1 <= output.Length == LcsLength(eq, first, last, m, n)
      invariant k == -1 ==> output.Length == 0
      invariant forall a, b {:trigger c[a, b]} :: 0 <= a <= m && 0 <= b <= n ==> c[a, b] == LcsLength(eq, first, last, a, b)
      invariant k + 1 == LcsLength(eq, first, last, i, j)
      decreases i + j
    {
      var thrown;
      i, j, k, thrown := WalkStepAsWritten(eq, first, last, c, output, i, j, k);
      if thrown {
        return output, false;
      }
    }
    ok := true;
  }

  /** One step of the corrected walk back from cell (i, j) of a filled table: on an
      equal pair, the pair is written to `output[k]` and both indices step back;
      otherwise j steps back when the cell to the left holds strictly more, and i does. */
  method WalkStep<T>(eq: (T, T) -> bool, first: seq<T>, last: seq<T>, c: array2<int>, output: array<(int, int)>, i: nat, j: nat, k: int)
    returns (i2: nat, j2: nat, wrote: bool)
    requires c.Length0 == |first| + 1 && c.Length1 == |last| + 1
    requires forall a, b {:trigger c[a, b]} :: 0 <= a <= |first| && 0 <= b <= |last| ==> c[a, b] == LcsLength(eq, first, last, a, b)
    requires i <= |first| && j <= |last| && 0 <= k < output.Length
    requires k + 1 == LcsLength(eq, first, last, i, j)
    modifies output
    ensures i2 <= i && j2 <= j && i2 + j2 < i + j
    ensures wrote ==> i2 == i - 1 && j2 == j - 1 && output[..] == old(output[..])[k := (i2, j2)]
    ensures wrote ==> LcsLength(eq, first, last, i, j) == LcsLength(eq, first, last, i2, j2) + 1
    ensures wrote ==> Backtrack(eq, first, last, i, j) == Backtrack(eq, first, last, i2, j2) + [(i2, j2)]
    ensures !wrote ==> output[..] == old(output[..])
    ensures !wrote ==> LcsLength(eq, first, last, i, j) == LcsLength(eq, first, last, i2, j2)
    ensures !wrote ==> Backtrack(eq, first, last, i, j) == Backtrack(eq, first, last, i2, j2)
  {
    assert i > 0 && j > 0;
    if eq(first[i - 1], last[j - 1]) {
      StepMatch(eq, first, last, i, j);
      output[k] := (i - 1, j - 1);
      i2, j2, wrote := i - 1, j - 1, true;
    } else if c[i, j - 1] > c[i - 1, j] {
      StepLeft(eq, first, last, i, j);
      i2, j2, wrote := i, j - 1, false;
    } else {
      StepUp(eq, first, last, i, j);
      i2, j2, wrote := i - 1, j, false;
    }
  }

  /** `Comparer.LongestCommonSubsequence` with the backtrack writing `output[k]` before it
      steps back: fills the table, then walks back from (|first|, |last|) while slots
      remain, filling the output array from its end. */
  method LongestCommonSubsequence<T>(eq: (T, T) -> bool, first: seq<T>, last: seq<T>) returns (output: array<(int, int)>)
    ensures output[..] == Backtrack(eq, first, last, |first|, |last|)
    ensures output.Length == LcsLength(eq, first, last, |first|, |last|)
  {
    var m, n := |first|, |last|;
    var c := FillTable(eq, first, last);
    output := new (int, int)[c[m, n]];
    var i, j, k := m, n, c[m, n] - 1;
    // The pairs written so far, `output[k + 1..]`, kept as a value.
    ghost var written: seq<(int, int)> := [];
    AppendNothing(Backtrack(eq, first, last, m, n));
    while k >= 0
      invariant 0 <= i <= m && 0 <= j <= n
      invariant -1 <= k < output.Length
      invariant forall a, b {:trigger c[a, b]} :: 0 <= a <= m && 0 <= b <= n ==> c[a, b] == LcsLength(eq, first, last, a, b)
      invariant k + 1 == LcsLength(eq, first, last, i, j)
      invariant |written| == output.Length - (k + 1)
      invariant forall t :: 0 <= t < |written| ==> output[k + 1 + t] == written[t]
      invariant Backtrack(eq, first, last, m, n) == Backtrack(eq, first, last, i, j) + written
      decreases i + j
    {
      var wrote;
      i, j, wrote := WalkStep(eq, first, last, c, output, i, j, k);
      if wrote {
        PushFront(Backtrack(eq, first, last, i, j), (i, j), written);
        written := [(i, j)] + written;
        k := k - 1;
      }
    }
    assert output[..] == written;
  }
}
