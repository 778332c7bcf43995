/**
 * The seam finder's dynamic program, stated once for both directions.
 *
 * The program runs over `lines`: the rows of the energy grid for a vertical
 * seam, its columns for a horizontal one. Every line has `n` entries; entry
 * `i` of line `k` may continue a path from entries `i - 1`, `i` and `i + 1`
 * of line `k - 1` (those that exist).
 */
module SeamFinder {
  import opened Grid

  /** At least one line, every line with the same `n >= 1` entries. */
  predicate IsLines(lines: seq<seq<int>>, n: nat)
  {
    |lines| >= 1 && n >= 1 && Rectangular(lines, n)
  }

  /** Entry `j` of the previous line is a valid predecessor of entry `i` (both below `n`). */
  predicate IsPredecessor(j: nat, i: nat, n: nat)
  {
    j < n && i < n && j <= i + 1 && i <= j + 1
  }

  // ---------------------------------------------------------------------------
  // mindex

  /**
   * The first index of a minimum of `s`, as a left-to-right scan that only
   * replaces the minimum on a strictly smaller value finds it.
   */
  function FirstMin(s: seq<int>): (m: nat)
    requires |s| >= 1
    ensures m < |s|
    ensures forall j :: 0 <= j < |s| ==> s[m] <= s[j]
    ensures forall j :: 0 <= j < m ==> s[j] > s[m]
  {
    if |s| == 1 then 0
    else
      var m := FirstMin(s[..|s| - 1]);
      if s[|s| - 1] < s[m] then |s| - 1 else m
  }

  /** `mindex`: the first index of a minimum among the first `length` entries. */
  method MinIndex(arr: seq<int>, length: nat) returns (minIdx: nat)
    requires 1 <= length <= |arr|
    ensures minIdx < length
    ensures forall j :: 0 <= j < length ==> arr[minIdx] <= arr[j]
    ensures forall j :: 0 <= j < minIdx ==> arr[j] > arr[minIdx]
    ensures minIdx == FirstMin(arr[..length])
  {
    var min := arr[0];
    minIdx := 0;
    assert arr[..1] == [arr[0]];
    var i := 1;
    while i < length
      invariant 1 <= i <= length
      invariant minIdx < i && min == arr[minIdx]
      invariant minIdx == FirstMin(arr[..i])
    {
      assert arr[..i + 1][..i] == arr[..i];
      if arr[i] < min {
        min := arr[i];
        minIdx := i;
      }
      i := i + 1;
    }
    assert arr[..length][..length] == arr[..length];
  }

  // ---------------------------------------------------------------------------
  // The dynamic program, one cell at a time

  /**
   * Entry `i` of cumulative line `k`: the entry's own energy plus the
   * cumulative entry of its parent in line `k - 1`.
   */
  function CumAt(lines: seq<seq<int>>, n: nat, k: nat, i: nat): int
    requires IsLines(lines, n) && k < |lines| && i < n
    decreases k, 1
  {
    if k == 0 then lines[0][i] else lines[k][i] + CumAt(lines, n, k - 1, ParentAt(lines, n, k, i))
  }

  /**
   * The parent of entry `i` of line `k >= 1`: the straight predecessor, replaced
   * by the left one when that is strictly smaller, then by the right one when
   * that is strictly smaller than the one kept so far.
   */
  function ParentAt(lines: seq<seq<int>>, n: nat, k: nat, i: nat): (p: nat)
    requires IsLines(lines, n) && 1 <= k < |lines| && i < n
    ensures IsPredecessor(p, i, n)
    decreases k, 0
  {
    var straightOrLeft :=
      if i >= 1 && CumAt(lines, n, k - 1, i - 1) < CumAt(lines, n, k - 1, i) then i - 1 else i;
    if i + 1 < n && CumAt(lines, n, k - 1, i + 1) < CumAt(lines, n, k - 1, straightOrLeft)
    then i + 1
    else straightOrLeft
  }

  /**
   * The parent rule on one line of values: position `i`, replaced by `i - 1`
   * when that entry is strictly smaller, then by `i + 1` when that entry is
   * strictly smaller than the one kept so far.
   */
  function Predecessor(prev: seq<int>, i: nat): (p: nat)
    requires i < |prev|
    ensures IsPredecessor(p, i, |prev|)
  {
    var straightOrLeft := if i >= 1 && prev[i - 1] < prev[i] then i - 1 else i;
    if i + 1 < |prev| && prev[i + 1] < prev[straightOrLeft] then i + 1 else straightOrLeft
  }

  /** `ParentAt` applies the parent rule to the cumulative line before. */
  lemma ParentIsPredecessor(lines: seq<seq<int>>, n: nat, k: nat, i: nat)
    requires IsLines(lines, n) && 1 <= k < |lines| && i < n
    ensures ParentAt(lines, n, k, i) == Predecessor(Cumulative(lines, n, k - 1), i)
  {
    var prev := Cumulative(lines, n, k - 1);
    assert prev[i] == CumAt(lines, n, k - 1, i);
    if i >= 1 {
      assert prev[i - 1] == CumAt(lines, n, k - 1, i - 1);
    }
    if i + 1 < n {
      assert prev[i + 1] == CumAt(lines, n, k - 1, i + 1);
    }
  }

  /** Line `k` of the cumulative-energy grid. */
  function Cumulative(lines: seq<seq<int>>, n: nat, k: nat): (cum: seq<int>)
    requires IsLines(lines, n) && k < |lines|
    ensures |cum| == n
  {
    seq(n, i => if 0 <= i < n then CumAt(lines, n, k, i) else 0)
  }

  /** The whole cumulative-energy grid, line by line: what the accumulation leaves in `energy`. */
  function CumulativeRows(lines: seq<seq<int>>, n: nat): (grid: seq<seq<int>>)
    requires IsLines(lines, n)
    ensures |grid| == |lines| && Rectangular(grid, n)
  {
    seq(|lines|, k requires 0 <= k < |lines| => Cumulative(lines, n, k))
  }

  /** The whole parent grid, line by line: what the accumulation leaves in `ptr` (line 0 keeps its zeros). */
  function ParentRows(lines: seq<seq<int>>, n: nat): (grid: seq<seq<int>>)
    requires IsLines(lines, n)
    ensures |grid| == |lines| && Rectangular(grid, n)
  {
    seq(|lines|, k requires 0 <= k < |lines| =>
      seq(n, i requires 0 <= i < n => if k == 0 then 0 else ParentAt(lines, n, k, i)))
  }

  /**
   * The entry of line `k` on the seam: the first minimum of the last
   * cumulative line, then backwards from each entry to its parent.
   */
  function SeamAt(lines: seq<seq<int>>, n: nat, k: nat): (i: nat)
    requires IsLines(lines, n) && k < |lines|
    ensures i < n
    decreases |lines| - k
  {
    if k == |lines| - 1 then FirstMin(Cumulative(lines, n, k))
    else ParentAt(lines, n, k + 1, SeamAt(lines, n, k + 1))
  }

  /** The seam the finder returns: one entry per line. */
  function Seam(lines: seq<seq<int>>, n: nat): (seam: seq<nat>)
    requires IsLines(lines, n)
    ensures |seam| == |lines|
  {
    seq(|lines|, k => if 0 <= k < |lines| then SeamAt(lines, n, k) else 0)
  }

  // ---------------------------------------------------------------------------
  // Paths and their cost

  /** Consecutive entries `k` and `k + 1` of `s` are adjacent. */
  predicate Connected(s: seq<nat>, n: nat, k: nat)
    requires k + 1 < |s|
  {
    IsPredecessor(s[k], s[k + 1], n)
  }

  /** A connected path across all lines: one entry per line, each below `n`, neighbours adjacent. */
  predicate IsPath(s: seq<nat>, n: nat)
  {
    && (forall k :: 0 <= k < |s| ==> s[k] < n)
    && (forall k :: 0 <= k < |s| - 1 ==> Connected(s, n, k))
  }

  /** The total energy of lines `0..k` along `s`. */
  function PathCost(lines: seq<seq<int>>, n: nat, s: seq<nat>, k: nat): int
    requires IsLines(lines, n) && |s| == |lines| && k < |s|
    requires forall j :: 0 <= j < |s| ==> s[j] < n
  {
    lines[k][s[k]] + if k == 0 then 0 else PathCost(lines, n, s, k - 1)
  }

  // ---------------------------------------------------------------------------
  // Properties

  /**
   * The parent is a smallest valid predecessor; among equal ones the straight
   * predecessor wins, then the left one.
   */
  lemma ParentIsMin(lines: seq<seq<int>>, n: nat, k: nat, i: nat)
    requires IsLines(lines, n) && 1 <= k < |lines| && i < n
    ensures var p := ParentAt(lines, n, k, i);
      && CumAt(lines, n, k - 1, p) <= CumAt(lines, n, k - 1, i)
      && (i >= 1 ==> CumAt(lines, n, k - 1, p) <= CumAt(lines, n, k - 1, i - 1))
      && (i + 1 < n ==> CumAt(lines, n, k - 1, p) <= CumAt(lines, n, k - 1, i + 1))
    ensures var p := ParentAt(lines, n, k, i);
      && (p + 1 == i ==> CumAt(lines, n, k - 1, p) < CumAt(lines, n, k - 1, i))
      && (p == i + 1 ==> CumAt(lines, n, k - 1, p) < CumAt(lines, n, k - 1, i))
      && (p == i + 1 && i >= 1 ==> CumAt(lines, n, k - 1, p) < CumAt(lines, n, k - 1, i - 1))
  {
  }

  /**
   * A cumulative entry is its own energy plus the smallest cumulative entry
   * among its valid predecessors.
   */
  lemma CumulativeIsMinOverPredecessors(lines: seq<seq<int>>, n: nat, k: nat, i: nat)
    requires IsLines(lines, n) && 1 <= k < |lines| && i < n
    ensures exists j: nat :: IsPredecessor(j, i, n) &&
              CumAt(lines, n, k, i) == lines[k][i] + CumAt(lines, n, k - 1, j)
    ensures forall j: nat :: IsPredecessor(j, i, n) ==>
              CumAt(lines, n, k, i) <= lines[k][i] + CumAt(lines, n, k - 1, j)
  {
    var p := ParentAt(lines, n, k, i);
    ParentIsMin(lines, n, k, i);
    assert CumAt(lines, n, k, i) == lines[k][i] + CumAt(lines, n, k - 1, p);
  }

  /** Consecutive seam entries: the earlier one is the parent of the later one, hence adjacent. */
  lemma SeamStep(lines: seq<seq<int>>, n: nat, k: nat)
    requires IsLines(lines, n) && k + 1 < |lines|
    ensures SeamAt(lines, n, k) == ParentAt(lines, n, k + 1, SeamAt(lines, n, k + 1))
    ensures IsPredecessor(SeamAt(lines, n, k), SeamAt(lines, n, k + 1), n)
  {
  }

  /** The seam is a connected path. */
  lemma SeamIsPath(lines: seq<seq<int>>, n: nat)
    requires IsLines(lines, n)
    ensures IsPath(Seam(lines, n), n)
  {
    var seam := Seam(lines, n);
    forall k | 0 <= k < |seam|
      ensures seam[k] < n
    {
      assert seam[k] == SeamAt(lines, n, k);
    }
    forall k | 0 <= k < |seam| - 1
      ensures Connected(seam, n, k)
    {
      assert seam[k] == SeamAt(lines, n, k);
      assert seam[k + 1] == SeamAt(lines, n, k + 1);
      SeamStep(lines, n, k);
    }
  }

  /**
   * `s` is what following a parent grid backwards gives: every entry below
   * `n`, and each entry the parent recorded for the entry on the next line.
   */
  predicate Traces(s: seq<nat>, parents: seq<seq<int>>, n: nat)
  {
    && |s| == |parents| && Rectangular(parents, n)
    && (forall k :: 0 <= k < |s| ==> s[k] < n)
    && (forall k :: 1 <= k < |s| ==> s[k - 1] == parents[k][s[k]])
  }

  /** The seam is traced by the parent grid, ending at the first minimum of the last cumulative line. */
  lemma SeamTracesParents(lines: seq<seq<int>>, n: nat)
    requires IsLines(lines, n) && |lines| >= 1
    ensures Traces(Seam(lines, n), ParentRows(lines, n), n)
    ensures Seam(lines, n)[|lines| - 1] == FirstMin(Cumulative(lines, n, |lines| - 1))
  {
    var seam := Seam(lines, n);
    var parents := ParentRows(lines, n);
    var last := |lines| - 1;
    assert seam[last] == SeamAt(lines, n, last) == FirstMin(Cumulative(lines, n, last));
    SeamIsPath(lines, n);
    forall k | 1 <= k < |seam|
      ensures seam[k - 1] == parents[k][seam[k]]
    {
      SeamFollowsParent(lines, n, k);
    }
  }

  /** One step of the trace: the seam entry on line `k - 1` is the parent recorded for line `k`'s. */
  lemma SeamFollowsParent(lines: seq<seq<int>>, n: nat, k: nat)
    requires IsLines(lines, n) && 1 <= k < |lines|
    ensures Seam(lines, n)[k] < n
    ensures Seam(lines, n)[k - 1] == ParentRows(lines, n)[k][Seam(lines, n)[k]]
  {
    var seam, parents := Seam(lines, n), ParentRows(lines, n);
    var i, j := SeamAt(lines, n, k), SeamAt(lines, n, k - 1);
    SeamStep(lines, n, k - 1);
    assert seam[k] == i && seam[k - 1] == j;
    assert parents[k][i] == ParentAt(lines, n, k, i);
  }

  /** No path reaches entry `s[k]` of line `k` more cheaply than its cumulative entry. */
  lemma {:induction false} CumulativeIsLowerBound(lines: seq<seq<int>>, n: nat, s: seq<nat>, k: nat)
    requires IsLines(lines, n) && IsPath(s, n) && |s| == |lines| && k < |s|
    ensures PathCost(lines, n, s, k) >= CumAt(lines, n, k, s[k])
  {
    if k > 0 {
      CumulativeIsLowerBound(lines, n, s, k - 1);
      assert Connected(s, n, k - 1);
      ParentIsMin(lines, n, k, s[k]);
    }
  }

  /** Along the seam, the cost so far is exactly the cumulative entry. */
  lemma {:induction false} SeamCostIsCumulative(lines: seq<seq<int>>, n: nat, k: nat)
    requires IsLines(lines, n) && k < |lines|
    ensures IsPath(Seam(lines, n), n)
    ensures PathCost(lines, n, Seam(lines, n), k) == CumAt(lines, n, k, SeamAt(lines, n, k))
  {
    SeamIsPath(lines, n);
    var seam := Seam(lines, n);
    assert seam[k] == SeamAt(lines, n, k);
    if k > 0 {
      SeamCostIsCumulative(lines, n, k - 1);
      SeamStep(lines, n, k - 1);
    }
  }

  /** The seam has the least total energy of all connected paths across the lines. */
  lemma SeamIsOptimal(lines: seq<seq<int>>, n: nat, s: seq<nat>)
    requires IsLines(lines, n) && IsPath(s, n) && |s| == |lines|
    ensures IsPath(Seam(lines, n), n)
    ensures PathCost(lines, n, Seam(lines, n), |lines| - 1) <= PathCost(lines, n, s, |lines| - 1)
  {
    var last := |lines| - 1;
    SeamCostIsCumulative(lines, n, last);
    CumulativeIsLowerBound(lines, n, s, last);
    var cum := Cumulative(lines, n, last);
    var m := SeamAt(lines, n, last);
    assert m == FirstMin(cum);
    assert cum[m] == CumAt(lines, n, last, m);
    assert cum[s[last]] == CumAt(lines, n, last, s[last]);
  }

  /** Every entry of every line is zero. */
  predicate AllZero(lines: seq<seq<int>>)
  {
    forall k, i :: 0 <= k < |lines| && 0 <= i < |lines[k]| ==> lines[k][i] == 0
  }

  /** With all energies equal to zero, every tie goes to entry 0: the seam is entry 0 of every line. */
  lemma ZeroEnergySeam(lines: seq<seq<int>>, n: nat)
    requires IsLines(lines, n) && AllZero(lines)
    ensures Seam(lines, n) == seq(|lines|, k => 0)
  {
    forall k | 0 <= k < |lines|
      ensures SeamAt(lines, n, k) == 0
    {
      ZeroSeamSuffix(lines, n, k);
    }
  }

  lemma {:induction false} ZeroCumulative(lines: seq<seq<int>>, n: nat, k: nat, i: nat)
    requires IsLines(lines, n) && AllZero(lines) && k < |lines| && i < n
    ensures CumAt(lines, n, k, i) == 0
  {
    if k > 0 {
      ZeroCumulative(lines, n, k - 1, ParentAt(lines, n, k, i));
    }
  }

  lemma {:induction false} ZeroSeamSuffix(lines: seq<seq<int>>, n: nat, k: nat)
    requires IsLines(lines, n) && AllZero(lines) && k < |lines|
    ensures SeamAt(lines, n, k) == 0
    decreases |lines| - k
  {
    if k == |lines| - 1 {
      var cum := Cumulative(lines, n, k);
      var m := FirstMin(cum);
      ZeroCumulative(lines, n, k, 0);
      ZeroCumulative(lines, n, k, m);
      assert cum[0] == 0 && cum[m] == 0;
    } else {
      ZeroSeamSuffix(lines, n, k + 1);
      ZeroCumulative(lines, n, k, 0);
      if n > 1 {
        ZeroCumulative(lines, n, k, 1);
      }
    }
  }
}
