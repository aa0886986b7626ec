/** Counting transitions between the states of consecutive periods, as the
    loop of calculate_tpm does: for each period t but the last, one is added
    to entry (state of t, state of t + 1) of a square matrix whose side is
    the table's full column count, year column included. */
module Transitions {
  import opened StateSelection
  import opened Matrices

  /** Every row has the table's column count (a NumPy array is rectangular). */
  predicate Rectangular(rows: seq<seq<real>>, width: nat) {
    forall t :: 0 <= t < |rows| ==> |rows[t]| == width
  }

  /** How many times the loop body runs: len(range(T - 1)), zero when T is 0 or 1. */
  function Pairs(periods: nat): nat {
    if periods == 0 then 0 else periods - 1
  }

  /** Every row has a state column, so np.argmax can be applied to each. */
  predicate HasStates(rows: seq<seq<real>>) {
    forall t :: 0 <= t < |rows| ==> |rows[t]| >= 2
  }

  /** The first k iterations can run: rows 0..k exist and each has a state column. */
  predicate Scannable(rows: seq<seq<real>>, k: nat) {
    k == 0 || (k < |rows| && HasStates(rows))
  }

  /** Entry (a, b) after k iterations: the pairs t < k going from state a to state b. */
  function Count(rows: seq<seq<real>>, k: nat, a: int, b: int): (c: nat)
    requires Scannable(rows, k)
  {
    if k == 0 then 0
    else
      Count(rows, k - 1, a, b)
      + (if Moves(rows, k - 1, a, b) then 1 else 0)
  }

  /** Period t is in state a and period t + 1 in state b. */
  predicate Moves(rows: seq<seq<real>>, t: nat, a: int, b: int)
    requires t + 1 < |rows| && |rows[t]| >= 2 && |rows[t + 1]| >= 2
  {
    State(rows[t]) == a && State(rows[t + 1]) == b
  }

  /** How often state a is the current state among the first k pairs. */
  function OutCount(rows: seq<seq<real>>, k: nat, a: int): (c: nat)
    requires Scannable(rows, k)
    ensures c <= k
  {
    if k == 0 then 0
    else OutCount(rows, k - 1, a) + (if State(rows[k - 1]) == a then 1 else 0)
  }

  /** No more pairs go from a to b than start in a. */
  lemma {:induction false} CountAtMostOutCount(rows: seq<seq<real>>, k: nat, a: int, b: int)
    requires Scannable(rows, k)
    ensures Count(rows, k, a, b) <= OutCount(rows, k, a)
  {
    if k > 0 {
      CountAtMostOutCount(rows, k - 1, a, b);
    }
  }

  /** The whole width x width count matrix after k iterations. */
  function CountsAfter(rows: seq<seq<real>>, width: nat, k: nat): (m: seq<seq<int>>)
    requires Scannable(rows, k)
    ensures |m| == width
    ensures forall a :: 0 <= a < width ==> |m[a]| == width
    ensures forall a, b :: 0 <= a < width && 0 <= b < width ==> 0 <= m[a][b] <= k
  {
    CountsAtMostOutCounts(rows, k);
    seq(width, a => seq(width, b => Count(rows, k, a, b)))
  }

  /** After k iterations no entry exceeds k. */
  lemma {:induction false} CountAtMostK(rows: seq<seq<real>>, k: nat, a: int, b: int)
    requires Scannable(rows, k)
    ensures Count(rows, k, a, b) <= k
  {
    CountAtMostOutCount(rows, k, a, b);
  }

  /** The bound of CountAtMostOutCount, for every pair of states at once. */
  lemma CountsAtMostOutCounts(rows: seq<seq<real>>, k: nat)
    requires Scannable(rows, k)
    ensures forall a, b :: Count(rows, k, a, b) <= OutCount(rows, k, a)
  {
    forall a, b {
      CountAtMostOutCount(rows, k, a, b);
    }
  }

  /** Count is the size of the set of periods t < k with state a at t and state b at t + 1. */
  lemma {:induction false} CountIsCardinality(rows: seq<seq<real>>, k: nat, a: nat, b: nat)
    requires Scannable(rows, k)
    ensures Count(rows, k, a, b)
      == |set t | 0 <= t < k && Moves(rows, t, a, b)|
  {
    if k > 0 {
      CountIsCardinality(rows, k - 1, a, b);
      MovesSplitLast(rows, k, a, b);
    }
  }

  /** The pairs before k are those before k - 1, plus pair k - 1 when it moves from a to b. */
  lemma MovesSplitLast(rows: seq<seq<real>>, k: nat, a: nat, b: nat)
    requires 0 < k && Scannable(rows, k)
    ensures (set t | 0 <= t < k && Moves(rows, t, a, b))
      == (set t | 0 <= t < k - 1 && Moves(rows, t, a, b))
         + (if Moves(rows, k - 1, a, b) then {k - 1} else {})
  {
  }

  /** OutCount is the size of the set of periods t < k whose state is a. */
  lemma {:induction false} OutCountIsCardinality(rows: seq<seq<real>>, k: nat, a: nat)
    requires Scannable(rows, k)
    ensures OutCount(rows, k, a) == |set t | 0 <= t < k && State(rows[t]) == a|
  {
    if k > 0 {
      OutCountIsCardinality(rows, k - 1, a);
      StatesSplitLast(rows, k, a);
    }
  }

  /** The periods before k in state a are those before k - 1, plus k - 1 when it is in state a. */
  lemma StatesSplitLast(rows: seq<seq<real>>, k: nat, a: nat)
    requires 0 < k && Scannable(rows, k)
    ensures (set t | 0 <= t < k && State(rows[t]) == a)
      == (set t | 0 <= t < k - 1 && State(rows[t]) == a)
         + (if State(rows[k - 1]) == a then {k - 1} else {})
  {
  }

  /** One more iteration bumps exactly the entry (state of k - 1, state of k). */
  lemma CountsAfterStep(rows: seq<seq<real>>, width: nat, k: nat)
    requires Rectangular(rows, width)
    requires 0 < k < |rows| && width >= 2
    ensures State(rows[k - 1]) < width && State(rows[k]) < width
    ensures CountsAfter(rows, width, k)
      == Bump(CountsAfter(rows, width, k - 1), State(rows[k - 1]), State(rows[k]))
  {
    var m := CountsAfter(rows, width, k);
    var r := Bump(CountsAfter(rows, width, k - 1), State(rows[k - 1]), State(rows[k]));
    assert |m| == |r|;
    forall a | 0 <= a < width
      ensures m[a] == r[a]
    {
      assert |m[a]| == |r[a]|;
    }
  }

  /** The counts add up to the number of iterations: T - 1 in all, for T >= 1. */
  lemma {:induction false} CountsAfterTotal(rows: seq<seq<real>>, width: nat, k: nat)
    requires Rectangular(rows, width)
    requires k <= Pairs(|rows|) && (k > 0 ==> width >= 2)
    ensures MatrixSum(CountsAfter(rows, width, k)) == k
  {
    if k == 0 {
      ZeroMatrixSum(CountsAfter(rows, width, 0));
    } else {
      CountsAfterTotal(rows, width, k - 1);
      CountsAfterStep(rows, width, k);
      MatrixSumBump(CountsAfter(rows, width, k - 1), State(rows[k - 1]), State(rows[k]));
    }
  }

  /** A matrix of zeros sums to zero. */
  lemma {:induction false} ZeroMatrixSum(m: seq<seq<int>>)
    requires forall i, j :: 0 <= i < |m| && 0 <= j < |m[i]| ==> m[i][j] == 0
    ensures MatrixSum(m) == 0
  {
    if m != [] {
      ZeroRowSum(m[0]);
      ZeroMatrixSum(m[1..]);
    }
  }

  /** A row of zeros sums to zero. */
  lemma {:induction false} ZeroRowSum(s: seq<int>)
    requires forall j :: 0 <= j < |s| ==> s[j] == 0
    ensures RowSum(s) == 0
  {
    if s != [] {
      ZeroRowSum(s[1..]);
    }
  }

  /** Row a of the count matrix sums to the number of pairs that start in state a. */
  lemma {:induction false} RowSumIsOutCount(rows: seq<seq<real>>, width: nat, k: nat, a: nat)
    requires Rectangular(rows, width)
    requires k <= Pairs(|rows|) && (k > 0 ==> width >= 2)
    requires a < width
    ensures RowSum(CountsAfter(rows, width, k)[a]) == OutCount(rows, k, a)
  {
    if k == 0 {
      ZeroRowSum(CountsAfter(rows, width, 0)[a]);
    } else {
      RowSumIsOutCount(rows, width, k - 1, a);
      CountsAfterStep(rows, width, k);
      BumpRowSum(CountsAfter(rows, width, k - 1), State(rows[k - 1]), State(rows[k]), a);
    }
  }

  /** The extra state index width - 1, the one the year column adds, is never recorded:
      no pair starts or ends there. */
  lemma {:induction false} LastStateNeverCounted(rows: seq<seq<real>>, width: nat, k: nat, c: int)
    requires Rectangular(rows, width)
    requires k <= Pairs(|rows|) && (k > 0 ==> width >= 2) && width >= 1
    ensures Count(rows, k, width - 1, c) == 0
    ensures Count(rows, k, c, width - 1) == 0
    ensures OutCount(rows, k, width - 1) == 0
  {
    if k > 0 {
      LastStateNeverCounted(rows, width, k - 1, c);
      assert State(rows[k - 1]) < width - 1 && State(rows[k]) < width - 1;
    }
  }

  /** The year column never influences the counts: two tables equal on the state columns
      have equal counts. */
  lemma {:induction false} CountsIgnoreYear(rows: seq<seq<real>>, other: seq<seq<real>>, k: nat, a: int, b: int)
    requires |other| == |rows| && Scannable(rows, k)
    requires forall t :: 0 <= t < |rows| ==> |other[t]| == |rows[t]|
    requires forall t, j :: 0 <= t < |rows| && 1 <= j < |rows[t]| ==> rows[t][j] == other[t][j]
    ensures Scannable(other, k)
    ensures Count(rows, k, a, b) == Count(other, k, a, b)
    ensures OutCount(rows, k, a) == OutCount(other, k, a)
  {
    if k > 0 {
      CountsIgnoreYear(rows, other, k - 1, a, b);
      StateIgnoresYear(rows[k - 1], other[k - 1]);
      StateIgnoresYear(rows[k], other[k]);
    }
  }
}
