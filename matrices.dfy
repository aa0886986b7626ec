/** Row sums, matrix sums and the single-entry increment used by the
    counting loop, on integer matrices given as sequences of rows. */
module Matrices {

  /** The sum of one row (NumPy's sum along axis 1 for that row). */
  function RowSum(s: seq<int>): int {
    if s == [] then 0 else s[0] + RowSum(s[1..])
  }

  /** The sum of all entries of a matrix. */
  function MatrixSum(m: seq<seq<int>>): int {
    if m == [] then 0 else RowSum(m[0]) + MatrixSum(m[1..])
  }

  /** The matrix after `m[a, b] += 1`. */
  function Bump(m: seq<seq<int>>, a: nat, b: nat): (r: seq<seq<int>>)
    requires a < |m| && b < |m[a]|
    ensures |r| == |m|
    ensures forall i :: 0 <= i < |m| ==> |r[i]| == |m[i]|
    ensures forall i, j :: 0 <= i < |m| && 0 <= j < |m[i]| ==>
      r[i][j] == m[i][j] + (if i == a && j == b then 1 else 0)
  {
    m[a := m[a][b := m[a][b] + 1]]
  }

  /** Raising one entry by one raises the row sum by one. */
  lemma {:induction false} RowSumIncrement(s: seq<int>, b: nat)
    requires b < |s|
    ensures RowSum(s[b := s[b] + 1]) == RowSum(s) + 1
  {
    var s' := s[b := s[b] + 1];
    if b > 0 {
      assert s'[1..] == s[1..][b - 1 := s[1..][b - 1] + 1];
      RowSumIncrement(s[1..], b - 1);
    } else {
      assert s'[1..] == s[1..];
    }
  }

  /** Bumping entry (a, b) raises the sum of row a by one and leaves the other rows alone. */
  lemma BumpRowSum(m: seq<seq<int>>, a: nat, b: nat, c: nat)
    requires a < |m| && b < |m[a]| && c < |m|
    ensures RowSum(Bump(m, a, b)[c]) == RowSum(m[c]) + (if c == a then 1 else 0)
  {
    if c == a {
      RowSumIncrement(m[a], b);
    }
  }

  /** Bumping one entry raises the sum of the whole matrix by one. */
  lemma {:induction false} MatrixSumBump(m: seq<seq<int>>, a: nat, b: nat)
    requires a < |m| && b < |m[a]|
    ensures MatrixSum(Bump(m, a, b)) == MatrixSum(m) + 1
  {
    var r := Bump(m, a, b);
    if a == 0 {
      assert r[1..] == m[1..];
      RowSumIncrement(m[0], b);
    } else {
      assert r[1..] == Bump(m[1..], a - 1, b);
      MatrixSumBump(m[1..], a - 1, b);
    }
  }

  /** In a row without negative entries every entry is at most the row sum. */
  lemma {:induction false} EntryAtMostRowSum(s: seq<int>, j: nat)
    requires forall i :: 0 <= i < |s| ==> s[i] >= 0
    requires j < |s|
    ensures 0 <= s[j] <= RowSum(s)
    ensures RowSum(s) >= 0
  {
    if j == 0 {
      NonNegativeRowSum(s[1..]);
    } else {
      EntryAtMostRowSum(s[1..], j - 1);
    }
  }

  /** A row without negative entries has a non-negative sum. */
  lemma {:induction false} NonNegativeRowSum(s: seq<int>)
    requires forall i :: 0 <= i < |s| ==> s[i] >= 0
    ensures RowSum(s) >= 0
  {
    if s != [] {
      NonNegativeRowSum(s[1..]);
    }
  }
}
