/** calculate_tpm: pick each period's state, count the transitions between
    consecutive periods into a zero-initialised num_states x num_states array,
    then divide every row by its sum. num_states is the table's full column
    count, the year column included. */
module Estimator {
  import opened StateSelection
  import opened Matrices
  import opened Transitions
  import opened Normalization

  /** The one failure of calculate_tpm: np.argmax raises ValueError on the
      empty slice row[1:] when a table of two or more rows has no state column. */
  datatype Error = ArgMaxOfEmptySlice

  datatype Result<T> = Success(value: T) | Failure(error: Error)

  /** The count array once the loop is done. */
  function Counts(rows: seq<seq<real>>, width: nat): (m: seq<seq<int>>)
    requires Rectangular(rows, width)
    requires |rows| >= 2 ==> width >= 2
    ensures |m| == width
    ensures forall a :: 0 <= a < width ==> |m[a]| == width
    ensures forall a, b :: 0 <= a < width && 0 <= b < width ==> 0 <= m[a][b] <= Pairs(|rows|)
  {
    CountsAfter(rows, width, Pairs(|rows|))
  }

  /** What calculate_tpm returns for a table of the given rows and column count. */
  function Tpm(rows: seq<seq<real>>, width: nat): (r: Result<seq<seq<Ratio>>>)
    requires Rectangular(rows, width)
    ensures r.Failure? <==> |rows| >= 2 && width < 2
    ensures r.Success? ==>
      |r.value| == width && forall a :: 0 <= a < width ==> |r.value[a]| == width
  {
    if |rows| >= 2 && width < 2 then Failure(ArgMaxOfEmptySlice)
    else Success(Normalize(Counts(rows, width)))
  }

  /** The estimator itself. `width` is data.shape[1], which the table has even
      when it has no rows. The result is square with that side; it fails only
      where np.argmax is handed an empty slice. */
  method CalculateTpm(rows: seq<seq<real>>, width: nat) returns (r: Result<seq<seq<Ratio>>>)
    requires Rectangular(rows, width)
    ensures r == Tpm(rows, width)
    ensures r.Failure? <==> |rows| >= 2 && width < 2
    ensures r.Success? ==>
      |r.value| == width && forall a :: 0 <= a < width ==> |r.value[a]| == width
  {
    var counts := new int[width, width]((a, b) => 0);
    for i := 0 to Pairs(|rows|)
      invariant i > 0 ==> width >= 2
      invariant forall a, b :: 0 <= a < width && 0 <= b < width ==>
        counts[a, b] == Count(rows, i, a, b)
    {
      if |rows[i]| < 2 || |rows[i + 1]| < 2 {
        return Failure(ArgMaxOfEmptySlice);
      }
      var current := State(rows[i]);
      var next := State(rows[i + 1]);
      counts[current, next] := counts[current, next] + 1;
    }
    var m := Snapshot(counts);
    assert m == Counts(rows, width) by {
      forall a | 0 <= a < width
        ensures m[a] == Counts(rows, width)[a]
      {
      }
    }
    r := Success(Normalize(m));
  }

  /** The contents of a two-dimensional array as a sequence of rows. */
  function Snapshot(counts: array2<int>): (m: seq<seq<int>>)
    reads counts
    ensures |m| == counts.Length0
    ensures forall a :: 0 <= a < counts.Length0 ==>
      |m[a]| == counts.Length1
      && forall b :: 0 <= b < counts.Length1 ==> m[a][b] == counts[a, b]
  {
    seq(counts.Length0, a reads counts requires 0 <= a < counts.Length0 =>
      seq(counts.Length1, b reads counts requires 0 <= b < counts.Length1 => counts[a, b]))
  }

  /** The count array is width x width and entry (a, b) is the number of
      periods t, t + 1 whose states are a and b. */
  lemma CountsAreTransitionCounts(rows: seq<seq<real>>, width: nat, a: nat, b: nat)
    requires Rectangular(rows, width)
    requires |rows| >= 2 ==> width >= 2
    requires a < width && b < width
    ensures |Counts(rows, width)| == width && |Counts(rows, width)[a]| == width
    ensures Counts(rows, width)[a][b]
      == |set t | 0 <= t < Pairs(|rows|) && Moves(rows, t, a, b)|
  {
    CountIsCardinality(rows, Pairs(|rows|), a, b);
  }

  /** All counts together make T - 1 for T rows (T >= 1), and a table of at
      most one row leaves the array all zero. */
  lemma CountsTotal(rows: seq<seq<real>>, width: nat)
    requires Rectangular(rows, width)
    requires |rows| >= 2 ==> width >= 2
    ensures |rows| >= 1 ==> MatrixSum(Counts(rows, width)) == |rows| - 1
    ensures |rows| <= 1 ==>
      forall a, b :: 0 <= a < width && 0 <= b < width ==> Counts(rows, width)[a][b] == 0
  {
    CountsAfterTotal(rows, width, Pairs(|rows|));
  }

  /** The year column widens the array by one state that is never recorded:
      the last row and the last column are all zero. */
  lemma CountsLastRowAndColumnZero(rows: seq<seq<real>>, width: nat, c: nat)
    requires Rectangular(rows, width)
    requires |rows| >= 2 ==> width >= 2
    requires 1 <= width && c < width
    ensures Counts(rows, width)[width - 1][c] == 0
    ensures Counts(rows, width)[c][width - 1] == 0
  {
    LastStateNeverCounted(rows, width, Pairs(|rows|), c);
  }

  /** Row a of the result: when state a starts no pair, the row is 0 / 0
      throughout (nan); otherwise entry b is the share of the pairs leaving a
      that go to b, in [0, 1], and the row sums to exactly 1. */
  lemma TpmRow(rows: seq<seq<real>>, width: nat, a: nat)
    requires Rectangular(rows, width)
    requires Tpm(rows, width).Success?
    requires a < width
    ensures OutCount(rows, Pairs(|rows|), a)
      == |set t | 0 <= t < Pairs(|rows|) && State(rows[t]) == a|
    ensures OutCount(rows, Pairs(|rows|), a) == 0 ==>
      (forall b :: 0 <= b < width ==> Tpm(rows, width).value[a][b] == Undefined)
      && RatioSum(Tpm(rows, width).value[a]) == Undefined
    ensures OutCount(rows, Pairs(|rows|), a) > 0 ==>
      (forall b :: 0 <= b < width ==>
        Tpm(rows, width).value[a][b]
          == Finite(Count(rows, Pairs(|rows|), a, b) as real / OutCount(rows, Pairs(|rows|), a) as real)
        && 0.0 <= Tpm(rows, width).value[a][b].value <= 1.0)
      && RatioSum(Tpm(rows, width).value[a]) == Finite(1.0)
  {
    var k := Pairs(|rows|);
    var row := Counts(rows, width)[a];
    OutCountIsCardinality(rows, k, a);
    RowSumIsOutCount(rows, width, k, a);
    assert Tpm(rows, width).value[a] == NormalizeRow(row);
    if OutCount(rows, k, a) == 0 {
      NormalizedRowIsUndefined(row);
    } else {
      NormalizedRowIsDistribution(row);
    }
  }

  /** The state added by the year column never starts a pair, so the last row
      of every result is nan throughout. */
  lemma TpmLastRowUndefined(rows: seq<seq<real>>, width: nat, b: nat)
    requires Rectangular(rows, width)
    requires Tpm(rows, width).Success?
    requires b < width
    ensures Tpm(rows, width).value[width - 1][b] == Undefined
  {
    LastStateNeverCounted(rows, width, Pairs(|rows|), 0);
    TpmRow(rows, width, width - 1);
  }

  /** Changing the year column of any row changes nothing in the result. */
  lemma TpmIgnoresYear(rows: seq<seq<real>>, other: seq<seq<real>>, width: nat)
    requires Rectangular(rows, width) && Rectangular(other, width)
    requires |other| == |rows|
    requires forall t, j :: 0 <= t < |rows| && 1 <= j < width ==> rows[t][j] == other[t][j]
    ensures Tpm(rows, width) == Tpm(other, width)
  {
    if !(|rows| >= 2 && width < 2) {
      var k := Pairs(|rows|);
      forall a | 0 <= a < width
        ensures Counts(rows, width)[a] == Counts(other, width)[a]
      {
        forall b | 0 <= b < width
          ensures Counts(rows, width)[a][b] == Counts(other, width)[a][b]
        {
          CountsIgnoreYear(rows, other, k, a, b);
        }
      }
      assert Counts(rows, width) == Counts(other, width);
    }
  }

  /** Three years over two markets: a tie in 2000 (won by the first market),
      then the first and then the second market ahead. */
  const EXAMPLE: seq<seq<real>> := [[2000.0, 0.5, 0.5], [2001.0, 0.7, 0.3], [2002.0, 0.2, 0.8]]

  /** The example's states are 0, 0, 1: the tie goes to the lower index. */
  lemma ExampleStates()
    ensures State(EXAMPLE[0]) == 0 && State(EXAMPLE[1]) == 0 && State(EXAMPLE[2]) == 1
  {
    ArgMaxCharacterized(EXAMPLE[0][1..], 0);
    ArgMaxCharacterized(EXAMPLE[1][1..], 0);
    ArgMaxCharacterized(EXAMPLE[2][1..], 1);
  }

  /** The example's counts, in a 3 x 3 array for its three columns. */
  lemma ExampleCounts()
    ensures Counts(EXAMPLE, 3) == [[1, 1, 0], [0, 0, 0], [0, 0, 0]]
  {
    ExampleStates();
    var zero := CountsAfter(EXAMPLE, 3, 0);
    assert zero[0] == [0, 0, 0];
    assert zero[1] == [0, 0, 0];
    assert zero[2] == [0, 0, 0];
    CountsAfterStep(EXAMPLE, 3, 1);
    var one := CountsAfter(EXAMPLE, 3, 1);
    assert one[0] == [1, 0, 0];
    assert one[1] == [0, 0, 0];
    assert one[2] == [0, 0, 0];
    CountsAfterStep(EXAMPLE, 3, 2);
    var two := CountsAfter(EXAMPLE, 3, 2);
    assert two[0] == [1, 1, 0];
    assert two[1] == [0, 0, 0];
    assert two[2] == [0, 0, 0];
  }

  /** The example's result: the second market, never ahead before the last
      year, and the year column's state both get nan rows. */
  lemma WorkedExample()
    ensures Tpm(EXAMPLE, 3)
      == Success([[Finite(0.5), Finite(0.5), Finite(0.0)],
                  [Undefined, Undefined, Undefined],
                  [Undefined, Undefined, Undefined]])
  {
    ExampleCounts();
    var m := Counts(EXAMPLE, 3);
    assert NormalizeRow([1, 1, 0]) == [Finite(0.5), Finite(0.5), Finite(0.0)];
    assert NormalizeRow([0, 0, 0]) == [Undefined, Undefined, Undefined];
    assert Normalize(m) == [NormalizeRow(m[0]), NormalizeRow(m[1]), NormalizeRow(m[2])];
  }
}
