/** Row normalization of the count matrix: every entry is divided by the sum
    of its row, the row sums being broadcast across the columns. There is no guard for a row
    that sums to zero; NumPy then divides 0 by 0 and yields nan, modelled here
    as Undefined. Arithmetic is exact (real), not IEEE double. */
module Normalization {
  import opened Matrices

  /** One entry of the result: a real number, or what NumPy reports as nan
      (or inf) after a division by zero. */
  datatype Ratio = Finite(value: real) | Undefined

  /** Elementwise division as NumPy does it, with the division by zero left undefined. */
  function Divide(x: real, y: real): (r: Ratio)
    ensures r.Undefined? <==> y == 0.0
    ensures r.Finite? ==> r.value * y == x
  {
    if y == 0.0 then Undefined else Finite(x / y)
  }

  /** Addition in which an undefined operand makes the sum undefined, as nan does. */
  function Add(x: Ratio, y: Ratio): Ratio {
    if x.Finite? && y.Finite? then Finite(x.value + y.value) else Undefined
  }

  /** The sum of a row of ratios; undefined as soon as one entry is. */
  function RatioSum(s: seq<Ratio>): Ratio {
    if s == [] then Finite(0.0) else Add(s[0], RatioSum(s[1..]))
  }

  /** Every entry of s divided by d. */
  function Scaled(s: seq<int>, d: real): (r: seq<Ratio>)
    ensures |r| == |s|
  {
    seq(|s|, j requires 0 <= j < |s| => Divide(s[j] as real, d))
  }

  /** One row divided by its own sum. */
  function NormalizeRow(row: seq<int>): (r: seq<Ratio>)
    ensures |r| == |row|
    ensures forall j :: 0 <= j < |row| ==> (r[j] == Undefined <==> RowSum(row) == 0)
  {
    Scaled(row, RowSum(row) as real)
  }

  /** The whole matrix, row by row. */
  function Normalize(m: seq<seq<int>>): (r: seq<seq<Ratio>>)
    ensures |r| == |m|
    ensures forall i :: 0 <= i < |m| ==> |r[i]| == |m[i]|
  {
    seq(|m|, i requires 0 <= i < |m| => NormalizeRow(m[i]))
  }

  /** Dividing by a non-zero d distributes over the sum. */
  lemma {:induction false} ScaledSum(s: seq<int>, d: real)
    requires d != 0.0
    ensures RatioSum(Scaled(s, d)) == Finite(RowSum(s) as real / d)
  {
    if s != [] {
      assert Scaled(s, d)[1..] == Scaled(s[1..], d);
      ScaledSum(s[1..], d);
      var x, y := s[0] as real, RowSum(s[1..]) as real;
      assert RowSum(s) as real == x + y;
      assert x / d + y / d == (x + y) / d;
    }
  }

  /** A row of non-negative counts with a positive sum becomes a probability
      distribution: entry j is the row's share j, in [0, 1], and the entries
      sum to exactly 1. */
  lemma NormalizedRowIsDistribution(row: seq<int>)
    requires forall j :: 0 <= j < |row| ==> row[j] >= 0
    requires RowSum(row) > 0
    ensures forall j :: 0 <= j < |row| ==>
      NormalizeRow(row)[j] == Finite(row[j] as real / RowSum(row) as real)
      && 0.0 <= NormalizeRow(row)[j].value <= 1.0
    ensures RatioSum(NormalizeRow(row)) == Finite(1.0)
  {
    forall j | 0 <= j < |row|
      ensures NormalizeRow(row)[j] == Finite(row[j] as real / RowSum(row) as real)
      ensures 0.0 <= NormalizeRow(row)[j].value <= 1.0
    {
      NormalizedEntry(row, j);
    }
    NormalizedRowSumsToOne(row);
  }

  /** A row with a positive sum, divided by that sum, sums to exactly 1. */
  lemma NormalizedRowSumsToOne(row: seq<int>)
    requires RowSum(row) > 0
    ensures RatioSum(NormalizeRow(row)) == Finite(1.0)
  {
    var total := RowSum(row) as real;
    ScaledSum(row, total);
    assert total / total == 1.0;
  }

  /** One entry of a normalized non-negative row with a positive sum: its share, in [0, 1]. */
  lemma NormalizedEntry(row: seq<int>, j: nat)
    requires forall i :: 0 <= i < |row| ==> row[i] >= 0
    requires RowSum(row) > 0 && j < |row|
    ensures NormalizeRow(row)[j] == Finite(row[j] as real / RowSum(row) as real)
    ensures 0.0 <= NormalizeRow(row)[j].value <= 1.0
  {
    EntryAtMostRowSum(row, j);
    DivideAtMostOne(row[j] as real, RowSum(row) as real);
  }

  /** A row that sums to zero is divided 0 / 0 throughout: every entry is
      undefined, and so is its sum. */
  lemma NormalizedRowIsUndefined(row: seq<int>)
    requires RowSum(row) == 0
    ensures forall j :: 0 <= j < |row| ==> NormalizeRow(row)[j] == Undefined
    ensures |row| > 0 ==> RatioSum(NormalizeRow(row)) == Undefined
  {
  }

  /** 0 <= x <= y with y > 0 gives 0 <= x / y <= 1. */
  lemma DivideAtMostOne(x: real, y: real)
    requires 0.0 <= x <= y && y > 0.0
    ensures 0.0 <= x / y <= 1.0
  {
    assert x / y * y == x;
  }
}
