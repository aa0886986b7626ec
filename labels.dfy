/** The column labels of the output table: `Market_1` .. `Market_n`, one per
    column of the matrix, written with Python's decimal rendering of an int. */
module Labels {

  const PREFIX: string := "Market_"

  /** The character of a decimal digit. */
  function DigitChar(d: nat): (c: char)
    requires d < 10
    ensures '0' <= c <= '9' && (c as int) - ('0' as int) == d
  {
    ['0', '1', '2', '3', '4', '5', '6', '7', '8', '9'][d]
  }

  /** The decimal rendering of n, as str(n) or f'{n}' gives it. */
  function DecimalString(n: nat): (s: string)
    ensures |s| > 0
    ensures forall i :: 0 <= i < |s| ==> '0' <= s[i] <= '9'
    ensures |s| > 1 ==> s[0] != '0'
  {
    if n < 10 then [DigitChar(n)] else DecimalString(n / 10) + [DigitChar(n % 10)]
  }

  /** Reading a string of decimal digits back as a number. */
  function ParseDecimal(s: string): nat
    requires forall i :: 0 <= i < |s| ==> '0' <= s[i] <= '9'
  {
    if s == [] then 0
    else 10 * ParseDecimal(s[..|s| - 1]) + ((s[|s| - 1] as int) - ('0' as int))
  }

  /** Reading back the decimal rendering gives the number again. */
  lemma {:induction false} ParseDecimalString(n: nat)
    ensures ParseDecimal(DecimalString(n)) == n
  {
    var s := DecimalString(n);
    if n >= 10 {
      assert s[..|s| - 1] == DecimalString(n / 10);
      ParseDecimalString(n / 10);
    }
  }

  /** Different numbers have different renderings. */
  lemma DecimalStringInjective(m: nat, n: nat)
    requires m != n
    ensures DecimalString(m) != DecimalString(n)
  {
    ParseDecimalString(m);
    ParseDecimalString(n);
  }

  /** The label of column i (counted from 0): `Market_{i+1}`. */
  function ColumnLabel(i: nat): string {
    PREFIX + DecimalString(i + 1)
  }

  /** The labels of an n-column matrix, one per column index i from 0, each
      the prefix followed by the number i + 1. */
  function ColumnLabels(n: nat): (labels: seq<string>)
    ensures |labels| == n
  {
    seq(n, i requires 0 <= i < n => ColumnLabel(i))
  }

  /** There is one label per column, each made of the prefix and the column's
      1-based number, and no two columns share a label. */
  lemma ColumnLabelsUnique(n: nat)
    ensures forall i :: 0 <= i < n ==>
      ColumnLabels(n)[i][..|PREFIX|] == PREFIX
      && ParseDecimal(ColumnLabels(n)[i][|PREFIX|..]) == i + 1
    ensures forall i, j :: 0 <= i < j < n ==> ColumnLabels(n)[i] != ColumnLabels(n)[j]
  {
    var labels := ColumnLabels(n);
    forall i | 0 <= i < n
      ensures labels[i][..|PREFIX|] == PREFIX
      ensures ParseDecimal(labels[i][|PREFIX|..]) == i + 1
    {
      assert labels[i][|PREFIX|..] == DecimalString(i + 1);
      ParseDecimalString(i + 1);
    }
    forall i, j | 0 <= i < j < n
      ensures labels[i] != labels[j]
    {
      DecimalStringInjective(i + 1, j + 1);
      assert labels[i][|PREFIX|..] == DecimalString(i + 1);
      assert labels[j][|PREFIX|..] == DecimalString(j + 1);
    }
  }
}
