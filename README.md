# Transition probability matrix estimator, modelled in Dafny

This project models `calculate_tpm` of the `tpm-markov` Streamlit app. The
function estimates a transition probability matrix (TPM) from a table of
per-period rows. Column 0 is the period (year) and the other columns hold
one value per state (market). It does three things:

1. **State of a period.** The state is NumPy's `argmax` over the row with the
   year column dropped. Ties go to the lowest index.
2. **Counting.** A zero-initialised square array has side `num_states`. For
   every consecutive pair of periods, the entry (state now, state next) goes
   up by one.
3. **Normalization.** Every row of the array is divided by its row sum.

The model keeps two quirks of the code as they are:

- `num_states` is the table's full column count, so it includes the year
  column. For N state columns the array is (N+1)×(N+1). The extra index N can
  never be recorded. Its row and column stay zero, and its TPM row is always
  nan.
- No row is guarded against a zero sum. Such a row is divided 0/0, which NumPy
  turns into nan. The model writes this as `Ratio.Undefined`, and any sum
  involving it is undefined too.

A table of zero or one rows is not an error. The loop never runs, so the
result is a `num_states`×`num_states` matrix of nan. The only failure is
`np.argmax` raising on an empty slice, which happens when the table has two
or more rows but fewer than two columns. It is modelled as
`Failure(ArgMaxOfEmptySlice)`.

Modules, one per step of the function:

- `StateSelection` (state_selection.dfy): first-occurrence argmax and the state of a row.
- `Matrices` (matrices.dfy): row and matrix sums, and the `+= 1` update.
- `Transitions` (transitions.dfy): the counts after k loop iterations, and their properties.
- `Normalization` (normalization.dfy): element-wise division by row sums, with nan as `Undefined`.
- `Labels` (labels.dfy): the output column labels `Market_1` .. `Market_n`.
- `Estimator` (estimator.dfy): `CalculateTpm`, whose loop increments an `array2<int>` in place. It is proved equal to the function `Tpm`, and the lemmas about `Tpm` are proved beside it.

`calculate_tpm` takes the table and nothing else. It has no option for a
trailing total column and no alternative output mode: it always returns the
row-normalized counts described above.

## Model

| member | source | states |
|---|---|---|
| StateSelection.ArgMax | streamlit_app.py:17-18 | the result is a position of the maximum of a non-empty vector, and every earlier value is strictly smaller (first occurrence wins ties) |
| StateSelection.ArgMaxCharacterized | streamlit_app.py:17-18 | an index is the first-occurrence maximum exactly when it equals ArgMax, so the tie rule fixes the answer |
| StateSelection.State | streamlit_app.py:17-18 | for a row of at least two columns, the state k indexes the state columns (k < width − 1), row[1+k] is at least every state value, and every state value before it is smaller |
| StateSelection.StateIgnoresYear | streamlit_app.py:17-18 | two rows that agree on columns 1.. have the same state, whatever their year column holds |
| Matrices.Bump | streamlit_app.py:19 | `m[a, b] += 1` changes entry (a, b) by one and leaves every other entry unchanged |
| Matrices.MatrixSumBump | streamlit_app.py:19 | one increment raises the sum of the whole matrix by exactly one |
| Transitions.CountAtMostK | streamlit_app.py:16-19 | after k iterations entry (a, b) is at most k |
| Transitions.OutCount | streamlit_app.py:16-19 | at most k of the first k pairs start in any one state |
| Transitions.CountAtMostOutCount | streamlit_app.py:16-19 | no more pairs go from a to b than start in a |
| Transitions.CountsAtMostOutCounts | streamlit_app.py:16-19 | the same bound for every pair of states at once |
| Transitions.CountsAfter | streamlit_app.py:13-19 | after k iterations the counts form a width×width matrix whose entries lie in [0, k] |
| Transitions.CountIsCardinality | streamlit_app.py:16-19 | after k iterations, entry (a, b) equals the number of t < k with state a at t and state b at t + 1 |
| Transitions.OutCountIsCardinality | streamlit_app.py:16-19 | the number of pairs leaving state a equals the number of t < k whose state is a |
| Transitions.CountsAfterStep | streamlit_app.py:16-19 | iteration k adds one to exactly the entry (state of row k − 1, state of row k), and both indices are inside the array |
| Transitions.CountsAfterTotal | streamlit_app.py:16-19 | after k iterations the counts add up to k |
| Transitions.RowSumIsOutCount | streamlit_app.py:16-19 | row a of the counts sums to the number of pairs that start in state a |
| Transitions.LastStateNeverCounted | streamlit_app.py:10-19 | index width − 1, added by counting the year column, never starts or ends a counted pair |
| Transitions.CountsIgnoreYear | streamlit_app.py:16-19 | tables that agree on every state column give equal counts, also for the pairs leaving each state |
| Normalization.Divide | streamlit_app.py:22 | division is undefined (nan) exactly when the divisor is zero; otherwise the quotient times the divisor gives back the dividend |
| Normalization.ScaledSum | streamlit_app.py:22 | dividing each entry by a non-zero d gives entries whose sum is the row sum divided by d |
| Normalization.NormalizedRowIsDistribution | streamlit_app.py:22 | a non-negative row with a positive sum becomes entries row[j] / sum, each in [0, 1], summing to exactly 1 |
| Normalization.NormalizedEntry | streamlit_app.py:22 | entry j of a normalized non-negative row with a positive sum is row[j] / sum, which lies in [0, 1] |
| Normalization.NormalizedRowSumsToOne | streamlit_app.py:22 | a row with a positive sum, once normalized, sums to exactly 1 |
| Normalization.NormalizedRowIsUndefined | streamlit_app.py:22 | a row summing to zero becomes undefined in every entry, and its sum is undefined |
| Normalization.NormalizeRow | streamlit_app.py:22 | a normalized row keeps its length, and an entry is undefined (nan) exactly when the row sums to zero |
| Normalization.Normalize | streamlit_app.py:22 | normalization keeps the shape of the matrix |
| Labels.DecimalString | streamlit_app.py:44 | the decimal rendering of i + 1 is non-empty, all digits, and has no leading zero |
| Labels.ParseDecimalString | streamlit_app.py:44 | reading the rendering back gives the number again |
| Labels.DecimalStringInjective | streamlit_app.py:44 | different numbers render differently |
| Labels.ColumnLabels | streamlit_app.py:44 | there is one label per column of the matrix |
| Labels.ColumnLabelsUnique | streamlit_app.py:44 | label i is `Market_` followed by the number i + 1, and no two columns share a label |
| Estimator.Counts | streamlit_app.py:10-19 | the count array is width×width, the year column included, with every entry between 0 and the number of consecutive pairs |
| Estimator.Tpm | streamlit_app.py:5-24 | the estimate fails exactly when there are two or more rows and fewer than two columns; otherwise it is a width×width matrix |
| Estimator.CalculateTpm | streamlit_app.py:5-24 | the loop over a zero-initialised width×width array returns Tpm(rows, width): it fails exactly when there are two or more rows and fewer than two columns, and otherwise the result is width×width |
| Estimator.CountsAreTransitionCounts | streamlit_app.py:10-19 | the final array is width×width (the year column included) and entry (a, b) is the number of consecutive periods going from state a to state b |
| Estimator.CountsTotal | streamlit_app.py:16-19 | for T ≥ 1 rows all counts add up to T − 1, and for T ≤ 1 every count is zero |
| Estimator.CountsLastRowAndColumnZero | streamlit_app.py:10-19 | the last row and the last column of the count array are all zero |
| Estimator.TpmRow | streamlit_app.py:16-22 | row a is nan throughout, with a nan sum, when no pair starts in a; otherwise entry b is count(a, b) / pairs leaving a, in [0, 1], and the row sums to exactly 1 |
| Estimator.TpmLastRowUndefined | streamlit_app.py:10-22 | the last row of every successful result is nan throughout |
| Estimator.TpmIgnoresYear | streamlit_app.py:17-22 | changing the year column of any rows leaves the result, failure included, unchanged |
| Estimator.ExampleStates | streamlit_app.py:17-18 | in the three-year example the tie 0.5 / 0.5 goes to state 0, giving states 0, 0, 1 |
| Estimator.ExampleCounts | streamlit_app.py:13-19 | the example's counts form the 3×3 array [[1, 1, 0], [0, 0, 0], [0, 0, 0]] |
| Estimator.WorkedExample | streamlit_app.py:5-24 | the example's result is [[0.5, 0.5, 0], nan row, nan row] |

## Left out

- `main` (streamlit_app.py:26-55) is not modelled. It covers the Streamlit page, file upload, CSV and Excel parsing through pandas, the preview, CSV encoding and the download button, all of which are I/O and foreign library calls. Only its label scheme (line 44) is modelled, as `Labels.ColumnLabels`. The DataFrame built from the TPM is not modelled.
- `df.to_numpy()` and pandas dtype handling (line 7) are not modelled. The input is a list of equally long rows of exact reals, plus the column count `width`, which the table has even when it has no rows.
- IEEE double arithmetic is not modelled: values and quotients are exact reals. NaN values in the input are not modelled either, so `np.argmax` returning the first NaN cannot arise.
- Normalization.Divide: x / 0 with x ≠ 0 is inf in NumPy but `Undefined` here, the same as 0 / 0 (nan). The count array never has a negative entry, so a zero-sum row is all zeros and the difference never shows.
- Counts are `int`, while NumPy keeps them as float64. The two agree for counts below 2^53.
- NumPy's `RuntimeWarning: invalid value encountered in divide`, printed when a zero-sum row is divided (line 22), is not modelled. It is a side effect on the console and does not change the result.
