/** Choosing the state of one period: the position of the largest value
    among the state columns, the leading year column left out (np.argmax
    over row[1:]). */
module StateSelection {

  /** k is the first position at which s takes its maximum. */
  predicate IsFirstMax(s: seq<real>, k: nat) {
    k < |s|
    && (forall j :: 0 <= j < |s| ==> s[j] <= s[k])
    && (forall j :: 0 <= j < k ==> s[j] < s[k])
  }

  /** np.argmax of a non-empty vector: the maximum, the first occurrence on ties. */
  function ArgMax(s: seq<real>): (k: nat)
    requires |s| > 0
    ensures IsFirstMax(s, k)
  {
    if |s| == 1 then 0
    else
      var k := ArgMax(s[..|s| - 1]);
      if s[|s| - 1] > s[k] then |s| - 1 else k
  }

  /** The first-occurrence maximum is unique, so ArgMax is the only index with that property. */
  lemma ArgMaxCharacterized(s: seq<real>, k: nat)
    requires |s| > 0
    ensures IsFirstMax(s, k) <==> k == ArgMax(s)
  {
  }

  /** The state of a period's row: argmax over the row without its year column.
      A row needs at least one state column; np.argmax raises on the empty slice. */
  function State(row: seq<real>): (k: nat)
    requires |row| >= 2
    ensures k < |row| - 1
    ensures forall j :: 1 <= j < |row| ==> row[j] <= row[1 + k]
    ensures forall j :: 1 <= j < 1 + k ==> row[j] < row[1 + k]
  {
    var k := ArgMax(row[1..]);
    assert forall j :: 1 <= j < |row| ==> row[j] == row[1..][j - 1];
    k
  }

  /** Only the state columns decide the state: the year column never does. */
  lemma StateIgnoresYear(row: seq<real>, other: seq<real>)
    requires |row| >= 2 && |other| == |row|
    requires forall j :: 1 <= j < |row| ==> row[j] == other[j]
    ensures State(row) == State(other)
  {
    assert row[1..] == other[1..];
  }
}
