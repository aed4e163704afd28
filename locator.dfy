/** The table locator: finding a row by its label, reading the twelve monthly
    values of a row, and detecting the current month. */
module Locator {
  import opened JsString
  import opened Tokenizer
  import opened Numeric

  /** `row[i]`: the cell, or undefined past either end. */
  function Cell(row: Row, i: int): (c: Option<string>)
    ensures 0 <= i < |row| ==> c == Some(row[i])
    ensures i < 0 || i >= |row| ==> c == None
  {
    if 0 <= i < |row| then Some(row[i]) else None
  }

  /** `r[1] && r[1].trim().includes(label)`: the row has a non-empty label
      cell whose trimmed text contains `name`. */
  predicate LabelMatches(row: Row, name: string) {
    |row| > 1 && row[1] != "" && Contains(Trim(row[1]), name)
  }

  /** `rows.findIndex((r, i) => i >= from && <label matches>)`: the first index
      at or after `from` whose row's label contains `name`, or -1. */
  function FindIndexFrom(rows: seq<Row>, name: string, from: nat): (k: int)
    ensures k == -1 || from <= k < |rows|
    ensures k >= 0 ==> LabelMatches(rows[k], name)
    ensures forall j {:trigger LabelMatches(rows[j], name)} :: from <= j < |rows| && (k < 0 || j < k) ==> !LabelMatches(rows[j], name)
    decreases |rows| - from
  {
    if from >= |rows| then -1
    else if LabelMatches(rows[from], name) then from
    else FindIndexFrom(rows, name, from + 1)
  }

  /** The index of the first row whose label contains `name`, or -1. */
  function FindRowIndex(rows: seq<Row>, name: string): int {
    FindIndexFrom(rows, name, 0)
  }

  /** `findRow(rows, label)`: the first row whose label contains `name`. */
  function FindRow(rows: seq<Row>, name: string): (r: Option<Row>)
    ensures r.None? ==> forall j :: 0 <= j < |rows| ==> !LabelMatches(rows[j], name)
    ensures r.Some? ==> exists k :: 0 <= k < |rows| && r.value == rows[k] && LabelMatches(rows[k], name)
                                   && forall j :: 0 <= j < k ==> !LabelMatches(rows[j], name)
  {
    var k := FindRowIndex(rows, name);
    if k >= 0 then Some(rows[k]) else None
  }

  /** Twelve numbers coerced from the cells `first` to `first + 11` of a row;
      a cell past the end of the row counts as 0. */
  function MonthsFrom(row: Row, first: nat): (v: seq<real>)
    ensures |v| == 12
    ensures forall m :: 0 <= m < 12 && first + m >= |row| ==> v[m] == 0.0
    ensures forall m :: 0 <= m < 12 && first + m < |row| ==> v[m] == Num(Some(row[first + m]))
  {
    var cells := seq(12, m => Cell(row, first + m));
    assert forall m :: 0 <= m < 12 ==> cells[m] == Cell(row, first + m);
    var v := seq(12, m requires 0 <= m < 12 => Num(cells[m]));
    assert forall m :: 0 <= m < 12 ==> v[m] == Num(cells[m]);
    v
  }

  /** `getMonthlyValues(row)`: twelve numbers read from cells 2 to 13; every
      value is 0 when the row is absent, and a cell past the end of the row
      counts as 0. */
  function MonthlyValues(row: Option<Row>): (v: seq<real>)
    ensures |v| == 12
    ensures row.None? ==> forall m :: 0 <= m < 12 ==> v[m] == 0.0
    ensures row.Some? ==> forall m :: 0 <= m < 12 && m + 2 >= |row.value| ==> v[m] == 0.0
    ensures row.Some? ==> forall m :: 0 <= m < 12 && m + 2 < |row.value| ==> v[m] == Num(Some(row.value[m + 2]))
  {
    if row.None? then seq(12, m => 0.0) else MonthsFrom(row.value, 2)
  }

  /** The index of the last non-zero value, or -1 when every value is zero. */
  function LastNonZero(v: seq<real>): (k: int)
    ensures -1 <= k < |v|
    ensures k >= 0 ==> v[k] != 0.0
    ensures forall j :: k < j < |v| ==> v[j] == 0.0
  {
    if v == [] then -1
    else if v[|v| - 1] != 0.0 then |v| - 1
    else LastNonZero(v[..|v| - 1])
  }

  /** The current month of a row of monthly totals: the last month with a
      non-zero value, or 0 (January) when there is none. */
  function CurrentMonth(v: seq<real>): (m: nat)
    ensures m == 0 || (m < |v| && v[m] != 0.0)
    ensures |v| > 0 ==> m < |v|
    ensures forall j :: m < j < |v| ==> v[j] == 0.0
  {
    var k := LastNonZero(v);
    if k > 0 then k else 0
  }

  /** `detectCurrentMonth(mrrRow)` */
  method DetectCurrentMonth(mrrRow: Option<Row>) returns (idx: nat)
    ensures idx == CurrentMonth(MonthlyValues(mrrRow))
    ensures idx < 12
    ensures idx == 0 || MonthlyValues(mrrRow)[idx] != 0.0
    ensures forall j :: idx < j < 12 ==> MonthlyValues(mrrRow)[j] == 0.0
  {
    var values := MonthlyValues(mrrRow);
    var lastIdx := -1;
    for i := 0 to 12
      invariant lastIdx == LastNonZero(values[..i])
    {
      assert values[..i + 1][..i] == values[..i];
      if values[i] != 0.0 {
        lastIdx := i;
      }
    }
    assert values[..12] == values;
    idx := if lastIdx > 0 then lastIdx else 0;
  }

  // ---------------------------------------------------------------------------
  // Properties of the current month

  /** The last non-zero index is the only index with a non-zero value and only
      zeros after it. */
  lemma {:induction false} LastNonZeroUnique(v: seq<real>, k: int)
    requires -1 <= k < |v|
    requires k >= 0 ==> v[k] != 0.0
    requires forall j :: k < j < |v| ==> v[j] == 0.0
    ensures LastNonZero(v) == k
  {
  }

  /** Appending zero months does not move the current month. */
  lemma {:induction false} TrailingZerosKeepMonth(v: seq<real>, zeros: seq<real>)
    requires forall j :: 0 <= j < |zeros| ==> zeros[j] == 0.0
    ensures LastNonZero(v + zeros) == LastNonZero(v)
    ensures CurrentMonth(v + zeros) == CurrentMonth(v)
  {
    var k := LastNonZero(v);
    var w := v + zeros;
    forall j | k < j < |w| ensures w[j] == 0.0 {
      if j >= |v| {
        assert w[j] == zeros[j - |v|];
      }
    }
    LastNonZeroUnique(w, k);
  }

  /** Altering only the months after the current one, to zero, does not move it. */
  lemma {:induction false} LaterZerosKeepMonth(v: seq<real>, w: seq<real>)
    requires |w| == |v|
    requires forall j :: 0 <= j <= LastNonZero(v) ==> w[j] == v[j]
    requires forall j :: LastNonZero(v) < j < |w| ==> w[j] == 0.0
    ensures CurrentMonth(w) == CurrentMonth(v)
  {
    LastNonZeroUnique(w, LastNonZero(v));
  }

  /** Setting a month after the current one to a non-zero value makes it the
      current month. */
  lemma {:induction false} LaterMonthRaises(v: seq<real>, k: nat, x: real)
    requires LastNonZero(v) < k < |v|
    requires x != 0.0
    ensures CurrentMonth(v[k := x]) == k
  {
    LastNonZeroUnique(v[k := x], k);
  }
}
