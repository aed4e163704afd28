/** The record assembler: the performance snapshot of the performance sheet and
    the partner records of a partner sheet. */
module Records {
  import opened JsString
  import opened Tokenizer
  import opened Numeric
  import opened Locator

  // ---------------------------------------------------------------------------
  // parsePerformance

  /** A channel's closed ARR, closed MRR and target MRR by month. */
  datatype Channel = Channel(closedARR: seq<real>, closedMRR: seq<real>, targetMRR: seq<real>)

  datatype Performance = Performance(
    currentMonthIdx: nat,
    totalClosedARR: seq<real>,
    totalClosedMRR: seq<real>,
    totalTargetMRR: seq<real>,
    companyGrowthMRR: seq<real>,
    companyGrowthPct: seq<real>,
    referrals: Channel,
    resellers: Channel,
    agencies: Channel,
    refTargetPct: real,
    resTargetPct: real,
    agTargetPct: real,
    refTargetAnnual: real,
    resTargetAnnual: real,
    agTargetAnnual: real)

  predicate ChannelShaped(c: Channel) {
    |c.closedARR| == 12 && |c.closedMRR| == 12 && |c.targetMRR| == 12
  }

  /** Every monthly sequence of the snapshot has exactly twelve values. */
  predicate Shaped(p: Performance) {
    && |p.totalClosedARR| == 12 && |p.totalClosedMRR| == 12 && |p.totalTargetMRR| == 12
    && |p.companyGrowthMRR| == 12 && |p.companyGrowthPct| == 12
    && ChannelShaped(p.referrals) && ChannelShaped(p.resellers) && ChannelShaped(p.agencies)
  }

  /** The rows from the first one whose label contains `header` to the end of
      the sheet (not to the next section), or none when no label matches. */
  function Section(rows: seq<Row>, header: string): seq<Row> {
    var k := FindRowIndex(rows, header);
    if k >= 0 then rows[k..] else []
  }

  /** `v` is the twelve monthly values of the first row at or after `from`
      whose label contains `name` (`num(row[m + 2])` for month `m`), or twelve
      zeros when no row there matches. */
  predicate SeriesOf(v: seq<real>, rows: seq<Row>, name: string, from: nat) {
    var k := FindIndexFrom(rows, name, from);
    |v| == 12 && forall m :: 0 <= m < 12 ==> v[m] == (if k >= 0 then Num(Cell(rows[k], m + 2)) else 0.0)
  }

  /** Twelve zero months. */
  predicate Zeros(v: seq<real>) {
    |v| == 12 && forall m :: 0 <= m < 12 ==> v[m] == 0.0
  }

  /** The three series of a channel: read from the first matching rows at or
      after its section header, or all zero when the header is missing. */
  predicate ChannelSeries(c: Channel, rows: seq<Row>, header: string) {
    var h := FindRowIndex(rows, header);
    if h < 0 then Zeros(c.closedARR) && Zeros(c.closedMRR) && Zeros(c.targetMRR)
    else
      && SeriesOf(c.closedARR, rows, "Deals Closed ARR", h)
      && SeriesOf(c.closedMRR, rows, "Deals Closed MRR", h)
      && SeriesOf(c.targetMRR, rows, "Monthly Target", h)
  }

  /** The monthly values of the first matching row at or after `from`. */
  lemma {:induction false} FoundSeries(rows: seq<Row>, name: string, from: nat, row: Option<Row>)
    requires var k := FindIndexFrom(rows, name, from); row == if k >= 0 then Some(rows[k]) else None
    ensures SeriesOf(MonthlyValues(row), rows, name, from)
  {
  }

  /** Looking a label up in the rows from `h` on finds the first match at or
      after `h` in the whole sheet. */
  lemma {:induction false} SectionFind(rows: seq<Row>, h: nat, name: string)
    requires h <= |rows|
    ensures var j := FindIndexFrom(rows, name, h);
      FindRow(rows[h..], name) == if j >= 0 then Some(rows[j]) else None
  {
    var j := FindIndexFrom(rows, name, h);
    var section := rows[h..];
    if j >= 0 {
      forall i | 0 <= i < j - h ensures !LabelMatches(section[i], name) {
        assert section[i] == rows[h + i];
      }
      assert section[j - h] == rows[j];
      FindIndexFromUnique(section, name, 0, j - h);
    }
  }

  /** A channel's three monthly rows, looked up inside its section. */
  function ChannelOf(rows: seq<Row>, header: string): (c: Channel)
    ensures ChannelShaped(c)
    ensures ChannelSeries(c, rows, header)
  {
    var section := Section(rows, header);
    var h := FindRowIndex(rows, header);
    var c := Channel(
      MonthlyValues(FindRow(section, "Deals Closed ARR")),
      MonthlyValues(FindRow(section, "Deals Closed MRR")),
      MonthlyValues(FindRow(section, "Monthly Target")));
    if h >= 0 then
      SectionFind(rows, h, "Deals Closed ARR");
      SectionFind(rows, h, "Deals Closed MRR");
      SectionFind(rows, h, "Monthly Target");
      FoundSeries(rows, "Deals Closed ARR", h, FindRow(section, "Deals Closed ARR"));
      FoundSeries(rows, "Deals Closed MRR", h, FindRow(section, "Deals Closed MRR"));
      FoundSeries(rows, "Monthly Target", h, FindRow(section, "Monthly Target"));
      c
    else
      c
  }

  /** `getMonthlyValues(findRow(rows, name))`: the monthly values of the first
      row whose label contains `name`. */
  function TotalSeries(rows: seq<Row>, name: string): (v: seq<real>)
    ensures SeriesOf(v, rows, name, 0)
  {
    FoundSeries(rows, name, 0, FindRow(rows, name));
    MonthlyValues(FindRow(rows, name))
  }

  /** `rows[r] ? num(rows[r][14]) : fallback`: a summary cell at a fixed position
      in column 14; the fallback applies only when the row itself is missing. */
  function SummaryCell(rows: seq<Row>, r: nat, fallback: real): real {
    if r < |rows| then Num(Cell(rows[r], 14)) else fallback
  }

  /** `parsePerformance(rows)` */
  function ParsePerformance(rows: seq<Row>): (p: Performance)
    ensures Shaped(p)
    ensures SeriesOf(p.totalClosedARR, rows, "Total Closed ARR", 0)
    ensures SeriesOf(p.totalClosedMRR, rows, "Total Closed MRR", 0)
    ensures SeriesOf(p.totalTargetMRR, rows, "Total Target MRR", 0)
    ensures SeriesOf(p.companyGrowthMRR, rows, "Company Growth Target MRR", 0)
    ensures SeriesOf(p.companyGrowthPct, rows, "Company Growth Target %", 0)
    ensures ChannelSeries(p.referrals, rows, "Referrals Performance")
    ensures ChannelSeries(p.resellers, rows, "Resellers Performance")
    ensures ChannelSeries(p.agencies, rows, "Agencies Performance")
    ensures p.currentMonthIdx < 12
    ensures p.currentMonthIdx == 0 || p.totalClosedMRR[p.currentMonthIdx] != 0.0
    ensures forall j :: p.currentMonthIdx < j < 12 ==> p.totalClosedMRR[j] == 0.0
    ensures |rows| > 19 ==> p.refTargetPct == Num(Cell(rows[19], 14))
    ensures |rows| > 20 ==> p.refTargetAnnual == Num(Cell(rows[20], 14))
    ensures |rows| > 21 ==> p.resTargetPct == Num(Cell(rows[21], 14))
    ensures |rows| > 22 ==> p.resTargetAnnual == Num(Cell(rows[22], 14))
    ensures |rows| > 23 ==> p.agTargetPct == Num(Cell(rows[23], 14))
    ensures |rows| > 24 ==> p.agTargetAnnual == Num(Cell(rows[24], 14))
    ensures |rows| <= 19 ==> p.refTargetPct == 0.3
    ensures |rows| <= 20 ==> p.refTargetAnnual == 0.0
    ensures |rows| <= 21 ==> p.resTargetPct == 0.6
    ensures |rows| <= 22 ==> p.resTargetAnnual == 0.0
    ensures |rows| <= 23 ==> p.agTargetPct == 0.1
    ensures |rows| <= 24 ==> p.agTargetAnnual == 0.0
    ensures |rows| > 19 && |rows[19]| <= 14 ==> p.refTargetPct == 0.0
    ensures |rows| > 21 && |rows[21]| <= 14 ==> p.resTargetPct == 0.0
    ensures |rows| > 23 && |rows[23]| <= 14 ==> p.agTargetPct == 0.0
  {
    var totalClosedMRR := TotalSeries(rows, "Total Closed MRR");
    Performance(
      CurrentMonth(totalClosedMRR),
      TotalSeries(rows, "Total Closed ARR"),
      totalClosedMRR,
      TotalSeries(rows, "Total Target MRR"),
      TotalSeries(rows, "Company Growth Target MRR"),
      TotalSeries(rows, "Company Growth Target %"),
      ChannelOf(rows, "Referrals Performance"),
      ChannelOf(rows, "Resellers Performance"),
      ChannelOf(rows, "Agencies Performance"),
      SummaryCell(rows, 19, 0.3),
      SummaryCell(rows, 21, 0.6),
      SummaryCell(rows, 23, 0.1),
      SummaryCell(rows, 20, 0.0),
      SummaryCell(rows, 22, 0.0),
      SummaryCell(rows, 24, 0.0))
  }

  /** The first index at or after `from` whose row matches is the only matching
      index there with no match before it. */
  lemma {:induction false} FindIndexFromUnique(rows: seq<Row>, name: string, from: nat, j: nat)
    requires from <= j < |rows|
    requires LabelMatches(rows[j], name)
    requires forall i :: from <= i < j ==> !LabelMatches(rows[i], name)
    ensures FindIndexFrom(rows, name, from) == j
  {
  }

  /** A section runs to the end of the sheet: a row label looked up inside a
      channel's section is found at its first occurrence at or after the
      section header, even when that occurrence belongs to a later section. */
  lemma {:induction false} SectionExtendsToEnd(rows: seq<Row>, header: string, name: string, j: nat)
    requires 0 <= FindRowIndex(rows, header) <= j < |rows|
    requires LabelMatches(rows[j], name)
    requires forall i :: FindRowIndex(rows, header) <= i < j ==> !LabelMatches(rows[i], name)
    ensures FindRow(Section(rows, header), name) == Some(rows[j])
  {
    var k := FindRowIndex(rows, header);
    var section := rows[k..];
    forall i | 0 <= i < j - k ensures !LabelMatches(section[i], name) {
      assert section[i] == rows[k + i];
    }
    assert section[j - k] == rows[j];
    FindIndexFromUnique(section, name, 0, j - k);
  }

  /** A channel whose section header is missing reads as zeros. */
  lemma {:induction false} MissingSectionIsZero(rows: seq<Row>, header: string)
    requires FindRowIndex(rows, header) < 0
    ensures forall m :: 0 <= m < 12 ==> ChannelOf(rows, header).closedARR[m] == 0.0
    ensures forall m :: 0 <= m < 12 ==> ChannelOf(rows, header).closedMRR[m] == 0.0
    ensures forall m :: 0 <= m < 12 ==> ChannelOf(rows, header).targetMRR[m] == 0.0
  {
  }

  /** The current month is read off the first closed-MRR total row: when its
      February cell is non-zero and every later month is zero, February is the
      current month and its closed MRR is that cell's number. */
  lemma {:induction false} FebruaryTotal(rows: seq<Row>)
    requires var k := FindRowIndex(rows, "Total Closed MRR");
      && k >= 0
      && Num(Cell(rows[k], 3)) != 0.0
      && forall i :: 4 <= i < 14 ==> Num(Cell(rows[k], i)) == 0.0
    ensures ParsePerformance(rows).currentMonthIdx == 1
    ensures ParsePerformance(rows).totalClosedMRR[1] == Num(Cell(rows[FindRowIndex(rows, "Total Closed MRR")], 3))
  {
    var p := ParsePerformance(rows);
    var v := p.totalClosedMRR;
    assert v[1] != 0.0;
    forall j | 1 < j < 12 ensures v[j] == 0.0 {
      assert Num(Cell(rows[FindRowIndex(rows, "Total Closed MRR")], j + 2)) == 0.0;
    }
    LastNonZeroUnique(v, 1);
  }

  /** A two-row sheet: the closed-MRR total 100, 200, then ten zeros, followed
      by a target row of zeros. February is the current month, with 200. */
  lemma {:induction false} FebruaryIsCurrent()
    ensures var p := ParsePerformance([ClosedRow(), TargetRow()]);
      p.currentMonthIdx == 1 && p.totalClosedMRR[1] == 200.0
  {
    var rows := [ClosedRow(), TargetRow()];
    ClosedRowFound(rows);
    ClosedRowCells();
    FebruaryTotal(rows);
  }

  lemma {:induction false} ClosedRowFound(rows: seq<Row>)
    requires rows != [] && rows[0] == ClosedRow()
    ensures FindRowIndex(rows, "Total Closed MRR") == 0
  {
    assert LabelMatches(rows[0], "Total Closed MRR") by {
      assert ClosedRow()[1] == "Total Closed MRR";
      assert IsTrimmed("Total Closed MRR");
      assert "Total Closed MRR" <= "Total Closed MRR";
    }
  }

  lemma {:induction false} ClosedRowCells()
    ensures Num(Cell(ClosedRow(), 3)) == 200.0
    ensures forall i :: 4 <= i < 14 ==> Num(Cell(ClosedRow(), i)) == 0.0
  {
    var row := ClosedRow();
    assert DigitsValue("200") == 200 by {
      assert "200"[..2] == "20" && "20"[..1] == "2" && "2"[..0] == "";
    }
    assert DigitsValue("0") == 0 by {
      assert "0"[..0] == "";
    }
    NumOfDigitText("200", 200);
    NumOfDigitText("0", 0);
    assert Cell(row, 3) == Some("200");
    forall i | 4 <= i < 14 ensures Num(Cell(row, i)) == 0.0 {
      assert Cell(row, i) == Some("0");
    }
  }

  function ClosedRow(): Row {
    ["", "Total Closed MRR", "100", "200"] + seq(10, m => "0")
  }

  function TargetRow(): Row {
    ["", "Total Target MRR"] + seq(12, m => "0")
  }

  /** A cell of digits worth `n` coerces to `n`. */
  lemma {:induction false} NumOfDigitText(d: string, n: nat)
    requires d != [] && AllDigits(d) && DigitsValue(d) == n
    ensures Num(Some(d)) == n as real
  {
    CleanDigits(d);
    assert '%' !in d by {
      forall k | 0 <= k < |d| ensures d[k] != '%' {
        assert IsDigit(d[k]);
      }
    }
    NumOfDigits(d, d);
  }

  // ---------------------------------------------------------------------------
  // parsePartnerSheet

  /** The contract status, written `V` (signed) or `X` (no agreement) in the sheet. */
  datatype Contract = Signed | Unsigned

  datatype Partner = Partner(
    name: string,
    country: string,
    contactPerson: string,
    commission: string,
    start: string,
    arr: real,
    mrrAvg: real,
    arr2026: int,
    mrr2026: seq<real>,
    contract: Contract)

  /** The label of the rows after which partners have no agreement. */
  const Sentinel := "No Agreement"

  /** `r[i] ? r[i].trim() : ""` */
  function TrimmedCell(row: Row, i: nat): string {
    if i < |row| && row[i] != "" then Trim(row[i]) else ""
  }

  /** A row becomes a partner record when its trimmed label is non-empty and
      does not contain the sentinel label. */
  predicate Retained(row: Row) {
    var name := TrimmedCell(row, 1);
    name != "" && !Contains(name, Sentinel)
  }

  /** The commission text cut to 60 characters followed by `...` when longer. */
  function Truncate(raw: string): (c: string)
    ensures |c| <= 63
    ensures |raw| <= 60 ==> c == raw
    ensures |raw| > 60 ==> |c| == 63 && c[..60] == raw[..60] && c[60..] == "..."
  {
    if |raw| > 60 then raw[..60] + "..." else raw
  }

  /** `r[6] ? r[6].trim().substring(0, 7) : "-"`: the year-month of the start date. */
  function StartPeriod(row: Row): (s: string)
    ensures (6 >= |row| || row[6] == "") ==> s == "-"
    ensures 6 < |row| && row[6] != "" ==> |s| <= 7 && s <= Trim(row[6])
    ensures 6 < |row| && row[6] != "" && |Trim(row[6])| >= 7 ==> |s| == 7
    ensures 6 < |row| && row[6] != "" && |Trim(row[6])| < 7 ==> s == Trim(row[6])
  {
    if 6 < |row| && row[6] != "" then
      var t := Trim(row[6]);
      if |t| > 7 then t[..7] else t
    else "-"
  }

  /** `v.reduce((a, b) => a + b, 0)`: the values added from the left. */
  function Sum(v: seq<real>): real {
    if v == [] then 0.0 else Sum(v[..|v| - 1]) + v[|v| - 1]
  }

  /** The sum of a concatenation is the sum of the parts, so the order in
      which the months are added does not change the total. */
  lemma {:induction false} SumAppend(a: seq<real>, b: seq<real>)
    ensures Sum(a + b) == Sum(a) + Sum(b)
    decreases |b|
  {
    if b == [] {
      assert a + b == a;
    } else {
      var c := b[..|b| - 1];
      assert (a + b)[..|a + b| - 1] == a + c;
      assert (a + b)[|a + b| - 1] == b[|b| - 1];
      SumAppend(a, c);
    }
  }

  /** A sum of values none of which is negative is positive exactly when one
      of them is: `arr2026` is 1 exactly for a partner with some positive
      monthly MRR, when no month is negative. */
  lemma {:induction false} SumPositive(v: seq<real>)
    requires forall m :: 0 <= m < |v| ==> v[m] >= 0.0
    ensures Sum(v) >= 0.0
    ensures Sum(v) > 0.0 <==> exists m :: 0 <= m < |v| && v[m] > 0.0
    decreases |v|
  {
    if v != [] {
      var c := v[..|v| - 1];
      SumPositive(c);
      if Sum(c) > 0.0 {
        var m :| 0 <= m < |c| && c[m] > 0.0;
        assert v[m] > 0.0;
      }
    }
  }

  /** The record of the partner row at index `i`, given the index of the
      sentinel row after the header (-1 when there is none). */
  function PartnerAt(row: Row, i: nat, sentinel: int): (p: Partner)
    ensures p.name == TrimmedCell(row, 1)
    ensures p.country == TrimmedCell(row, 2)
    ensures p.contactPerson == TrimmedCell(row, 3)
    ensures p.commission == Truncate(TrimmedCell(row, 4)) && |p.commission| <= 63
    ensures p.start == StartPeriod(row)
    ensures p.arr == Num(Cell(row, 8))
    ensures p.mrrAvg == Num(Cell(row, 10))
    ensures |p.mrr2026| == 12
    ensures forall m :: 0 <= m < 12 && m + 11 >= |row| ==> p.mrr2026[m] == 0.0
    ensures forall m :: 0 <= m < 12 && m + 11 < |row| ==> p.mrr2026[m] == Num(Some(row[m + 11]))
    ensures p.arr2026 == 1 <==> Sum(p.mrr2026) > 0.0
    ensures p.arr2026 == 0 || p.arr2026 == 1
    ensures p.contract == Signed <==> sentinel < 0 || i < sentinel
  {
    var mrr2026 := MonthsFrom(row, 11);
    Partner(
      TrimmedCell(row, 1),
      TrimmedCell(row, 2),
      TrimmedCell(row, 3),
      Truncate(TrimmedCell(row, 4)),
      StartPeriod(row),
      Num(Cell(row, 8)),
      Num(Cell(row, 10)),
      if Sum(mrr2026) > 0.0 then 1 else 0,
      mrr2026,
      if sentinel < 0 || i < sentinel then Signed else Unsigned)
  }

  // ---------------------------------------------------------------------------
  // Selecting the flagged items of an index range

  /** The items at the indices in [lo, hi) whose flag is set, in index order. */
  function Select<T>(keep: seq<bool>, items: seq<T>, lo: nat, hi: nat): seq<T>
    requires |items| == |keep| && hi <= |keep|
    decreases hi
  {
    if hi <= lo then []
    else Select(keep, items, lo, hi - 1) + (if keep[hi - 1] then [items[hi - 1]] else [])
  }

  /** The indices in [lo, hi) whose flag is set, in increasing order. */
  function Kept(keep: seq<bool>, lo: nat, hi: nat): (ks: seq<nat>)
    requires hi <= |keep|
    ensures forall a :: 0 <= a < |ks| ==> lo <= ks[a] < hi
    decreases hi
  {
    if hi <= lo then []
    else Kept(keep, lo, hi - 1) + (if keep[hi - 1] then [hi - 1] else [])
  }

  /** `Kept` lists only flagged indices, in strictly increasing order. */
  lemma {:induction false} KeptIncreasing(keep: seq<bool>, lo: nat, hi: nat)
    requires hi <= |keep|
    ensures forall a :: 0 <= a < |Kept(keep, lo, hi)| ==> keep[Kept(keep, lo, hi)[a]]
    ensures forall a, b :: 0 <= a < b < |Kept(keep, lo, hi)| ==> Kept(keep, lo, hi)[a] < Kept(keep, lo, hi)[b]
    decreases hi
  {
    if hi > lo {
      KeptIncreasing(keep, lo, hi - 1);
      var prev := Kept(keep, lo, hi - 1);
      var ks := Kept(keep, lo, hi);
      forall a | 0 <= a < |ks| ensures keep[ks[a]] {
        if a < |prev| {
          assert ks[a] == prev[a];
        }
      }
      forall a, b | 0 <= a < b < |ks| ensures ks[a] < ks[b] {
        assert ks[a] == prev[a];
        if b < |prev| {
          assert ks[b] == prev[b];
        }
      }
    }
  }

  /** `Kept` lists every flagged index of [lo, hi). */
  lemma {:induction false} KeptComplete(keep: seq<bool>, lo: nat, hi: nat, i: nat)
    requires hi <= |keep|
    requires lo <= i < hi && keep[i]
    ensures i in Kept(keep, lo, hi)
    decreases hi
  {
    var prev := Kept(keep, lo, hi - 1);
    var ks := Kept(keep, lo, hi);
    if i < hi - 1 {
      KeptComplete(keep, lo, hi - 1, i);
      var a :| 0 <= a < |prev| && prev[a] == i;
      assert ks[a] == i;
    } else {
      assert ks[|ks| - 1] == i;
    }
  }

  /** The selected items are the items at the kept indices, one each, in order. */
  lemma {:induction false} SelectKept<T>(keep: seq<bool>, items: seq<T>, lo: nat, hi: nat)
    requires |items| == |keep| && hi <= |keep|
    ensures |Select(keep, items, lo, hi)| == |Kept(keep, lo, hi)|
    ensures forall a :: 0 <= a < |Kept(keep, lo, hi)| ==> Select(keep, items, lo, hi)[a] == items[Kept(keep, lo, hi)[a]]
    decreases hi
  {
    if hi > lo {
      SelectKept(keep, items, lo, hi - 1);
      var sel := Select(keep, items, lo, hi);
      var ks := Kept(keep, lo, hi);
      var prevSel := Select(keep, items, lo, hi - 1);
      var prevKs := Kept(keep, lo, hi - 1);
      forall a | 0 <= a < |ks| ensures sel[a] == items[ks[a]] {
        if a < |prevKs| {
          assert sel[a] == prevSel[a];
          assert ks[a] == prevKs[a];
        }
      }
    }
  }

  /** Selecting over [lo, hi) is selecting over [lo, mid) and then over [mid, hi). */
  lemma {:induction false} SelectSplit<T>(keep: seq<bool>, items: seq<T>, lo: nat, mid: nat, hi: nat)
    requires |items| == |keep| && lo <= mid <= hi <= |keep|
    ensures Select(keep, items, lo, hi) == Select(keep, items, lo, mid) + Select(keep, items, mid, hi)
    decreases hi
  {
    if hi > mid {
      SelectSplit(keep, items, lo, mid, hi - 1);
      AppendAssoc(Select(keep, items, lo, mid), Select(keep, items, mid, hi - 1),
        if keep[hi - 1] then [items[hi - 1]] else []);
    } else {
      AppendEmpty(Select(keep, items, lo, mid));
    }
  }

  /** An unflagged index contributes nothing: selecting over [lo, hi) is
      selecting over the indices before it and then over those after it. */
  lemma {:induction false} SelectSkip<T>(keep: seq<bool>, items: seq<T>, lo: nat, mid: nat, hi: nat)
    requires |items| == |keep| && lo <= mid < hi <= |keep|
    requires !keep[mid]
    ensures Select(keep, items, lo, hi) == Select(keep, items, lo, mid) + Select(keep, items, mid + 1, hi)
  {
    SelectSplit(keep, items, lo, mid, hi);
    SelectSplit(keep, items, mid, mid + 1, hi);
    assert Select(keep, items, mid, mid + 1) == [];
    AppendEmpty(Select(keep, items, mid + 1, hi));
  }

  // ---------------------------------------------------------------------------
  // The partner scan

  /** For each row, whether it is retained. */
  function RetainedFlags(rows: seq<Row>): (f: seq<bool>)
    ensures |f| == |rows|
  {
    seq(|rows|, i requires 0 <= i < |rows| => Retained(rows[i]))
  }

  /** For each row, the record it gives when retained. */
  function RowRecords(rows: seq<Row>, sentinel: int): (r: seq<Partner>)
    ensures |r| == |rows|
  {
    seq(|rows|, i requires 0 <= i < |rows| => PartnerAt(rows[i], i, sentinel))
  }

  /** The records of the retained rows with index in [lo, hi), in sheet order. */
  function PartnersBetween(rows: seq<Row>, lo: nat, hi: nat, sentinel: int): seq<Partner>
    requires hi <= |rows|
  {
    Select(RetainedFlags(rows), RowRecords(rows, sentinel), lo, hi)
  }

  /** The indices of the retained rows in [lo, hi), in increasing order. */
  function KeptRows(rows: seq<Row>, lo: nat, hi: nat): seq<nat>
    requires hi <= |rows|
  {
    Kept(RetainedFlags(rows), lo, hi)
  }

  /** The first sentinel row after the header, or -1. */
  function SentinelIndex(rows: seq<Row>, header: nat): int {
    FindIndexFrom(rows, Sentinel, header + 1)
  }

  /** What `parsePartnerSheet(rows, name)` returns. */
  function PartnerSheet(rows: seq<Row>, name: string): seq<Partner> {
    var h := FindRowIndex(rows, name);
    if h < 0 then [] else PartnersBetween(rows, h + 1, |rows|, SentinelIndex(rows, h))
  }

  /** One more row extends the records by that row's record when it is retained. */
  lemma {:induction false} PartnersStep(rows: seq<Row>, lo: nat, i: nat, sentinel: int)
    requires lo <= i < |rows|
    ensures PartnersBetween(rows, lo, i + 1, sentinel)
         == PartnersBetween(rows, lo, i, sentinel) + (if Retained(rows[i]) then [PartnerAt(rows[i], i, sentinel)] else [])
  {
    assert RetainedFlags(rows)[i] == Retained(rows[i]);
    assert RowRecords(rows, sentinel)[i] == PartnerAt(rows[i], i, sentinel);
  }

  /** `parsePartnerSheet(rows, name)` */
  method ParsePartnerSheet(rows: seq<Row>, name: string) returns (partners: seq<Partner>)
    ensures partners == PartnerSheet(rows, name)
    ensures FindRowIndex(rows, name) < 0 ==> partners == []
  {
    var headerIdx := FindRowIndex(rows, name);
    if headerIdx < 0 {
      return [];
    }
    var noAgreementIdx := SentinelIndex(rows, headerIdx);
    partners := [];
    var i := headerIdx + 1;
    while i < |rows|
      invariant headerIdx + 1 <= i <= |rows|
      invariant partners == PartnersBetween(rows, headerIdx + 1, i, noAgreementIdx)
    {
      var r := rows[i];
      PartnersStep(rows, headerIdx + 1, i, noAgreementIdx);
      if Retained(r) {
        partners := partners + [PartnerAt(r, i, noAgreementIdx)];
      }
      i := i + 1;
    }
  }

  // ---------------------------------------------------------------------------
  // Properties of the partner scan

  /** One record per retained row, in sheet order. */
  lemma {:induction false} PartnersInSheetOrder(rows: seq<Row>, lo: nat, hi: nat, sentinel: int)
    requires hi <= |rows|
    ensures |PartnersBetween(rows, lo, hi, sentinel)| == |KeptRows(rows, lo, hi)|
    ensures forall a :: 0 <= a < |KeptRows(rows, lo, hi)| ==>
      PartnersBetween(rows, lo, hi, sentinel)[a] == PartnerAt(rows[KeptRows(rows, lo, hi)[a]], KeptRows(rows, lo, hi)[a], sentinel)
  {
    var records := RowRecords(rows, sentinel);
    SelectKept(RetainedFlags(rows), records, lo, hi);
    var ks := KeptRows(rows, lo, hi);
    forall a | 0 <= a < |ks| ensures records[ks[a]] == PartnerAt(rows[ks[a]], ks[a], sentinel) {
    }
  }

  /** The kept rows of a range are retained rows, in increasing order. */
  lemma {:induction false} KeptRowsRetained(rows: seq<Row>, lo: nat, hi: nat)
    requires hi <= |rows|
    ensures forall a :: 0 <= a < |KeptRows(rows, lo, hi)| ==> Retained(rows[KeptRows(rows, lo, hi)[a]])
    ensures forall a, b :: 0 <= a < b < |KeptRows(rows, lo, hi)| ==> KeptRows(rows, lo, hi)[a] < KeptRows(rows, lo, hi)[b]
  {
    var flags := RetainedFlags(rows);
    KeptIncreasing(flags, lo, hi);
    var ks := KeptRows(rows, lo, hi);
    forall a | 0 <= a < |ks| ensures Retained(rows[ks[a]]) {
      assert flags[ks[a]];
    }
  }

  /** A partner sheet yields no record without a header, and otherwise exactly
      one record per retained row after the header, in sheet order. */
  lemma {:induction false} PartnerSheetRecords(rows: seq<Row>, name: string)
    ensures FindRowIndex(rows, name) < 0 ==> PartnerSheet(rows, name) == []
    ensures FindRowIndex(rows, name) >= 0 ==>
      var h := FindRowIndex(rows, name);
      var ks := KeptRows(rows, h + 1, |rows|);
      && |PartnerSheet(rows, name)| == |ks|
      && (forall a :: 0 <= a < |ks| ==> h < ks[a] && Retained(rows[ks[a]]))
      && (forall a, b :: 0 <= a < b < |ks| ==> ks[a] < ks[b])
      && (forall a :: 0 <= a < |ks| ==> PartnerSheet(rows, name)[a] == PartnerAt(rows[ks[a]], ks[a], SentinelIndex(rows, h)))
  {
    var h := FindRowIndex(rows, name);
    if h >= 0 {
      var s := SentinelIndex(rows, h);
      assert PartnerSheet(rows, name) == PartnersBetween(rows, h + 1, |rows|, s);
      PartnersInSheetOrder(rows, h + 1, |rows|, s);
      KeptRowsRetained(rows, h + 1, |rows|);
    }
  }

  /** Every retained row after the header has its record in the sheet. */
  lemma {:induction false} RetainedRowListed(rows: seq<Row>, name: string, i: nat)
    requires 0 <= FindRowIndex(rows, name) < i < |rows|
    requires Retained(rows[i])
    ensures exists a :: (0 <= a < |PartnerSheet(rows, name)|
      && PartnerSheet(rows, name)[a] == PartnerAt(rows[i], i, SentinelIndex(rows, FindRowIndex(rows, name))))
  {
    var h := FindRowIndex(rows, name);
    var s := SentinelIndex(rows, h);
    var ps := PartnersBetween(rows, h + 1, |rows|, s);
    assert PartnerSheet(rows, name) == ps;
    var flags := RetainedFlags(rows);
    var ks := KeptRows(rows, h + 1, |rows|);
    assert flags[i];
    KeptComplete(flags, h + 1, |rows|, i);
    var a :| 0 <= a < |ks| && ks[a] == i;
    PartnersInSheetOrder(rows, h + 1, |rows|, s);
    assert ps[a] == PartnerAt(rows[i], i, s);
  }

  /** Every record of the rows in [lo, hi) is signed when the range lies wholly
      before the sentinel row (or there is none), and unsigned when it lies
      wholly after it. */
  lemma {:induction false} PartnersContract(rows: seq<Row>, lo: nat, hi: nat, sentinel: int)
    requires hi <= |rows|
    ensures sentinel < 0 || hi <= sentinel ==>
      forall a :: 0 <= a < |PartnersBetween(rows, lo, hi, sentinel)| ==> PartnersBetween(rows, lo, hi, sentinel)[a].contract == Signed
    ensures 0 <= sentinel < lo ==>
      forall a :: 0 <= a < |PartnersBetween(rows, lo, hi, sentinel)| ==> PartnersBetween(rows, lo, hi, sentinel)[a].contract == Unsigned
  {
    PartnersInSheetOrder(rows, lo, hi, sentinel);
  }

  /** A record is signed exactly when there is no sentinel row after the header
      or its row comes before the first one; so signed records precede unsigned ones. */
  lemma {:induction false} ContractsBySentinel(rows: seq<Row>, name: string)
    requires FindRowIndex(rows, name) >= 0
    ensures
      var h := FindRowIndex(rows, name);
      var s := SentinelIndex(rows, h);
      var ks := KeptRows(rows, h + 1, |rows|);
      var ps := PartnerSheet(rows, name);
      && |ps| == |ks|
      && (forall a :: 0 <= a < |ps| ==> (ps[a].contract == Signed <==> s < 0 || ks[a] < s))
      && (forall a, b :: 0 <= a < b < |ps| && ps[b].contract == Signed ==> ps[a].contract == Signed)
  {
    PartnerSheetRecords(rows, name);
  }

  /** With a sentinel row after the header, the sheet's records are those of
      the rows before it, all signed, followed by those of the rows after it,
      all unsigned. */
  lemma {:induction false} PartnerSheetSplitsAtSentinel(rows: seq<Row>, name: string)
    requires FindRowIndex(rows, name) >= 0
    requires SentinelIndex(rows, FindRowIndex(rows, name)) >= 0
    ensures
      var h := FindRowIndex(rows, name);
      var s := SentinelIndex(rows, h);
      var before := PartnersBetween(rows, h + 1, s, s);
      var after := PartnersBetween(rows, s + 1, |rows|, s);
      && PartnerSheet(rows, name) == before + after
      && (forall a :: 0 <= a < |before| ==> before[a].contract == Signed)
      && (forall a :: 0 <= a < |after| ==> after[a].contract == Unsigned)
  {
    var h := FindRowIndex(rows, name);
    var s := SentinelIndex(rows, h);
    var flags := RetainedFlags(rows);
    assert PartnerSheet(rows, name) == PartnersBetween(rows, h + 1, |rows|, s);
    SentinelNotRetained(rows, h);
    assert !flags[s];
    SelectSkip(flags, RowRecords(rows, s), h + 1, s, |rows|);
    PartnersContract(rows, h + 1, s, s);
    PartnersContract(rows, s + 1, |rows|, s);
  }

  /** The sentinel row itself gives no record. */
  lemma {:induction false} SentinelNotRetained(rows: seq<Row>, h: nat)
    requires SentinelIndex(rows, h) >= 0
    ensures !Retained(rows[SentinelIndex(rows, h)])
  {
    var row := rows[SentinelIndex(rows, h)];
    assert LabelMatches(row, Sentinel);
    assert TrimmedCell(row, 1) == Trim(row[1]);
  }

  /** Without a sentinel row after the header every record is signed. */
  lemma {:induction false} AllSignedWithoutSentinel(rows: seq<Row>, name: string)
    requires FindRowIndex(rows, name) >= 0
    requires SentinelIndex(rows, FindRowIndex(rows, name)) < 0
    ensures forall a :: 0 <= a < |PartnerSheet(rows, name)| ==> PartnerSheet(rows, name)[a].contract == Signed
  {
    var h := FindRowIndex(rows, name);
    assert PartnerSheet(rows, name) == PartnersBetween(rows, h + 1, |rows|, -1);
    PartnersContract(rows, h + 1, |rows|, -1);
  }

  /** Every record is fully shaped: twelve monthly values, a bounded commission. */
  lemma {:induction false} PartnerSheetShaped(rows: seq<Row>, name: string)
    ensures forall a :: 0 <= a < |PartnerSheet(rows, name)| ==>
      |PartnerSheet(rows, name)[a].mrr2026| == 12 && |PartnerSheet(rows, name)[a].commission| <= 63
  {
    PartnerSheetRecords(rows, name);
  }
}
