# Partners performance dashboard: sheet extraction model

This project models, in Dafny, the data-extraction core of the partners
performance dashboard (`src/fetchData.js`). The dashboard reads four published
spreadsheet exports as CSV text: one performance sheet and three partner
sheets (referrals, resellers, agencies). The core turns each text into rows of
trimmed cells, coerces cells to numbers, and finds rows by their label in
column 1. From the performance sheet it builds a snapshot of twelve-month
series. From each partner sheet it builds partner records.

The modules follow the layers of the code:

- `JsString` (`jsstring.dfy`): the JavaScript string built-ins the code uses.
  These are `trim`, `includes`, `split("\n")`, counting a character, and
  `undefined` for a missing value.
- `Tokenizer` (`tokenizer.dfy`): `parseCSVRow` and `parseCSV`. Both are loops
  in the code, so both are methods here. Each is proved equal to a recursive
  specification function: `Cells` (a character state machine) and `CsvRows`
  (line grouping by quote parity, then `Cells` on each row). The properties
  are proved about those functions.
- `Numeric` (`numeric.dfy`): `num` and the part of `parseFloat` it relies on.
  `parseFloat` is modelled as a decimal-prefix parser to an exact `real`.
  `None` stands for NaN.
- `Locator` (`locator.dfy`): `findRow`, `getMonthlyValues` and
  `detectCurrentMonth`. The last is a loop, proved against `LastNonZero`.
- `Records` (`records.dfy`): `parsePerformance`, and `parsePartnerSheet`,
  which is a loop proved against the function `PartnerSheet`.
- `Loader` (`loader.dfy`): the part of `fetchAllData` that runs after the
  fetches. It parses the four texts and assembles the result.

The lookups use substring containment on the trimmed label cell, as the code
does. They do not use exact label equality. This holds for row labels, section
headers, the partner-sheet header and the `No Agreement` sentinel row. A
partner's contract status is `V` when no sentinel row follows the header or
the partner's row comes before the first one. Otherwise it is `X`. Scanning
continues past the sentinel row, so partners listed after it are read as
unsigned. The model writes the two statuses as `Contract.Signed` and
`Contract.Unsigned`.

## Model

| member | source | states |
|---|---|---|
| JsString.Trim | src/fetchData.js:63 | the result is the input with a run of white space removed from each end and no white space left at either end; an already trimmed string is unchanged |
| JsString.SplitLines | src/fetchData.js:21 | splitting at line feeds gives one line more than there are line feeds, and no line holds a line feed |
| JsString.JoinSplitLines | src/fetchData.js:21 | joining the split lines with line feeds gives the text back |
| JsString.SplitJoinLines | src/fetchData.js:21 | splitting lines joined with line feeds gives the lines back when none holds a line feed |
| JsString.ContainsAt | src/fetchData.js:88 | `includes` (`Contains`) holds exactly when the searched text starts at some position of the string |
| Tokenizer.ParseCsvRow | src/fetchData.js:44-72 | the loop yields the cells of the state machine `Cells`, one cell more than the commas outside quotes, every cell trimmed |
| Tokenizer.CellCount | src/fetchData.js:48-70 | a row yields exactly one cell more than it has commas outside quotes (quote parity), so tokenizing never fails and never yields zero cells |
| Tokenizer.CellsTrimmed | src/fetchData.js:63-70 | every cell comes out trimmed |
| Tokenizer.NoStrayQuotes | src/fetchData.js:50-61 | a quote character reaches a cell only through the `""` escape: a row without a doubled quote yields cells without quotes |
| Tokenizer.QuotedRoundTrip | src/fetchData.js:17-67 | fields written in quoted form, with `"` doubled and holding any commas, quotes or line feeds, tokenize back to the fields (trimmed), and the whole text parses as that one row |
| Tokenizer.UnquotedRoundTrip | src/fetchData.js:59-70 | plain fields joined with commas tokenize back to the fields (trimmed), and unchanged when already trimmed |
| Tokenizer.ParseCsv | src/fetchData.js:17-42 | the loop yields the cells of each logical row of `Group`, and never more rows than physical lines |
| Tokenizer.GroupBound | src/fetchData.js:23-40 | each physical line ends at most one logical row |
| Tokenizer.GroupBalanced | src/fetchData.js:24-39 | every emitted row holds an even number of quotes, and the accumulation left open at the end holds an odd number |
| Tokenizer.GroupRejoins | src/fetchData.js:24-39 | emitted rows plus the open accumulation, joined with line feeds, are exactly the lines read (an odd-quote line opens a row that later lines join until an odd-quote line closes it) |
| Tokenizer.TextRejoins | src/fetchData.js:17-42 | the logical rows of a text followed by the unterminated accumulation, joined with line feeds, are the text itself, so only the unterminated tail is dropped |
| Tokenizer.SplitLinesAppend | src/fetchData.js:21 | the lines of `a`, a line feed and `b` are the lines of `a` followed by those of `b` |
| Tokenizer.GroupQuotedText | src/fetchData.js:23-40 | a text whose line feeds lie inside quotes, with balanced quotes overall, is accumulated into one logical row (joined to an open row when the scan is inside quotes) before the following lines are grouped afresh |
| Tokenizer.GroupRows | src/fetchData.js:17-42 | rows that each hold balanced quotes and line feeds only inside quotes, joined with line feeds, group back into exactly those rows |
| Tokenizer.QuotedTableRoundTrip | src/fetchData.js:17-72 | a table whose fields are written quoted, one line per row, parses back to the table with every field trimmed, whatever commas, quotes or line feeds the fields hold |
| Tokenizer.PlainTableRoundTrip | src/fetchData.js:17-72 | a table of plain fields without line feeds, joined with commas and line feeds, parses back to the trimmed table, and to the table itself when its fields are already trimmed |
| Numeric.Clean | src/fetchData.js:79 | the cleaned text holds none of `" ' € $ £ , %` or white space, and is no longer than the input |
| Numeric.CleanKeepsOthers | src/fetchData.js:79 | every character other than those stripped occurs in the cleaned text exactly as often as in the input |
| Numeric.CleanAppend | src/fetchData.js:79 | cleaning a concatenation is concatenating the cleaned parts, so the kept characters stay in their order |
| Numeric.CleanIdempotent | src/fetchData.js:79 | cleaning twice is cleaning once |
| Numeric.Num | src/fetchData.js:74-85 | a missing cell, `""` and `-` coerce to 0, and so does any cell whose cleaned text does not parse as a number |
| Numeric.NothingToParse | src/fetchData.js:80-81 | the empty text and a lone `-` are not numbers |
| Numeric.ParseFloatNaN | src/fetchData.js:80-81 | `parseFloat` gives NaN (`None`) exactly when, after leading white space and one optional sign, the text starts with neither a digit nor a `.` followed by a digit |
| Numeric.ParseUnsignedNone | src/fetchData.js:80 | the unsigned literal parser fails exactly when the text starts with neither a digit nor a `.` followed by a digit |
| Numeric.NumIgnoresStripped | src/fetchData.js:77-83 | two cells with the same cleaned text and the same presence of `%` coerce to the same number |
| Numeric.NumPercentScaling | src/fetchData.js:77-83 | a cell coerces to the number of its cleaned text, divided by 100 exactly when it contains `%` |
| Numeric.ParseShow | src/fetchData.js:80 | the decimal digits of a natural number parse back to that number |
| Numeric.DigitsValueAppend | src/fetchData.js:80 | the value of two digit strings written one after the other is the first value shifted by the length of the second, plus the second value |
| Numeric.ParseDecimal | src/fetchData.js:80 | `w.f` with digit strings `w` and `f` (not both empty) parses to `w + f / 10^|f|` |
| Numeric.ParseNegativeDecimal | src/fetchData.js:80 | `-w.f` parses to the negation of the value of `w.f` |
| Numeric.ParseExponent | src/fetchData.js:80 | digits `w` followed by `e` and the digits of `e` parse to `w * 10^e` |
| Numeric.NumShow | src/fetchData.js:74-85 | a cell holding the decimal digits of a natural number coerces to that number |
| Numeric.NumShowPercent | src/fetchData.js:77-83 | digits followed by `%` coerce to a hundredth of the number |
| Numeric.NumCurrency | src/fetchData.js:79-80 | `€1,234` coerces to 1234 |
| Numeric.NumPercent | src/fetchData.js:77-83 | `30%` coerces to 0.3 |
| Numeric.NumNegativeDecimal | src/fetchData.js:74-85 | a cell `-w.f` coerces to the negated value of `w.f`, so a negative amount keeps its sign |
| Numeric.NumDecimalPercent | src/fetchData.js:74-85 | a cell `w.f%` coerces to a hundredth of the value of `w.f` |
| Numeric.NumNinePointZeroPercent | src/fetchData.js:76-83 | `9.0%` coerces to 0.09 |
| Numeric.NumText | src/fetchData.js:80-81 | `abc` coerces to 0 |
| Locator.FindIndexFrom | src/fetchData.js:87-89 | the result is the first row at or after the start whose trimmed, non-empty label contains the name, or -1 when no row matches |
| Locator.FindRow | src/fetchData.js:87-89 | `findRow` gives a row whose label contains the name, with no matching row before it, or nothing exactly when no row matches |
| Locator.MonthsFrom | src/fetchData.js:185 | twelve values: 0 for a cell past the end of the row, otherwise the coerced cell `first + m` |
| Locator.MonthlyValues | src/fetchData.js:91-94 | always twelve values: all 0 for a missing row, 0 for a cell past the end of the row, otherwise the coerced cell `m + 2` |
| Locator.LastNonZero | src/fetchData.js:98-101 | the index of a non-zero value with only zeros after it, or -1 when all are zero |
| Locator.CurrentMonth | src/fetchData.js:98-102 | `Math.max(0, lastIdx)`: the month is 0 or holds a non-zero value, lies inside the series, and only zeros follow it |
| Locator.DetectCurrentMonth | src/fetchData.js:96-103 | the result lies in 0..11 and is the last month with a non-zero value, or 0 when there is none |
| Locator.TrailingZerosKeepMonth | src/fetchData.js:99-102 | appending zero months does not move the current month |
| Locator.LaterZerosKeepMonth | src/fetchData.js:99-102 | setting the months after the current one to zero does not move it |
| Locator.LaterMonthRaises | src/fetchData.js:99-102 | a non-zero value in a later month becomes the current month |
| Records.ChannelOf | src/fetchData.js:112-131 | a channel whose section header is missing has all-zero series; otherwise its closed-ARR, closed-MRR and target series are the twelve coerced month cells of the first `Deals Closed ARR`, `Deals Closed MRR` and `Monthly Target` rows at or after the header, or zeros when there is no such row |
| Records.SectionFind | src/fetchData.js:113-117 | looking a label up in the rows from a section header on finds the first matching row at or after the header, or nothing when there is none |
| Records.TotalSeries | src/fetchData.js:106-110 | a total series is the twelve coerced month cells (columns 2..13) of the first row whose label contains the name, or twelve zeros when no row matches |
| Records.ParsePerformance | src/fetchData.js:105-161 | each of the five totals is the series of the first row whose label contains its name; each channel is its section's series (`ChannelOf`); the current month is in 0..11 and is the last non-zero month of the closed-MRR total; each summary field (`SummaryCell`) is the coerced column 14 of rows 19..24 when the row exists, and otherwise the defaults 0.3, 0, 0.6, 0, 0.1, 0 |
| Records.FebruaryTotal | src/fetchData.js:96-103 | when the closed-MRR total row has a non-zero February cell and zeros from March on, February (index 1) is the current month and its closed MRR is that cell's value |
| Records.FebruaryIsCurrent | src/fetchData.js:105-161 | a sheet with a closed-MRR total of 100 in January and 200 in February and a target row reports February as the current month, with 200 closed |
| Records.SectionExtendsToEnd | src/fetchData.js:113-117 | a row looked up in a channel's section is the first match at or after the section header, even when it lies in a later section |
| Records.MissingSectionIsZero | src/fetchData.js:113-117 | a channel whose section header is missing reads as zeros |
| Records.Truncate | src/fetchData.js:194 | the commission is at most 63 characters; it is unchanged up to 60 characters, and otherwise is its first 60 followed by `...` |
| Records.StartPeriod | src/fetchData.js:181 | the start is `-` when cell 6 is missing or empty; otherwise it is the first seven characters of the trimmed cell, or the whole trimmed cell when it is shorter than seven |
| Records.PartnerAt | src/fetchData.js:172-201 | the record's name, country and contact person are the trimmed cells 1, 2 and 3 (empty when missing); the commission is the truncated trimmed cell 4, at most 63 characters; the start is `StartPeriod`; `arr` and `mrrAvg` are the coerced cells 8 and 10; the twelve monthly values are cells 11..22; `arr2026` is 1 exactly when their sum is positive and 0 otherwise; it is signed exactly when there is no sentinel or its row precedes the sentinel |
| Records.SumAppend | src/fetchData.js:198 | the `reduce` sum of a concatenation is the sum of the parts |
| Records.SumPositive | src/fetchData.js:198 | for months none of which is negative, the sum is not negative, and it is positive (`arr2026` is 1) exactly when some month is positive |
| Records.ParsePartnerSheet | src/fetchData.js:163-204 | the loop yields `PartnerSheet`, the records of the retained rows after the header, and nothing when there is no header |
| Records.PartnersInSheetOrder | src/fetchData.js:170-202 | the records of a row range are those of its kept rows (`KeptRows`), one each, in row order, each built from its own row and index |
| Records.PartnerSheetRecords | src/fetchData.js:163-204 | no header gives no records; otherwise there is one record per kept row after the header, each kept row is retained (`Retained`: non-empty trimmed label without `No Agreement`), and the kept rows increase |
| Records.KeptIncreasing | src/fetchData.js:171-176 | the scan keeps only flagged (retained) indices, in strictly increasing order |
| Records.KeptComplete | src/fetchData.js:171-176 | the scan keeps every flagged (retained) index of its range |
| Records.SelectKept | src/fetchData.js:171-202 | the pushed items are the items of the kept indices, one each, in order |
| Records.SelectSplit | src/fetchData.js:171 | scanning a range is scanning its first part and then its second |
| Records.SelectSkip | src/fetchData.js:176 | a skipped index contributes nothing: the scan is the part before it followed by the part after it |
| Records.KeptRowsRetained | src/fetchData.js:173-176 | every kept row is retained, and kept rows increase |
| Records.RetainedRowListed | src/fetchData.js:171-176 | every retained row after the header has its record in the result |
| Records.PartnersContract | src/fetchData.js:187-200 | every record of a row range wholly before the sentinel row (or with no sentinel) is signed, and every record of a range wholly after it is unsigned |
| Records.ContractsBySentinel | src/fetchData.js:168-200 | a record is signed exactly when there is no sentinel after the header (`SentinelIndex`, the first `No Agreement` row after it) or its row precedes the first one, so signed records precede unsigned ones |
| Records.SentinelNotRetained | src/fetchData.js:168-176 | the sentinel row itself gives no record |
| Records.PartnerSheetSplitsAtSentinel | src/fetchData.js:167-200 | with a sentinel row, the result is the records before it, all signed, followed by the records after it, all unsigned |
| Records.AllSignedWithoutSentinel | src/fetchData.js:188 | without a sentinel row after the header every record is signed |
| Records.PartnerSheetShaped | src/fetchData.js:185-194 | every record has twelve monthly values and a commission of at most 63 characters |
| Loader.AssembleAll | src/fetchData.js:214-227 | the result is the performance snapshot of the first text and the partner sheets of the other three under the headers `Referral`, `Reseller` and `Agency`, and every performance series has twelve values |

## Left out

- Fetching (`src/fetchData.js:10-15`, `206-212`): the four network requests and
  their concurrent join are I/O. `Loader.AssembleAll` takes the four texts as
  parameters. Substituting the static fallback dataset when a fetch fails is
  the caller's job. `src/App.jsx` and `src/data.js` are not part of this model.
- IEEE-754 doubles: numbers are exact reals. The division by 100 in `num` and
  the sum of the monthly values deciding `arr2026` are exact, so rounding is
  not modelled.
- Records.Truncate: JavaScript's `length` and `substring` count UTF-16 code
  units, while a Dafny string counts Unicode scalar values. A commission
  holding characters outside the Basic Multilingual Plane is measured and cut
  differently. For example, 40 emoji have length 80 in the code and are cut
  there, but are kept whole here.
- Records.StartPeriod: `substring(0, 7)` likewise takes seven UTF-16 code units
  in the code and seven scalar values here. The two differ for a start cell
  holding characters outside the Basic Multilingual Plane.
- Numeric.Num: `parseFloat`'s `Infinity` prefix is not modelled. Nor is a
  decimal literal overflowing to infinity. A cleaned cell starting with
  `Infinity` coerces to 0 here, where the code gives an infinite number.
- Cells are always strings. `r[i] ? ... : ...` and `!val` are modelled as
  tests for a missing or empty string, the only falsy values a cell can have.
- Contract status: the strings `V` and `X` are the two constructors of
  `Contract`.
