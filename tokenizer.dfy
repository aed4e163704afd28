/** The CSV tokenizer: `parseCSVRow` splits one logical row into trimmed cells,
    `parseCSV` groups physical lines into logical rows so that a quoted field may
    span several lines. */
module Tokenizer {
  import opened JsString

  /** One tokenized row; cell 1 conventionally holds the row's label. */
  type Row = seq<string>

  // ---------------------------------------------------------------------------
  // parseCSVRow

  /** The row scanner's state machine run over the characters `rest` still to be
      read, with the cells finished so far, the cell being built and whether a
      quoted field is open. Inside quotes `""` yields one `"`, a lone `"` closes
      the field and every other character (comma included) is content; outside
      quotes `"` opens a field, `,` ends the cell and every other character is
      content. The last cell is emitted when the input runs out. */
  function Scan(rest: string, cells: seq<string>, current: string, inQuotes: bool): seq<string>
    decreases |rest|
  {
    if rest == [] then cells + [Trim(current)]
    else if inQuotes then
      if rest[0] == '"' && |rest| > 1 && rest[1] == '"' then Scan(rest[2..], cells, current + "\"", true)
      else if rest[0] == '"' then Scan(rest[1..], cells, current, false)
      else Scan(rest[1..], cells, current + [rest[0]], true)
    else if rest[0] == '"' then Scan(rest[1..], cells, current, true)
    else if rest[0] == ',' then Scan(rest[1..], cells + [Trim(current)], "", false)
    else Scan(rest[1..], cells, current + [rest[0]], false)
  }

  /** The cells of one logical row. */
  function Cells(row: string): Row {
    Scan(row, [], "", false)
  }

  /** The number of commas in `s` that an even number of quote characters
      precede (counting from a closed state when `inQuotes` is false): the
      commas that stand outside any quoted field. */
  function CommasOutside(s: string, inQuotes: bool): nat {
    if s == [] then 0
    else
      (if s[0] == ',' && !inQuotes then 1 else 0)
      + CommasOutside(s[1..], if s[0] == '"' then !inQuotes else inQuotes)
  }

  /** `parseCSVRow(row)` */
  method ParseCsvRow(row: string) returns (cells: Row)
    ensures cells == Cells(row)
    ensures |cells| == CommasOutside(row, false) + 1
    ensures forall k :: 0 <= k < |cells| ==> IsTrimmed(cells[k])
  {
    cells := [];
    var current := "";
    var inQuotes := false;
    var i := 0;
    while i < |row|
      invariant 0 <= i <= |row|
      invariant Scan(row[i..], cells, current, inQuotes) == Cells(row)
    {
      var ch := row[i];
      assert row[i..][1..] == row[i + 1..];
      if inQuotes {
        if ch == '"' && i + 1 < |row| && row[i + 1] == '"' {
          assert row[i..][2..] == row[i + 2..];
          current := current + "\"";
          i := i + 1;
        } else if ch == '"' {
          inQuotes := false;
        } else {
          current := current + [ch];
        }
      } else {
        if ch == '"' {
          inQuotes := true;
        } else if ch == ',' {
          cells := cells + [Trim(current)];
          current := "";
        } else {
          current := current + [ch];
        }
      }
      i := i + 1;
    }
    assert row[i..] == [];
    cells := cells + [Trim(current)];
    CellCount(row);
    CellsTrimmed(row);
  }

  /** A row yields one cell more than it has commas outside quotes: the doubled
      quote `""` inside a quoted field splits nothing, like a close followed by
      a reopen. */
  lemma {:induction false} CellCount(row: string)
    ensures |Cells(row)| == CommasOutside(row, false) + 1
  {
    ScanLength(row, [], "", false);
  }

  lemma {:induction false} ScanLength(rest: string, cells: seq<string>, current: string, inQuotes: bool)
    ensures |Scan(rest, cells, current, inQuotes)| == |cells| + CommasOutside(rest, inQuotes) + 1
    decreases |rest|
  {
    if rest != [] {
      if inQuotes && rest[0] == '"' && |rest| > 1 && rest[1] == '"' {
        ScanLength(rest[2..], cells, current + "\"", true);
        assert rest[1..][1..] == rest[2..];
      } else if inQuotes {
        ScanLength(rest[1..], cells, if rest[0] == '"' then current else current + [rest[0]], rest[0] != '"');
      } else if rest[0] == ',' {
        ScanLength(rest[1..], cells + [Trim(current)], "", false);
      } else {
        ScanLength(rest[1..], cells, if rest[0] == '"' then current else current + [rest[0]], rest[0] == '"');
      }
    }
  }

  /** Every cell comes out trimmed. */
  lemma {:induction false} CellsTrimmed(row: string)
    ensures forall k :: 0 <= k < |Cells(row)| ==> IsTrimmed(Cells(row)[k])
  {
    ScanTrimmed(row, [], "", false);
  }

  lemma {:induction false} ScanTrimmed(rest: string, cells: seq<string>, current: string, inQuotes: bool)
    requires forall k :: 0 <= k < |cells| ==> IsTrimmed(cells[k])
    ensures forall k :: 0 <= k < |Scan(rest, cells, current, inQuotes)| ==> IsTrimmed(Scan(rest, cells, current, inQuotes)[k])
    decreases |rest|
  {
    if rest != [] {
      if inQuotes && rest[0] == '"' && |rest| > 1 && rest[1] == '"' {
        ScanTrimmed(rest[2..], cells, current + "\"", true);
      } else if inQuotes {
        ScanTrimmed(rest[1..], cells, if rest[0] == '"' then current else current + [rest[0]], rest[0] != '"');
      } else if rest[0] == ',' {
        ScanTrimmed(rest[1..], cells + [Trim(current)], "", false);
      } else {
        ScanTrimmed(rest[1..], cells, if rest[0] == '"' then current else current + [rest[0]], rest[0] == '"');
      }
    }
  }

  /** No two quote characters stand next to each other. */
  predicate NoDoubledQuote(s: string) {
    forall k :: 0 <= k < |s| - 1 ==> !(s[k] == '"' && s[k + 1] == '"')
  }

  /** A quote character reaches a cell only through the escape `""`: a row
      without a doubled quote yields cells without any quote character. */
  lemma {:induction false} NoStrayQuotes(row: string)
    requires NoDoubledQuote(row)
    ensures forall k :: 0 <= k < |Cells(row)| ==> '"' !in Cells(row)[k]
  {
    ScanNoQuotes(row, [], "", false);
  }

  lemma {:induction false} ScanNoQuotes(rest: string, cells: seq<string>, current: string, inQuotes: bool)
    requires NoDoubledQuote(rest)
    requires forall k :: 0 <= k < |cells| ==> '"' !in cells[k]
    requires '"' !in current
    ensures forall k :: 0 <= k < |Scan(rest, cells, current, inQuotes)| ==> '"' !in Scan(rest, cells, current, inQuotes)[k]
    decreases |rest|
  {
    if rest == [] {
      TrimKeepsOut(current, '"');
    } else {
      assert NoDoubledQuote(rest[1..]) by {
        forall k | 0 <= k < |rest[1..]| - 1 ensures !(rest[1..][k] == '"' && rest[1..][k + 1] == '"') {
          assert rest[1..][k] == rest[k + 1] && rest[1..][k + 1] == rest[k + 2];
        }
      }
      if inQuotes {
        ScanNoQuotes(rest[1..], cells, if rest[0] == '"' then current else current + [rest[0]], rest[0] != '"');
      } else if rest[0] == ',' {
        TrimKeepsOut(current, '"');
        ScanNoQuotes(rest[1..], cells + [Trim(current)], "", false);
      } else {
        ScanNoQuotes(rest[1..], cells, if rest[0] == '"' then current else current + [rest[0]], rest[0] == '"');
      }
    }
  }

  /** A field written in the dialect's quoted form: each `"` doubled, the whole
      wrapped in quotes. */
  function Escape(field: string): (e: string)
    ensures |e| >= |field|
  {
    if field == [] then []
    else (if field[0] == '"' then "\"\"" else [field[0]]) + Escape(field[1..])
  }

  function Quoted(field: string): string {
    "\"" + Escape(field) + "\""
  }

  /** Quoted fields separated by commas. */
  function JoinQuoted(fields: seq<string>): string
    requires |fields| > 0
  {
    if |fields| == 1 then Quoted(fields[0])
    else Quoted(fields[0]) + "," + JoinQuoted(fields[1..])
  }

  /** Each field trimmed. */
  function TrimAll(fields: seq<string>): seq<string> {
    if fields == [] then [] else [Trim(fields[0])] + TrimAll(fields[1..])
  }

  lemma {:induction false} TrimAllTrimmed(fields: seq<string>)
    requires forall k :: 0 <= k < |fields| ==> IsTrimmed(fields[k])
    ensures TrimAll(fields) == fields
  {
    if fields != [] {
      TrimAllTrimmed(fields[1..]);
      assert fields == [fields[0]] + fields[1..];
    }
  }

  /** Quote round trip: fields written in quoted form, whatever commas, quotes
      or line feeds they hold, tokenize back to the fields themselves (trimmed),
      and the whole text parses as that one row. */
  lemma {:induction false} QuotedRoundTrip(fields: seq<string>)
    requires |fields| > 0
    ensures Cells(JoinQuoted(fields)) == TrimAll(fields)
    ensures CsvRows(JoinQuoted(fields)) == [TrimAll(fields)]
  {
    var text := JoinQuoted(fields);
    ScanJoinQuoted(fields, []);
    QuotedTextOneRow(fields);
    assert CellsOf([text])[0] == Cells(text);
  }

  /** Quoted fields joined with commas form a single logical row. */
  lemma {:induction false} QuotedTextOneRow(fields: seq<string>)
    requires |fields| > 0
    ensures LogicalRows(JoinQuoted(fields)) == [JoinQuoted(fields)]
  {
    var text := JoinQuoted(fields);
    JoinQuotedBalanced(fields);
    GroupQuotedText(text, [], "", false);
    assert SplitLines(text) + [] == SplitLines(text);
  }

  lemma {:induction false} ScanJoinQuoted(fields: seq<string>, cells: seq<string>)
    requires |fields| > 0
    ensures Scan(JoinQuoted(fields), cells, "", false) == cells + TrimAll(fields)
    decreases |fields|
  {
    var f := fields[0];
    if |fields| == 1 {
      ScanQuotedField(f, "", cells);
      assert Quoted(f) + "" == JoinQuoted(fields);
    } else {
      ScanFirstField(fields, cells);
      ScanJoinQuoted(fields[1..], cells + [Trim(f)]);
      TrimAllCons(fields, cells);
    }
  }

  lemma {:induction false} TrimAllCons(fields: seq<string>, cells: seq<string>)
    requires |fields| > 0
    ensures cells + [Trim(fields[0])] + TrimAll(fields[1..]) == cells + TrimAll(fields)
  {
    AppendAssoc(cells, [Trim(fields[0])], TrimAll(fields[1..]));
  }

  /** The first of several quoted fields becomes a cell of its own. */
  lemma {:induction false} ScanFirstField(fields: seq<string>, cells: seq<string>)
    requires |fields| > 1
    ensures Scan(JoinQuoted(fields), cells, "", false) == Scan(JoinQuoted(fields[1..]), cells + [Trim(fields[0])], "", false)
  {
    var f := fields[0];
    var others := JoinQuoted(fields[1..]);
    var tail := "," + others;
    AppendAssoc(Quoted(f), ",", others);
    ScanQuotedField(f, tail, cells);
    ScanComma(others, cells, f);
  }

  lemma {:induction false} ScanComma(rest: string, cells: seq<string>, current: string)
    ensures Scan("," + rest, cells, current, false) == Scan(rest, cells + [Trim(current)], "", false)
  {
    assert ("," + rest)[1..] == rest;
  }

  /** A quoted field followed by a comma or the end of the row is read as its
      content, with the quoted field closed again. */
  lemma {:induction false} ScanQuotedField(field: string, tail: string, cells: seq<string>)
    requires tail == [] || tail[0] == ','
    ensures Scan(Quoted(field) + tail, cells, "", false) == Scan(tail, cells, field, false)
  {
    var s := Quoted(field) + tail;
    var closing := "\"" + tail;
    AppendAssoc("\"" + Escape(field), "\"", tail);
    AppendAssoc("\"", Escape(field), closing);
    assert s[1..] == Escape(field) + closing;
    ScanEscaped(field, closing, cells, "");
    AppendEmpty(field);
    assert closing[1..] == tail;
  }

  /** A field that needs no quoting: it holds neither a comma nor a quote. */
  predicate Plain(field: string) {
    ',' !in field && '"' !in field
  }

  /** Plain fields separated by commas. */
  function JoinCommas(fields: seq<string>): string
    requires |fields| > 0
  {
    if |fields| == 1 then fields[0] else fields[0] + "," + JoinCommas(fields[1..])
  }

  /** Unquoted round trip: plain fields joined with commas tokenize back to the
      fields themselves, trimmed; fields already trimmed come back unchanged. */
  lemma {:induction false} UnquotedRoundTrip(fields: seq<string>)
    requires |fields| > 0
    requires forall k :: 0 <= k < |fields| ==> Plain(fields[k])
    ensures Cells(JoinCommas(fields)) == TrimAll(fields)
    ensures (forall k :: 0 <= k < |fields| ==> IsTrimmed(fields[k])) ==> Cells(JoinCommas(fields)) == fields
  {
    ScanJoinCommas(fields, []);
    assert [] + TrimAll(fields) == TrimAll(fields);
    if forall k :: 0 <= k < |fields| ==> IsTrimmed(fields[k]) {
      TrimAllTrimmed(fields);
    }
  }

  lemma {:induction false} ScanJoinCommas(fields: seq<string>, cells: seq<string>)
    requires |fields| > 0
    requires forall k :: 0 <= k < |fields| ==> Plain(fields[k])
    ensures Scan(JoinCommas(fields), cells, "", false) == cells + TrimAll(fields)
    decreases |fields|
  {
    var f := fields[0];
    assert Plain(f);
    if |fields| == 1 {
      ScanPlain(f, "", cells, "");
      AppendEmpty(f);
    } else {
      ScanFirstPlain(fields, cells);
      assert forall k :: 0 <= k < |fields[1..]| ==> fields[1..][k] == fields[k + 1];
      ScanJoinCommas(fields[1..], cells + [Trim(f)]);
      TrimAllCons(fields, cells);
    }
  }

  /** The first of several plain fields becomes a cell of its own. */
  lemma {:induction false} ScanFirstPlain(fields: seq<string>, cells: seq<string>)
    requires |fields| > 1 && Plain(fields[0])
    ensures Scan(JoinCommas(fields), cells, "", false) == Scan(JoinCommas(fields[1..]), cells + [Trim(fields[0])], "", false)
  {
    var f := fields[0];
    var others := JoinCommas(fields[1..]);
    AppendAssoc(f, ",", others);
    ScanPlain(f, "," + others, cells, "");
    AppendEmpty(f);
    ScanComma(others, cells, f);
  }

  /** Reading a plain field outside quotes appends exactly the field. */
  lemma {:induction false} ScanPlain(field: string, tail: string, cells: seq<string>, current: string)
    requires Plain(field)
    ensures Scan(field + tail, cells, current, false) == Scan(tail, cells, current + field, false)
    decreases |field|
  {
    if field == [] {
      AppendEmpty(tail);
      AppendEmpty(current);
    } else {
      HeadTail(field);
      AppendAssoc([field[0]], field[1..], tail);
      ScanPlain(field[1..], tail, cells, current + [field[0]]);
      AppendAssoc(current, [field[0]], field[1..]);
    }
  }

  /** Reading an escaped field inside quotes appends exactly the field. */
  lemma {:induction false} ScanEscaped(field: string, tail: string, cells: seq<string>, current: string)
    ensures Scan(Escape(field) + tail, cells, current, true) == Scan(tail, cells, current + field, true)
    decreases |field|
  {
    if field == [] {
      AppendEmpty(tail);
      AppendEmpty(current);
    } else {
      var c := field[0];
      var e := Escape(field[1..]);
      var piece := if c == '"' then "\"\"" else [c];
      ScanEscaped(field[1..], tail, cells, current + [c]);
      HeadTail(field);
      AppendAssoc(current, [c], field[1..]);
      assert Escape(field) == piece + e;
      AppendAssoc(piece, e, tail);
      if c == '"' {
        ScanDoubledQuote(e + tail, cells, current);
      } else {
        ScanQuotedChar(c, e + tail, cells, current);
      }
    }
  }

  /** Inside quotes `""` appends one quote. */
  lemma {:induction false} ScanDoubledQuote(rest: string, cells: seq<string>, current: string)
    ensures Scan("\"\"" + rest, cells, current, true) == Scan(rest, cells, current + "\"", true)
  {
    var s := "\"\"" + rest;
    assert s[0] == '"' && s[1] == '"' && s[2..] == rest;
  }

  /** Inside quotes any other character is content. */
  lemma {:induction false} ScanQuotedChar(c: char, rest: string, cells: seq<string>, current: string)
    requires c != '"'
    ensures Scan([c] + rest, cells, current, true) == Scan(rest, cells, current + [c], true)
  {
    assert ([c] + rest)[0] == c && ([c] + rest)[1..] == rest;
  }

  // ---------------------------------------------------------------------------
  // parseCSV

  predicate Odd(n: nat) {
    n % 2 == 1
  }

  /** The logical rows formed from the physical `lines` still to be read, given
      the accumulation `current` and whether a quoted field is open. Outside an
      open field a line with an even number of quotes is a row of its own and a
      line with an odd number opens an accumulation; inside one every line is
      appended after a line feed, and a line with an odd number of quotes closes
      it and emits the accumulated row. */
  function Group(lines: seq<string>, current: string, inQuotes: bool): seq<string>
    decreases |lines|
  {
    if lines == [] then []
    else if inQuotes then
      var joined := current + "\n" + lines[0];
      if Odd(QuoteCount(lines[0])) then [joined] + Group(lines[1..], "", false)
      else Group(lines[1..], joined, true)
    else if Odd(QuoteCount(lines[0])) then Group(lines[1..], lines[0], true)
    else [lines[0]] + Group(lines[1..], "", false)
  }

  /** The accumulation still open when the lines run out, which is never emitted. */
  function Pending(lines: seq<string>, current: string, inQuotes: bool): seq<string>
    decreases |lines|
  {
    if lines == [] then (if inQuotes then [current] else [])
    else if inQuotes then
      var joined := current + "\n" + lines[0];
      if Odd(QuoteCount(lines[0])) then Pending(lines[1..], "", false)
      else Pending(lines[1..], joined, true)
    else if Odd(QuoteCount(lines[0])) then Pending(lines[1..], lines[0], true)
    else Pending(lines[1..], "", false)
  }

  /** The logical rows of a whole text. */
  function LogicalRows(text: string): seq<string> {
    Group(SplitLines(text), "", false)
  }

  function CellsOf(rows: seq<string>): (r: seq<Row>)
    ensures |r| == |rows|
  {
    seq(|rows|, k requires 0 <= k < |rows| => Cells(rows[k]))
  }

  /** What `parseCSV(text)` returns. */
  function CsvRows(text: string): seq<Row> {
    CellsOf(LogicalRows(text))
  }

  /** `parseCSV(text)` */
  method ParseCsv(text: string) returns (rows: seq<Row>)
    ensures rows == CsvRows(text)
    ensures |rows| <= Count(text, '\n') + 1
  {
    var lines := SplitLines(text);
    rows := [];
    var current := "";
    var inQuotes := false;
    ghost var logical: seq<string> := [];
    var i := 0;
    while i < |lines|
      invariant 0 <= i <= |lines|
      invariant logical + Group(lines[i..], current, inQuotes) == Group(lines, "", false)
      invariant |rows| == |logical|
      invariant forall k :: 0 <= k < |rows| ==> rows[k] == Cells(logical[k])
    {
      var line := lines[i];
      assert lines[i..][0] == line && lines[i..][1..] == lines[i + 1..];
      ghost var later := Group(lines[i + 1..], "", false);
      if inQuotes {
        current := current + "\n" + line;
        if Odd(QuoteCount(line)) {
          inQuotes := false;
          AppendAssoc(logical, [current], later);
          var cells := ParseCsvRow(current);
          rows := rows + [cells];
          logical := logical + [current];
          current := "";
        }
      } else {
        if Odd(QuoteCount(line)) {
          inQuotes := true;
          current := line;
        } else {
          AppendAssoc(logical, [line], later);
          var cells := ParseCsvRow(line);
          rows := rows + [cells];
          logical := logical + [line];
        }
      }
      i := i + 1;
    }
    assert lines[i..] == [];
    GroupBound(lines, "", false);
  }

  /** Each physical line ends at most one logical row. */
  lemma {:induction false} GroupBound(lines: seq<string>, current: string, inQuotes: bool)
    ensures |Group(lines, current, inQuotes)| <= |lines|
    decreases |lines|
  {
    if lines != [] {
      GroupBound(lines[1..], if inQuotes then "" else lines[0], !inQuotes && Odd(QuoteCount(lines[0])));
      GroupBound(lines[1..], "", false);
      GroupBound(lines[1..], current + "\n" + lines[0], true);
    }
  }

  /** Every emitted logical row holds an even number of quote characters, so no
      row boundary falls inside an open quoted field; the accumulation dropped at
      the end, if any, holds an odd number. */
  lemma {:induction false} GroupBalanced(lines: seq<string>, current: string, inQuotes: bool)
    requires inQuotes ==> Odd(QuoteCount(current))
    ensures forall k :: 0 <= k < |Group(lines, current, inQuotes)| ==> !Odd(QuoteCount(Group(lines, current, inQuotes)[k]))
    ensures forall k :: 0 <= k < |Pending(lines, current, inQuotes)| ==> Odd(QuoteCount(Pending(lines, current, inQuotes)[k]))
    decreases |lines|
  {
    if lines != [] {
      var line := lines[0];
      if inQuotes {
        var joined := current + "\n" + line;
        CountAppend(current, "\n", '"');
        CountAppend(current + "\n", line, '"');
        if Odd(QuoteCount(line)) {
          GroupBalanced(lines[1..], "", false);
        } else {
          GroupBalanced(lines[1..], joined, true);
        }
      } else if Odd(QuoteCount(line)) {
        GroupBalanced(lines[1..], line, true);
      } else {
        GroupBalanced(lines[1..], "", false);
      }
    }
  }

  /** Grouping only re-joins physical lines: the emitted rows followed by the
      dropped accumulation, joined with line feeds, give back the lines (with the
      open accumulation in front when a field is open). */
  lemma {:induction false} GroupRejoins(lines: seq<string>, current: string, inQuotes: bool)
    ensures JoinLines(Group(lines, current, inQuotes) + Pending(lines, current, inQuotes))
         == (if inQuotes then JoinLines([current] + lines) else JoinLines(lines))
    ensures Group(lines, current, inQuotes) + Pending(lines, current, inQuotes) == [] <==> lines == [] && !inQuotes
    decreases |lines|
  {
    if lines != [] {
      var line := lines[0];
      var rest := lines[1..];
      assert lines == [line] + rest;
      var g := Group(rest, "", false);
      var p := Pending(rest, "", false);
      if inQuotes {
        var joined := current + "\n" + line;
        JoinMergeFirst(current, line, rest);
        if Odd(QuoteCount(line)) {
          GroupRejoins(rest, "", false);
          assert Group(lines, current, true) == [joined] + g;
          assert Pending(lines, current, true) == p;
          AppendAssoc([joined], g, p);
          JoinFirstSame(joined, g + p, rest);
        } else {
          GroupRejoins(rest, joined, true);
        }
      } else if Odd(QuoteCount(line)) {
        GroupRejoins(rest, line, true);
      } else {
        GroupRejoins(rest, "", false);
        assert Group(lines, current, false) == [line] + g;
        assert Pending(lines, current, false) == p;
        AppendAssoc([line], g, p);
        JoinFirstSame(line, g + p, rest);
      }
    }
  }

  /** Two line lists that join to the same text, and are empty together, still
      do so with the same first line put in front. */
  lemma {:induction false} JoinFirstSame(first: string, x: seq<string>, y: seq<string>)
    requires JoinLines(x) == JoinLines(y)
    requires x == [] <==> y == []
    ensures JoinLines([first] + x) == JoinLines([first] + y)
  {
    JoinLinesCons(first, x);
    JoinLinesCons(first, y);
  }

  /** Merging the first two lines with a line feed between them changes nothing. */
  lemma {:induction false} JoinMergeFirst(a: string, b: string, rest: seq<string>)
    ensures JoinLines([a + "\n" + b] + rest) == JoinLines([a] + ([b] + rest))
  {
    JoinLinesCons(a + "\n" + b, rest);
    JoinLinesCons(b, rest);
    JoinLinesCons(a, [b] + rest);
    if rest != [] {
      var t := JoinLines(rest);
      AppendAssoc(a + "\n" + b, "\n", t);
      AppendAssoc(a + "\n", b, "\n" + t);
      AppendAssoc(b, "\n", t);
    }
  }

  /** The logical rows of a text, followed by the accumulation left open at its
      end, joined with line feeds, are the text itself. */
  lemma {:induction false} TextRejoins(text: string)
    ensures JoinLines(LogicalRows(text) + Pending(SplitLines(text), "", false)) == text
  {
    GroupRejoins(SplitLines(text), "", false);
    JoinSplitLines(text);
  }

  // ---------------------------------------------------------------------------
  // Round trips through the whole of parseCSV

  /** Reading `t` from the quote state `from`, each `"` toggling it, ends in
      state `to`, and every line feed read stands inside a quoted field. */
  predicate BreaksQuoted(t: string, from: bool, to: bool)
    decreases |t|
  {
    if t == [] then from == to
    else (t[0] == '\n' ==> from) && BreaksQuoted(t[1..], if t[0] == '"' then !from else from, to)
  }

  /** The quote state after reading `t` from `from`. */
  function QuoteState(t: string, from: bool): bool
    decreases |t|
  {
    if t == [] then from else QuoteState(t[1..], if t[0] == '"' then !from else from)
  }

  /** Each quote toggles the state, so only the parity of their number counts. */
  lemma {:induction false} QuoteStateParity(t: string, from: bool)
    ensures QuoteState(t, from) == (from != Odd(QuoteCount(t)))
    decreases |t|
  {
    if t != [] {
      QuoteStateParity(t[1..], if t[0] == '"' then !from else from);
    }
  }

  lemma {:induction false} BreaksQuotedAppend(a: string, b: string, x: bool, y: bool, z: bool)
    requires BreaksQuoted(a, x, y) && BreaksQuoted(b, y, z)
    ensures BreaksQuoted(a + b, x, z)
    decreases |a|
  {
    if a == [] {
      assert a + b == b;
    } else {
      assert (a + b)[1..] == a[1..] + b;
      BreaksQuotedAppend(a[1..], b, if a[0] == '"' then !x else x, y, z);
    }
  }

  lemma {:induction false} BreaksQuotedSplit(a: string, b: string, x: bool, z: bool)
    requires BreaksQuoted(a + b, x, z)
    ensures BreaksQuoted(a, x, QuoteState(a, x)) && BreaksQuoted(b, QuoteState(a, x), z)
    decreases |a|
  {
    if a == [] {
      assert a + b == b;
    } else {
      assert (a + b)[1..] == a[1..] + b;
      BreaksQuotedSplit(a[1..], b, if a[0] == '"' then !x else x, z);
    }
  }

  /** The index of the first line feed of `t`, or `|t|` when there is none. */
  function FirstBreak(t: string): (k: nat)
    ensures k <= |t|
    ensures k < |t| ==> t[k] == '\n'
    ensures forall j :: 0 <= j < k ==> t[j] != '\n'
  {
    if t == [] || t[0] == '\n' then 0 else 1 + FirstBreak(t[1..])
  }

  /** Grouping the lines of a text whose line feeds all stand inside quoted
      fields, and which ends outside one, gives one logical row: the text
      itself, appended to the open accumulation when a field is open. The
      lines after it are grouped as if read from the start. */
  lemma {:induction false} GroupQuotedText(t: string, tail: seq<string>, current: string, inQuotes: bool)
    requires BreaksQuoted(t, inQuotes, false)
    ensures Group(SplitLines(t) + tail, current, inQuotes)
         == [if inQuotes then current + "\n" + t else t] + Group(tail, "", false)
    decreases |t|
  {
    var k := FirstBreak(t);
    if k == |t| {
      assert '\n' !in t;
      SplitLineWithoutBreak(t);
      assert t + [] == t;
      BreaksQuotedSplit(t, [], inQuotes, false);
      QuoteStateParity(t, inQuotes);
      assert ([t] + tail)[0] == t && ([t] + tail)[1..] == tail;
    } else {
      var line := t[..k];
      var rest := t[k + 1..];
      assert t == line + ("\n" + rest);
      assert '\n' !in line;
      BreaksQuotedSplit(line, "\n" + rest, inQuotes, false);
      var y := QuoteState(line, inQuotes);
      assert ("\n" + rest)[1..] == rest;
      assert y && BreaksQuoted(rest, true, false);
      QuoteStateParity(line, inQuotes);
      AppendAssoc(line, "\n", rest);
      SplitLineThenBreak(line, rest);
      var lines := SplitLines(t) + tail;
      AppendAssoc([line], SplitLines(rest), tail);
      assert lines[0] == line && lines[1..] == SplitLines(rest) + tail;
      if inQuotes {
        GroupQuotedText(rest, tail, current + "\n" + line, true);
        AppendAssoc(current + "\n" + line, "\n", rest);
        AppendAssoc(current + "\n", line, "\n" + rest);
        AppendAssoc(current, "\n", line + "\n" + rest);
      } else {
        GroupQuotedText(rest, tail, line, true);
      }
    }
  }

  /** The lines of `a`, a line feed and `b` are the lines of `a` followed by
      those of `b`. */
  lemma {:induction false} SplitLinesAppend(a: string, b: string)
    ensures SplitLines(a + "\n" + b) == SplitLines(a) + SplitLines(b)
    decreases |a|
  {
    if a == [] {
      assert a + "\n" + b == ['\n'] + b;
      SplitLinesNewline(b);
    } else {
      SplitLinesAppend(a[1..], b);
      HeadTail(a);
      SplitLinesAppendCons(a[0], a[1..], b);
    }
  }

  /** One step of `SplitLinesAppend`: a character in front of the left part. */
  lemma {:induction false} SplitLinesAppendCons(c: char, t: string, b: string)
    requires SplitLines(t + "\n" + b) == SplitLines(t) + SplitLines(b)
    ensures SplitLines([c] + t + "\n" + b) == SplitLines([c] + t) + SplitLines(b)
  {
    var x := t + "\n" + b;
    AppendAssoc([c], t, "\n");
    AppendAssoc([c], t + "\n", b);
    assert [c] + t + "\n" + b == [c] + x;
    if c == '\n' {
      SplitLinesNewline(x);
      SplitLinesNewline(t);
      AppendAssoc([""], SplitLines(t), SplitLines(b));
    } else {
      SplitLinesChar(c, x);
      SplitLinesChar(c, t);
      FirstLineAppend(c, SplitLines(t), SplitLines(b));
    }
  }

  /** A line feed in front starts an empty first line. */
  lemma {:induction false} SplitLinesNewline(t: string)
    ensures SplitLines(['\n'] + t) == [""] + SplitLines(t)
  {
    assert (['\n'] + t)[0] == '\n' && (['\n'] + t)[1..] == t;
  }

  /** Any other character in front joins the first line. */
  lemma {:induction false} SplitLinesChar(c: char, t: string)
    requires c != '\n'
    ensures SplitLines([c] + t) == [[c] + SplitLines(t)[0]] + SplitLines(t)[1..]
  {
    assert ([c] + t)[0] == c && ([c] + t)[1..] == t;
  }

  lemma {:induction false} FirstLineAppend(c: char, lt: seq<string>, lb: seq<string>)
    requires lt != []
    ensures [[c] + (lt + lb)[0]] + (lt + lb)[1..] == [[c] + lt[0]] + lt[1..] + lb
  {
    assert (lt + lb)[0] == lt[0] && (lt + lb)[1..] == lt[1..] + lb;
  }

  /** Rows that each end outside quotes and hold line feeds only inside quoted
      fields, joined with line feeds, group back into exactly those rows. */
  lemma {:induction false} GroupRows(rows: seq<string>)
    requires |rows| > 0
    requires forall k :: 0 <= k < |rows| ==> BreaksQuoted(rows[k], false, false)
    ensures LogicalRows(JoinLines(rows)) == rows
    decreases |rows|
  {
    var r := rows[0];
    var rest := rows[1..];
    assert rows == [r] + rest;
    JoinLinesCons(r, rest);
    if rest == [] {
      GroupQuotedText(r, [], "", false);
      assert SplitLines(r) + [] == SplitLines(r);
    } else {
      var u := JoinLines(rest);
      SplitLinesAppend(r, u);
      GroupQuotedText(r, SplitLines(u), "", false);
      GroupRows(rest);
    }
  }

  lemma {:induction false} EscapeInside(field: string)
    ensures BreaksQuoted(Escape(field), true, true)
    decreases |field|
  {
    if field != [] {
      EscapeInside(field[1..]);
      var piece := if field[0] == '"' then "\"\"" else [field[0]];
      assert piece == "\"\"" ==> piece[1..] == "\"" && piece[1..][1..] == [];
      assert BreaksQuoted(piece, true, true);
      BreaksQuotedAppend(piece, Escape(field[1..]), true, true, true);
    }
  }

  lemma {:induction false} QuotedBalanced(field: string)
    ensures BreaksQuoted(Quoted(field), false, false)
  {
    EscapeInside(field);
    assert "\""[1..] == [];
    BreaksQuotedAppend("\"", Escape(field), false, true, true);
    BreaksQuotedAppend("\"" + Escape(field), "\"", false, true, false);
  }

  lemma {:induction false} JoinQuotedBalanced(fields: seq<string>)
    requires |fields| > 0
    ensures BreaksQuoted(JoinQuoted(fields), false, false)
    decreases |fields|
  {
    QuotedBalanced(fields[0]);
    if |fields| > 1 {
      JoinQuotedBalanced(fields[1..]);
      assert ","[1..] == [];
      BreaksQuotedAppend(Quoted(fields[0]), ",", false, false, false);
      BreaksQuotedAppend(Quoted(fields[0]) + ",", JoinQuoted(fields[1..]), false, false, false);
    }
  }

  /** The fields of each row written in quoted form and joined with commas. */
  function QuotedLines(table: seq<seq<string>>): (lines: seq<string>)
    requires forall k :: 0 <= k < |table| ==> |table[k]| > 0
    ensures |lines| == |table|
  {
    seq(|table|, k requires 0 <= k < |table| => JoinQuoted(table[k]))
  }

  /** Every field of every row trimmed. */
  function TrimmedTable(table: seq<seq<string>>): (t: seq<Row>)
    ensures |t| == |table|
  {
    seq(|table|, k requires 0 <= k < |table| => TrimAll(table[k]))
  }

  /** Quote round trip through parseCSV: a table whose fields are written in
      quoted form, whatever commas, quotes or line feeds they hold, with rows
      joined by line feeds, parses back to its fields (trimmed). */
  lemma {:induction false} QuotedTableRoundTrip(table: seq<seq<string>>)
    requires |table| > 0
    requires forall k :: 0 <= k < |table| ==> |table[k]| > 0
    ensures CsvRows(JoinLines(QuotedLines(table))) == TrimmedTable(table)
  {
    var lines := QuotedLines(table);
    forall k | 0 <= k < |lines| ensures BreaksQuoted(lines[k], false, false) {
      JoinQuotedBalanced(table[k]);
    }
    GroupRows(lines);
    forall k | 0 <= k < |table| ensures Cells(lines[k]) == TrimAll(table[k]) {
      QuotedRoundTrip(table[k]);
    }
  }

  lemma {:induction false} PlainBalanced(field: string)
    requires Plain(field) && '\n' !in field
    ensures BreaksQuoted(field, false, false)
    decreases |field|
  {
    if field != [] {
      assert field[0] in field;
      assert forall c :: c in field[1..] ==> c in field;
      PlainBalanced(field[1..]);
    }
  }

  lemma {:induction false} JoinCommasBalanced(fields: seq<string>)
    requires |fields| > 0
    requires forall k :: 0 <= k < |fields| ==> Plain(fields[k]) && '\n' !in fields[k]
    ensures BreaksQuoted(JoinCommas(fields), false, false)
    decreases |fields|
  {
    PlainBalanced(fields[0]);
    if |fields| > 1 {
      JoinCommasBalanced(fields[1..]);
      assert ","[1..] == [];
      BreaksQuotedAppend(fields[0], ",", false, false, false);
      BreaksQuotedAppend(fields[0] + ",", JoinCommas(fields[1..]), false, false, false);
    }
  }

  /** The fields of each row joined with commas. */
  function PlainLines(table: seq<seq<string>>): (lines: seq<string>)
    requires forall k :: 0 <= k < |table| ==> |table[k]| > 0
    ensures |lines| == |table|
  {
    seq(|table|, k requires 0 <= k < |table| => JoinCommas(table[k]))
  }

  /** Unquoted round trip through parseCSV: a table of plain fields without
      line feeds, each row joined with commas and the rows with line feeds,
      parses back to its fields, trimmed, and unchanged when already trimmed. */
  lemma {:induction false} PlainTableRoundTrip(table: seq<seq<string>>)
    requires |table| > 0
    requires forall k :: 0 <= k < |table| ==> |table[k]| > 0
    requires forall k, j :: 0 <= k < |table| && 0 <= j < |table[k]| ==> Plain(table[k][j]) && '\n' !in table[k][j]
    ensures CsvRows(JoinLines(PlainLines(table))) == TrimmedTable(table)
    ensures (forall k, j :: 0 <= k < |table| && 0 <= j < |table[k]| ==> IsTrimmed(table[k][j]))
        ==> CsvRows(JoinLines(PlainLines(table))) == table
  {
    var lines := PlainLines(table);
    forall k | 0 <= k < |lines| ensures BreaksQuoted(lines[k], false, false) {
      JoinCommasBalanced(table[k]);
    }
    GroupRows(lines);
    forall k | 0 <= k < |table| ensures Cells(lines[k]) == TrimAll(table[k]) {
      UnquotedRoundTrip(table[k]);
    }
    if forall k, j :: 0 <= k < |table| && 0 <= j < |table[k]| ==> IsTrimmed(table[k][j]) {
      forall k | 0 <= k < |table| ensures TrimAll(table[k]) == table[k] {
        TrimAllTrimmed(table[k]);
      }
    }
  }
}
