/** The hand-written CSV reader `parseCSV` of scripts/fixImagePairs.mjs
    (repeated verbatim in scripts/checkMissingPairs.mjs): a character-level
    state machine with a quoting flag, doubled-quote escapes, comma cell
    separators and LF, CR or CRLF row terminators. */
module Csv {

  /** The reader's state: finished rows, the cells of the pending row, the
      pending cell, and whether the reader is inside quotes. */
  datatype ScanState = ScanState(rows: seq<seq<string>>, row: seq<string>, cell: string, inQuotes: bool)

  const Start: ScanState := ScanState([], [], "", false)

  /** The pending row holds something: a finished cell or text in the
      current cell. */
  predicate Pending(st: ScanState) {
    st.cell != "" || |st.row| > 0
  }

  /** A row terminator, or the end of the text: a pending row is finished,
      and nothing happens otherwise, so empty lines yield no row. */
  function EndRow(st: ScanState): (r: ScanState)
    ensures Pending(st) ==> r == ScanState(st.rows + [st.row + [st.cell]], [], "", st.inQuotes)
    ensures !Pending(st) ==> r == st
    ensures forall i :: |st.rows| <= i < |r.rows| ==> |r.rows[i]| >= 1 && r.rows[i] != [""]
  {
    if Pending(st) then
      var done := st.row + [st.cell];
      assert |done| >= 1 && done != [""] by {
        if |st.row| > 0 {
          assert |done| >= 2;
        } else {
          assert done[0] == st.cell;
        }
      }
      ScanState(st.rows + [done], [], "", st.inQuotes)
    else st
  }

  /** One step of the reader: the position after the characters it reads
      and the state after them. */
  datatype Move = Move(next: nat, state: ScanState)

  /** The step at position `i` of `text` from state `st`. `escapeAnywhere`
      selects the dialect: the source takes `""` as an escaped quote
      wherever it appears; the corrected reader only inside quotes. A
      doubled quote and CRLF are read as one step of two characters. */
  function Step(text: string, i: nat, st: ScanState, escapeAnywhere: bool): (m: Move)
    requires i < |text|
    ensures i < m.next <= |text|
    ensures m.state.rows == st.rows || m.state == EndRow(st)
  {
    var c := text[i];
    if c == '"' then
      if (escapeAnywhere || st.inQuotes) && i + 1 < |text| && text[i + 1] == '"' then
        Move(i + 2, st.(cell := st.cell + "\""))
      else Move(i + 1, st.(inQuotes := !st.inQuotes))
    else if c == ',' && !st.inQuotes then Move(i + 1, st.(row := st.row + [st.cell], cell := ""))
    else if (c == '\n' || c == '\r') && !st.inQuotes then
      Move(if c == '\r' && i + 1 < |text| && text[i + 1] == '\n' then i + 2 else i + 1, EndRow(st))
    else Move(i + 1, st.(cell := st.cell + [c]))
  }

  /** The rows the reader emits reading `text` from position `i` in state
      `st`; at the end of the text the pending row is finished. */
  function ScanFrom(text: string, i: nat, st: ScanState, escapeAnywhere: bool): seq<seq<string>>
    requires i <= |text|
    decreases |text| - i, 1
  {
    if i == |text| then EndRow(st).rows
    else ScanOn(text, i, st, escapeAnywhere)
  }

  /** Reading from a position that holds a character: one step, then the
      rest of the text. */
  function ScanOn(text: string, i: nat, st: ScanState, escapeAnywhere: bool): seq<seq<string>>
    requires i < |text|
    decreases |text| - i, 0
  {
    var m := Step(text, i, st, escapeAnywhere);
    ScanFrom(text, m.next, m.state, escapeAnywhere)
  }

  /** `parseCSV(text)` as written: a doubled quote is an escaped quote even
      outside quotes. */
  function ParseCsvAsWritten(text: string): seq<seq<string>> {
    ScanFrom(text, 0, Start, true)
  }

  /** The corrected reader: a doubled quote is an escaped quote only inside
      quotes, so `""` outside quotes is an empty quoted cell. */
  function ParseCsv(text: string): seq<seq<string>> {
    ScanFrom(text, 0, Start, false)
  }

  /** The reader only adds rows: the finished rows stay first, every row
      it adds has a cell, and none is the single empty cell. */
  lemma {:induction false} ScanAddsReadableRows(text: string, i: nat, st: ScanState, escapeAnywhere: bool)
    requires i <= |text|
    ensures var r := ScanFrom(text, i, st, escapeAnywhere);
      |st.rows| <= |r| && r[..|st.rows|] == st.rows &&
      forall k :: |st.rows| <= k < |r| ==> |r[k]| >= 1 && r[k] != [""]
    decreases |text| - i
  {
    if i < |text| {
      var m := Step(text, i, st, escapeAnywhere);
      ScanAddsReadableRows(text, m.next, m.state, escapeAnywhere);
      var r := ScanFrom(text, m.next, m.state, escapeAnywhere);
      assert r[..|st.rows|] == r[..|m.state.rows|][..|st.rows|];
    }
  }

  /** Unfolding the reader by one step whose outcome is known. */
  lemma ScanHead(text: string, i: nat, st: ScanState, escapeAnywhere: bool, m: Move)
    requires i < |text| && Step(text, i, st, escapeAnywhere) == m
    ensures m.next <= |text| && ScanFrom(text, i, st, escapeAnywhere) == ScanFrom(text, m.next, m.state, escapeAnywhere)
  {
  }

  /** The reader's outcome depends only on the text from its position on. */
  lemma {:induction false} ScanShift(text: string, j: nat, i: nat, st: ScanState, escapeAnywhere: bool)
    requires j <= i <= |text|
    ensures ScanFrom(text, i, st, escapeAnywhere) == ScanFrom(text[j..], i - j, st, escapeAnywhere)
    decreases |text| - i
  {
    if i < |text| {
      var m := Step(text, i, st, escapeAnywhere);
      var rest := text[j..];
      assert rest[i - j] == text[i];
      assert i + 1 < |text| ==> rest[i - j + 1] == text[i + 1];
      assert Step(rest, i - j, st, escapeAnywhere) == Move(m.next - j, m.state);
      ScanShift(text, j, m.next, m.state, escapeAnywhere);
    }
  }

  // ---------------------------------------------------------------------
  // Terminators

  /** Outside quotes, CRLF is one terminator, read like LF. */
  lemma CrlfIsOneTerminator(s: string, st: ScanState, escapeAnywhere: bool)
    requires !st.inQuotes
    ensures ScanFrom("\r\n" + s, 0, st, escapeAnywhere) == ScanFrom("\n" + s, 0, st, escapeAnywhere)
  {
    var crlf, lf := "\r\n" + s, "\n" + s;
    ScanHead(crlf, 0, st, escapeAnywhere, Move(2, EndRow(st)));
    ScanHead(lf, 0, st, escapeAnywhere, Move(1, EndRow(st)));
    ScanShift(crlf, 2, 2, EndRow(st), escapeAnywhere);
    ScanShift(lf, 1, 1, EndRow(st), escapeAnywhere);
    assert crlf[2..] == s == lf[1..];
  }

  /** An empty line at the start of a row yields no row. */
  lemma EmptyLineSkipped(s: string, st: ScanState, escapeAnywhere: bool)
    requires !st.inQuotes && st.cell == "" && st.row == []
    ensures ScanFrom("\n" + s, 0, st, escapeAnywhere) == ScanFrom(s, 0, st, escapeAnywhere)
  {
    var lf := "\n" + s;
    ScanHead(lf, 0, st, escapeAnywhere, Move(1, st));
    ScanShift(lf, 1, 1, st, escapeAnywhere);
    assert lf[1..] == s;
  }

  /** Inside quotes, commas and line breaks belong to the cell. */
  lemma QuotedSeparatorKept(c: char, s: string, st: ScanState, escapeAnywhere: bool)
    requires st.inQuotes && (c == ',' || c == '\n' || c == '\r')
    ensures ScanFrom([c] + s, 0, st, escapeAnywhere) == ScanFrom(s, 0, st.(cell := st.cell + [c]), escapeAnywhere)
  {
    var t := [c] + s;
    ScanHead(t, 0, st, escapeAnywhere, Move(1, st.(cell := st.cell + [c])));
    ScanShift(t, 1, 1, st.(cell := st.cell + [c]), escapeAnywhere);
    assert t[1..] == s;
  }

  // ---------------------------------------------------------------------
  // Writing rows in quoted form

  /** A cell's text with every quote doubled. */
  function EscapeCell(c: string): string {
    if |c| == 0 then "" else (if c[0] == '"' then "\"\"" else [c[0]]) + EscapeCell(c[1..])
  }

  /** A cell written in quotes. */
  function QuoteCell(c: string): string {
    "\"" + EscapeCell(c) + "\""
  }

  /** A row of quoted cells separated by commas. */
  function EncodeRow(cells: seq<string>): string
    requires |cells| >= 1
  {
    QuoteCell(cells[0]) + (if |cells| == 1 then "" else "," + EncodeRow(cells[1..]))
  }

  /** Rows written one per line, LF-separated. */
  function EncodeRows(rows: seq<seq<string>>): string
    requires forall i :: 0 <= i < |rows| ==> |rows[i]| >= 1
  {
    if |rows| == 0 then ""
    else EncodeRow(rows[0]) + (if |rows| == 1 then "" else "\n" + EncodeRows(rows[1..]))
  }

  /** Rows the reader can give back: each has a cell and is not the single
      empty cell (the reader never emits those). */
  predicate ReadableRows(rows: seq<seq<string>>) {
    forall i :: 0 <= i < |rows| ==> |rows[i]| >= 1 && rows[i] != [""]
  }

  /** A cell the dialect reads back from its quoted form: any cell for the
      corrected reader; for the source's reader, only a cell that is not
      empty and does not start with a quote. */
  predicate ReadableCell(c: string, escapeAnywhere: bool) {
    !escapeAnywhere || (|c| > 0 && c[0] != '"')
  }

  /** A piece of text that reads `a + b` reads `a` and then `b`. */
  lemma SliceParts(text: string, i: nat, a: string, b: string)
    requires i + |a| + |b| <= |text| && text[i..i + |a| + |b|] == a + b
    ensures text[i..i + |a|] == a && text[i + |a|..i + |a| + |b|] == b
  {
    assert text[i..i + |a|] == text[i..i + |a| + |b|][..|a|];
    assert text[i + |a|..i + |a| + |b|] == text[i..i + |a| + |b|][|a|..];
  }

  /** Inside quotes, an escaped cell text followed by the closing quote adds
      the cell text and leaves the quotes. */
  lemma {:induction false} EscapedTextScan(text: string, i: nat, c: string, st: ScanState, escapeAnywhere: bool)
    requires st.inQuotes
    requires i + |EscapeCell(c)| < |text| && text[i..i + |EscapeCell(c)|] == EscapeCell(c)
    requires text[i + |EscapeCell(c)|] == '"'
    requires i + |EscapeCell(c)| + 1 == |text| || text[i + |EscapeCell(c)| + 1] != '"'
    ensures ScanFrom(text, i, st, escapeAnywhere) ==
      ScanFrom(text, i + |EscapeCell(c)| + 1, st.(cell := st.cell + c, inQuotes := false), escapeAnywhere)
    decreases |c|
  {
    if |c| == 0 {
      ClosingQuoteStep(text, i, st, escapeAnywhere);
      assert st.cell + c == st.cell;
    } else {
      var k, st1 := EscapedHead(text, i, c, st, escapeAnywhere);
      EscapedTextScan(text, k, c[1..], st1, escapeAnywhere);
    }
  }

  /** Inside quotes, a quote not followed by another one closes the quotes. */
  lemma ClosingQuoteStep(text: string, i: nat, st: ScanState, escapeAnywhere: bool)
    requires st.inQuotes && i < |text| && text[i] == '"'
    requires i + 1 == |text| || text[i + 1] != '"'
    ensures ScanFrom(text, i, st, escapeAnywhere) == ScanFrom(text, i + 1, st.(inQuotes := false), escapeAnywhere)
  {
  }

  /** Inside quotes, the escaped first character of a cell text adds it to
      the pending cell; the rest of the escaped text follows at `k`. */
  lemma EscapedHead(text: string, i: nat, c: string, st: ScanState, escapeAnywhere: bool)
    returns (k: nat, st1: ScanState)
    requires st.inQuotes && |c| > 0
    requires i + |EscapeCell(c)| < |text| && text[i..i + |EscapeCell(c)|] == EscapeCell(c)
    ensures k + |EscapeCell(c[1..])| == i + |EscapeCell(c)|
    ensures text[k..k + |EscapeCell(c[1..])|] == EscapeCell(c[1..])
    ensures st1.inQuotes
    ensures st1.(cell := st1.cell + c[1..], inQuotes := false) == st.(cell := st.cell + c, inQuotes := false)
    ensures ScanFrom(text, i, st, escapeAnywhere) == ScanFrom(text, k, st1, escapeAnywhere)
  {
    var e0 := if c[0] == '"' then "\"\"" else [c[0]];
    var e1 := EscapeCell(c[1..]);
    assert EscapeCell(c) == e0 + e1;
    SliceParts(text, i, e0, e1);
    assert text[i] == e0[0] && (c[0] == '"' ==> text[i + 1] == '"') by {
      assert text[i..i + |e0|][0] == text[i];
      assert c[0] == '"' ==> text[i..i + |e0|][1] == text[i + 1];
    }
    k := i + |e0|;
    st1 := st.(cell := st.cell + [c[0]]);
    ScanHead(text, i, st, escapeAnywhere, Move(k, st1));
    assert st.cell + [c[0]] + c[1..] == st.cell + c;
  }

  /** Outside quotes, at the start of a cell, a quoted cell is read back as
      its text. */
  lemma QuotedCellScan(text: string, i: nat, c: string, st: ScanState, escapeAnywhere: bool)
    requires !st.inQuotes && st.cell == "" && ReadableCell(c, escapeAnywhere)
    requires i + |QuoteCell(c)| <= |text| && text[i..i + |QuoteCell(c)|] == QuoteCell(c)
    requires i + |QuoteCell(c)| == |text| || text[i + |QuoteCell(c)|] != '"'
    ensures ScanFrom(text, i, st, escapeAnywhere) == ScanFrom(text, i + |QuoteCell(c)|, st.(cell := c), escapeAnywhere)
  {
    QuotedParts(text, i, c, escapeAnywhere);
    var st1 := st.(inQuotes := true);
    OpeningQuoteStep(text, i, st, escapeAnywhere);
    EscapedTextScan(text, i + 1, c, st1, escapeAnywhere);
    assert st1.(cell := st1.cell + c, inQuotes := false) == st.(cell := c) by {
      assert "" + c == c;
    }
  }

  /** Where the parts of a quoted cell sit in the text: the opening quote,
      the escaped text, the closing quote. */
  lemma QuotedParts(text: string, i: nat, c: string, escapeAnywhere: bool)
    requires ReadableCell(c, escapeAnywhere)
    requires i + |QuoteCell(c)| <= |text| && text[i..i + |QuoteCell(c)|] == QuoteCell(c)
    ensures |QuoteCell(c)| == |EscapeCell(c)| + 2
    ensures text[i] == '"'
    ensures text[i + 1..i + 1 + |EscapeCell(c)|] == EscapeCell(c)
    ensures text[i + 1 + |EscapeCell(c)|] == '"'
    ensures escapeAnywhere ==> text[i + 1] != '"'
  {
    var e := EscapeCell(c);
    assert QuoteCell(c) == "\"" + (e + "\"");
    SliceParts(text, i, "\"", e + "\"");
    SliceParts(text, i + 1, e, "\"");
    assert text[i] == '"' by {
      assert text[i..i + 1][0] == text[i];
    }
    assert text[i + 1 + |e|] == '"' by {
      assert text[i + 1 + |e|..i + 1 + |e| + 1][0] == text[i + 1 + |e|];
    }
    if escapeAnywhere {
      assert e == [c[0]] + EscapeCell(c[1..]);
      assert text[i + 1] == c[0] by {
        assert text[i + 1..i + 1 + |e|][0] == text[i + 1];
      }
    }
  }

  /** Outside quotes, a quote opens them, unless the source's dialect sees
      two quotes in a row. */
  lemma OpeningQuoteStep(text: string, i: nat, st: ScanState, escapeAnywhere: bool)
    requires !st.inQuotes && i < |text| && text[i] == '"'
    requires escapeAnywhere ==> i + 1 < |text| && text[i + 1] != '"'
    ensures ScanFrom(text, i, st, escapeAnywhere) == ScanFrom(text, i + 1, st.(inQuotes := true), escapeAnywhere)
  {
  }

  /** Where a quoted row of two or more cells sits in the text: its first
      quoted cell, a comma, then the quoted rest of the row. */
  lemma RowParts(text: string, i: nat, cells: seq<string>)
    requires |cells| >= 2
    requires i + |EncodeRow(cells)| <= |text| && text[i..i + |EncodeRow(cells)|] == EncodeRow(cells)
    ensures var q := |QuoteCell(cells[0])|;
      && i + q + 1 + |EncodeRow(cells[1..])| == i + |EncodeRow(cells)|
      && text[i..i + q] == QuoteCell(cells[0])
      && text[i + q] == ','
      && text[i + q + 1..i + q + 1 + |EncodeRow(cells[1..])|] == EncodeRow(cells[1..])
  {
    var q := QuoteCell(cells[0]);
    var more := EncodeRow(cells[1..]);
    assert EncodeRow(cells) == q + ("," + more);
    SliceParts(text, i, q, "," + more);
    SliceParts(text, i + |q|, ",", more);
    assert text[i + |q|..i + |q| + 1][0] == text[i + |q|];
  }

  /** Outside quotes, a comma finishes the pending cell. */
  lemma CommaStep(text: string, i: nat, st: ScanState, escapeAnywhere: bool)
    requires i < |text| && text[i] == ',' && !st.inQuotes
    ensures ScanFrom(text, i, st, escapeAnywhere) ==
      ScanFrom(text, i + 1, st.(row := st.row + [st.cell], cell := ""), escapeAnywhere)
  {
  }

  /** Outside quotes, a line feed finishes the pending row. */
  lemma LineFeedStep(text: string, i: nat, st: ScanState, escapeAnywhere: bool)
    requires i < |text| && text[i] == '\n' && !st.inQuotes
    ensures ScanFrom(text, i, st, escapeAnywhere) == ScanFrom(text, i + 1, EndRow(st), escapeAnywhere)
  {
  }

  /** A quoted cell and a comma after it, at the start of a cell, move the
      cell into the pending row. */
  lemma CellThenComma(text: string, i: nat, c: string, st: ScanState, escapeAnywhere: bool)
    requires ReadableCell(c, escapeAnywhere)
    requires !st.inQuotes && st.cell == ""
    requires i + |QuoteCell(c)| < |text| && text[i..i + |QuoteCell(c)|] == QuoteCell(c)
    requires text[i + |QuoteCell(c)|] == ','
    ensures ScanFrom(text, i, st, escapeAnywhere) ==
      ScanFrom(text, i + |QuoteCell(c)| + 1, ScanState(st.rows, st.row + [c], "", false), escapeAnywhere)
  {
    var st1 := st.(cell := c);
    QuotedCellScan(text, i, c, st, escapeAnywhere);
    CommaStep(text, i + |QuoteCell(c)|, st1, escapeAnywhere);
    assert st1.(row := st1.row + [st1.cell], cell := "") == ScanState(st.rows, st.row + [c], "", false);
  }

  /** The state after a whole row, seen from the state after its first cell. */
  lemma RowTailState(st: ScanState, cells: seq<string>, st2: ScanState, fin: ScanState)
    requires |cells| >= 2
    requires st2 == ScanState(st.rows, st.row + [cells[0]], "", false)
    requires fin == ScanState(st.rows, st.row + cells[..|cells| - 1], cells[|cells| - 1], false)
    ensures var tail := cells[1..];
      fin == ScanState(st2.rows, st2.row + tail[..|tail| - 1], tail[|tail| - 1], false)
  {
    var tail := cells[1..];
    assert [cells[0]] + tail[..|tail| - 1] == cells[..|cells| - 1];
    assert st.row + [cells[0]] + tail[..|tail| - 1] == st.row + cells[..|cells| - 1];
  }

  /** A row of one quoted cell leaves that cell pending. */
  lemma SingleCellRow(text: string, i: nat, end: nat, cells: seq<string>, st: ScanState,
                      fin: ScanState, escapeAnywhere: bool)
    requires |cells| == 1 && ReadableCells(cells, escapeAnywhere)
    requires !st.inQuotes && st.cell == ""
    requires end == i + |EncodeRow(cells)| <= |text| && text[i..end] == EncodeRow(cells)
    requires end == |text| || text[end] == '\n'
    requires fin == ScanState(st.rows, st.row + cells[..|cells| - 1], cells[|cells| - 1], false)
    ensures ScanFrom(text, i, st, escapeAnywhere) == ScanFrom(text, end, fin, escapeAnywhere)
  {
    assert ReadableCell(cells[0], escapeAnywhere);
    assert end == i + |QuoteCell(cells[0])| by {
      assert EncodeRow(cells) == QuoteCell(cells[0]) + "";
    }
    QuotedCellScan(text, i, cells[0], st, escapeAnywhere);
    assert st.(cell := cells[0]) == fin by {
      assert st.row + cells[..0] == st.row;
    }
  }

  /** Every cell of a row is read back from its quoted form. */
  predicate ReadableCells(cells: seq<string>, escapeAnywhere: bool) {
    forall k :: 0 <= k < |cells| ==> ReadableCell(cells[k], escapeAnywhere)
  }

  /** A quoted row from `i` to `end`, followed by the end of the text or a
      line break, leaves all but its last cell in the pending row and the
      last one pending: the reader reaches `end` in state `fin`. */
  lemma {:induction false} RowScan(text: string, i: nat, end: nat, cells: seq<string>, st: ScanState,
                                   fin: ScanState, escapeAnywhere: bool)
    requires |cells| >= 1 && ReadableCells(cells, escapeAnywhere)
    requires !st.inQuotes && st.cell == ""
    requires end == i + |EncodeRow(cells)| <= |text| && text[i..end] == EncodeRow(cells)
    requires end == |text| || text[end] == '\n'
    requires fin == ScanState(st.rows, st.row + cells[..|cells| - 1], cells[|cells| - 1], false)
    ensures ScanFrom(text, i, st, escapeAnywhere) == ScanFrom(text, end, fin, escapeAnywhere)
    decreases |cells|
  {
    if |cells| == 1 {
      SingleCellRow(text, i, end, cells, st, fin, escapeAnywhere);
    } else {
      var j, st2 := RowHead(text, i, end, cells, st, fin, escapeAnywhere);
      RowScan(text, j, end, cells[1..], st2, fin, escapeAnywhere);
    }
  }

  /** The first quoted cell of a row of two or more and the comma after it
      move the cell into the pending row, in state `st2`; the rest of the
      row is written from `j` to `end`, and reading it from there leads to
      the same state `fin` as reading the whole row. */
  lemma RowHead(text: string, i: nat, end: nat, cells: seq<string>, st: ScanState, fin: ScanState,
                escapeAnywhere: bool)
    returns (j: nat, st2: ScanState)
    requires |cells| >= 2 && ReadableCells(cells, escapeAnywhere)
    requires !st.inQuotes && st.cell == ""
    requires end == i + |EncodeRow(cells)| <= |text| && text[i..end] == EncodeRow(cells)
    requires fin == ScanState(st.rows, st.row + cells[..|cells| - 1], cells[|cells| - 1], false)
    ensures !st2.inQuotes && st2.cell == "" && ReadableCells(cells[1..], escapeAnywhere)
    ensures end == j + |EncodeRow(cells[1..])| && text[j..end] == EncodeRow(cells[1..])
    ensures var tail := cells[1..];
      fin == ScanState(st2.rows, st2.row + tail[..|tail| - 1], tail[|tail| - 1], false)
    ensures ScanFrom(text, i, st, escapeAnywhere) == ScanFrom(text, j, st2, escapeAnywhere)
  {
    assert ReadableCell(cells[0], escapeAnywhere);
    st2 := ScanState(st.rows, st.row + [cells[0]], "", false);
    j := i + |QuoteCell(cells[0])| + 1;
    RowParts(text, i, cells);
    CellThenComma(text, i, cells[0], st, escapeAnywhere);
    RowTailState(st, cells, st2, fin);
    assert forall k :: 0 <= k < |cells| - 1 ==> cells[1..][k] == cells[k + 1];
  }

  /** Where the first of the written rows sits in the text, and what
      follows it. */
  lemma RowsParts(text: string, i: nat, rows: seq<seq<string>>)
    requires |rows| >= 1 && forall k :: 0 <= k < |rows| ==> |rows[k]| >= 1
    requires i <= |text| && text[i..] == EncodeRows(rows)
    ensures var end := i + |EncodeRow(rows[0])|;
      && end <= |text| && text[i..end] == EncodeRow(rows[0])
      && (|rows| == 1 ==> end == |text|)
      && (|rows| > 1 ==> end < |text| && text[end] == '\n' && text[end + 1..] == EncodeRows(rows[1..]))
  {
    var enc := EncodeRow(rows[0]);
    var tail := if |rows| == 1 then "" else "\n" + EncodeRows(rows[1..]);
    assert EncodeRows(rows) == enc + tail;
    assert text[i..i + |enc|] == text[i..][..|enc|];
    assert text[i + |enc|..] == text[i..][|enc|..];
    if |rows| > 1 {
      assert text[i + |enc|] == tail[0];
      assert text[i + |enc| + 1..] == tail[1..];
    }
  }

  /** The end of a row whose last cell is pending adds the row. */
  lemma LastCellEndsRow(rows: seq<seq<string>>, r: seq<string>)
    requires |r| >= 1 && r != [""]
    ensures EndRow(ScanState(rows, r[..|r| - 1], r[|r| - 1], false)) == ScanState(rows + [r], [], "", false)
  {
    assert r[..|r| - 1] + [r[|r| - 1]] == r;
    if |r| == 1 {
      assert r == [r[0]];
    }
  }

  /** Every row the reader can give back, each of whose cells the dialect
      reads back from its quoted form. */
  predicate ReadableTable(rows: seq<seq<string>>, escapeAnywhere: bool) {
    forall k :: 0 <= k < |rows| ==> ReadableRow(rows[k], escapeAnywhere)
  }

  predicate ReadableRow(r: seq<string>, escapeAnywhere: bool) {
    |r| >= 1 && r != [""] && ReadableCells(r, escapeAnywhere)
  }

  /** Reading written rows at the start of a row, after the finished rows
      `done`, appends them. */
  lemma {:induction false} RowsScan(text: string, i: nat, rows: seq<seq<string>>, done: seq<seq<string>>,
                                    escapeAnywhere: bool)
    requires ReadableTable(rows, escapeAnywhere)
    requires i <= |text| && text[i..] == EncodeRows(rows)
    ensures ScanFrom(text, i, ScanState(done, [], "", false), escapeAnywhere) == done + rows
    decreases |rows|
  {
    if |rows| == 0 {
      assert done + rows == done;
    } else if |rows| == 1 {
      LastRowScan(text, i, rows, done, escapeAnywhere);
    } else {
      var end := RowsCons(text, i, rows, done, escapeAnywhere);
      RowsScan(text, end + 1, rows[1..], done + [rows[0]], escapeAnywhere);
      assert done + [rows[0]] + rows[1..] == done + rows;
    }
  }

  /** The last written row ends the text and is added to the finished rows. */
  lemma LastRowScan(text: string, i: nat, rows: seq<seq<string>>, done: seq<seq<string>>, escapeAnywhere: bool)
    requires |rows| == 1 && ReadableTable(rows, escapeAnywhere)
    requires i <= |text| && text[i..] == EncodeRows(rows)
    ensures ScanFrom(text, i, ScanState(done, [], "", false), escapeAnywhere) == done + rows
  {
    RowsParts(text, i, rows);
    assert ReadableRow(rows[0], escapeAnywhere);
    FirstRowScan(text, i, i + |EncodeRow(rows[0])|, rows[0], done, escapeAnywhere);
    assert rows == [rows[0]];
  }

  /** A written row followed by more rows: reading it adds it to the finished
      rows and continues after the line break at `end`, where the remaining
      rows are written. */
  lemma RowsCons(text: string, i: nat, rows: seq<seq<string>>, done: seq<seq<string>>, escapeAnywhere: bool)
    returns (end: nat)
    requires |rows| >= 2 && ReadableTable(rows, escapeAnywhere)
    requires i <= |text| && text[i..] == EncodeRows(rows)
    ensures end < |text| && text[end + 1..] == EncodeRows(rows[1..])
    ensures ReadableTable(rows[1..], escapeAnywhere)
    ensures ScanFrom(text, i, ScanState(done, [], "", false), escapeAnywhere) ==
      ScanFrom(text, end + 1, ScanState(done + [rows[0]], [], "", false), escapeAnywhere)
  {
    RowsParts(text, i, rows);
    end := i + |EncodeRow(rows[0])|;
    assert ReadableRow(rows[0], escapeAnywhere);
    FirstRowScan(text, i, end, rows[0], done, escapeAnywhere);
    assert forall k :: 0 <= k < |rows| - 1 ==> rows[1..][k] == rows[k + 1];
  }

  /** A written row at the start of a row, followed by the end of the text
      or a line break, is added to the finished rows. */
  lemma FirstRowScan(text: string, i: nat, end: nat, r: seq<string>, done: seq<seq<string>>, escapeAnywhere: bool)
    requires ReadableRow(r, escapeAnywhere)
    requires end == i + |EncodeRow(r)| <= |text| && text[i..end] == EncodeRow(r)
    requires end == |text| || text[end] == '\n'
    ensures end == |text| ==>
      ScanFrom(text, i, ScanState(done, [], "", false), escapeAnywhere) == done + [r]
    ensures end < |text| ==>
      ScanFrom(text, i, ScanState(done, [], "", false), escapeAnywhere) ==
      ScanFrom(text, end + 1, ScanState(done + [r], [], "", false), escapeAnywhere)
  {
    var st := ScanState(done, [], "", false);
    var fin := ScanState(done, r[..|r| - 1], r[|r| - 1], false);
    assert st.row + r[..|r| - 1] == r[..|r| - 1];
    RowScan(text, i, end, r, st, fin, escapeAnywhere);
    LastCellEndsRow(done, r);
    if end < |text| {
      LineFeedStep(text, end, fin, escapeAnywhere);
    }
  }

  /** The corrected reader reads back every list of rows it can emit, from
      the fully quoted form: commas, line breaks and quotes inside cells,
      and empty cells, all survive. */
  lemma ParseCsvRoundTrip(rows: seq<seq<string>>)
    requires ReadableRows(rows)
    ensures ParseCsv(EncodeRows(rows)) == rows
  {
    var text := EncodeRows(rows);
    assert text[0..] == text;
    assert ReadableTable(rows, false) by {
      forall k | 0 <= k < |rows| ensures ReadableRow(rows[k], false) { }
    }
    RowsScan(text, 0, rows, [], false);
  }

  /** The source's reader reads back rows whose cells are not empty and do
      not start with a quote. */
  lemma ParseCsvAsWrittenRoundTrip(rows: seq<seq<string>>)
    requires ReadableRows(rows)
    requires forall i, j :: 0 <= i < |rows| && 0 <= j < |rows[i]| ==> ReadableCell(rows[i][j], true)
    ensures ParseCsvAsWritten(EncodeRows(rows)) == rows
  {
    var text := EncodeRows(rows);
    assert text[0..] == text;
    assert ReadableTable(rows, true) by {
      forall k | 0 <= k < |rows| ensures ReadableRow(rows[k], true) { }
    }
    RowsScan(text, 0, rows, [], true);
  }

  /** The quoted form of the row `a`, empty, `b`. */
  lemma EncodeExample()
    ensures EncodeRows([["a", "", "b"]]) == ExampleText
  {
    assert EncodeRow(["b"]) == "\"b\"";
    assert EncodeRow(["", "b"]) == "\"\",\"b\"";
  }

  /** The row `a`, empty, `b` in quoted form. */
  const ExampleText: string := "\"a\",\"\",\"b\""

  /** The source's reader on `"a","","b"`: the first cell reads as `a`... */
  lemma ExampleFirstCell()
    ensures ScanFrom(ExampleText, 0, Start, true) == ScanFrom(ExampleText, 3, ScanState([], [], "a", false), true)
  {
    assert QuoteCell("a") == ExampleText[0..3];
    QuotedCellScan(ExampleText, 0, "a", Start, true);
  }

  /** ...the comma ends it, and the two quotes of the empty cell read as an
      escaped quote... */
  lemma ExampleEmptyCell()
    ensures ScanFrom(ExampleText, 3, ScanState([], [], "a", false), true) ==
      ScanFrom(ExampleText, 7, ScanState([], ["a", "\""], "", false), true)
  {
    var st2 := ScanState([], ["a"], "", false);
    var st3 := ScanState([], ["a"], "\"", false);
    ScanHead(ExampleText, 3, ScanState([], [], "a", false), true, Move(4, st2));
    ScanHead(ExampleText, 4, st2, true, Move(6, st3));
    ScanHead(ExampleText, 6, st3, true, Move(7, ScanState([], ["a", "\""], "", false)));
  }

  /** ...and the last cell reads as `b`. */
  lemma ExampleLastCell()
    ensures ScanFrom(ExampleText, 7, ScanState([], ["a", "\""], "", false), true) == [["a", "\"", "b"]]
  {
    var st4 := ScanState([], ["a", "\""], "", false);
    assert QuoteCell("b") == ExampleText[7..10];
    QuotedCellScan(ExampleText, 7, "b", st4, true);
    assert ["a", "\""] + ["b"] == ["a", "\"", "b"];
  }

  /** The source's reader on `"a","","b"`. */
  lemma AsWrittenExample()
    ensures ParseCsvAsWritten(ExampleText) == [["a", "\"", "b"]]
  {
    ExampleFirstCell();
    ExampleEmptyCell();
    ExampleLastCell();
  }

  /** The source's reader reads the quoted empty cell of `"a","","b"` as a
      cell holding one quote, where the corrected reader gives the empty
      cell back. */
  lemma EmptyQuotedCellMisread()
    ensures EncodeRows([["a", "", "b"]]) == ExampleText
    ensures ParseCsvAsWritten(ExampleText) == [["a", "\"", "b"]]
    ensures ParseCsv(ExampleText) == [["a", "", "b"]]
  {
    EncodeExample();
    AsWrittenExample();
    ParseCsvRoundTrip([["a", "", "b"]]);
  }

  /** Without two adjacent quotes anywhere, the two dialects agree. */
  lemma {:induction false} DialectsAgree(text: string, i: nat, st: ScanState)
    requires i <= |text|
    requires forall k :: 0 <= k < |text| - 1 ==> !(text[k] == '"' && text[k + 1] == '"')
    ensures ScanFrom(text, i, st, true) == ScanFrom(text, i, st, false)
    decreases |text| - i
  {
    if i < |text| {
      var m := Step(text, i, st, false);
      assert Step(text, i, st, true) == m;
      DialectsAgree(text, m.next, m.state);
    }
  }
}
