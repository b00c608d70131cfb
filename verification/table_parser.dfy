/**
 * The table extractor, `CoordinateTableParser` in fetch_from_google_doc.py,
 * as a state machine folded over the event stream of an HTML tokenizer.
 *
 * The tokenizer itself is not modelled: its output is the input here, with
 * tag names already lower-cased and character references already decoded.
 * A self-closing tag such as `<td/>` arrives as a start event followed by an
 * end event, which is how the tokenizer reports it.
 */
module TableParser {
  import opened Text

  datatype Event = Start(tag: string) | End(tag: string) | Data(text: string)

  /**
   * The parser's fields.  `row` is the row being built and `rows` the rows
   * collected so far.  `handle_endtag` appends the current row's list object
   * to `rows`, and the parser keeps building into that same object until the next `<tr>`
   * opens a fresh one; `rowRecorded` says that the current row is that
   * already-collected object, so a cell finished now also lands in the
   * last collected row.
   */
  datatype State = State(
    inTable: bool,
    inRow: bool,
    inCell: bool,
    cell: string,
    row: seq<string>,
    rows: seq<seq<string>>,
    rowRecorded: bool)

  /** A freshly constructed parser. */
  const Initial: State := State(false, false, false, "", [], [], false)

  /**
   * `handle_starttag`: only `table`, `tr` inside a table and `td` inside a
   * row are recognised.  A start tag never collects a row, and any other tag,
   * `th` among them, changes nothing.
   */
  function StartTag(s: State, tag: string): (t: State)
    ensures t.rows == s.rows
    ensures t.cell == s.cell || (t.inCell && t.cell == "")
    ensures tag != "table" && tag != "tr" && tag != "td" ==> t == s
    ensures t.inTable <==> s.inTable || tag == "table"
  {
    if tag == "table" then s.(inTable := true)
    else if tag == "tr" && s.inTable then s.(inRow := true, row := [], rowRecorded := false)
    else if tag == "td" && s.inRow then s.(inCell := true, cell := "")
    else s
  }

  /**
   * `handle_endtag`.  An end tag never touches the cell buffer, and it adds a
   * row exactly when it is a `</tr>` that closes an open row with cells.
   */
  function EndTag(s: State, tag: string): (t: State)
    ensures t.cell == s.cell
    ensures |t.rows| == |s.rows| + (if tag == "tr" && s.inRow && |s.row| > 0 then 1 else 0)
    ensures tag != "td" && tag != "tr" && tag != "table" ==> t == s
    ensures t.inTable <==> s.inTable && tag != "table"
  {
    if tag == "td" && s.inCell then
      var row := s.row + [CellText(s.cell)];
      var rows := if s.rowRecorded && |s.rows| > 0 then s.rows[..|s.rows| - 1] + [row] else s.rows;
      s.(inCell := false, row := row, rows := rows)
    else if tag == "tr" && s.inRow then
      if |s.row| > 0 then s.(inRow := false, rows := s.rows + [s.row], rowRecorded := true)
      else s.(inRow := false)
    else if tag == "table" then s.(inTable := false)
    else s
  }

  /** `handle_data`: text counts only inside a cell, where it extends the buffer and touches nothing else. */
  function HandleData(s: State, text: string): (t: State)
    ensures t.rows == s.rows && t.row == s.row && s.cell <= t.cell
    ensures !s.inCell ==> t == s
  {
    if s.inCell then s.(cell := s.cell + text) else s
  }

  /** One event, dispatched to its handler: it adds a row only on a `</tr>` that closes an open row with cells. */
  function Step(s: State, e: Event): (t: State)
    ensures |s.rows| <= |t.rows| <= |s.rows| + 1
    ensures |t.rows| == |s.rows| + 1 <==> e == End("tr") && s.inRow && |s.row| > 0
  {
    match e
    case Start(tag) => StartTag(s, tag)
    case End(tag) => EndTag(s, tag)
    case Data(text) => HandleData(s, text)
  }

  /** Feeding a stream of events, in order: rows only accumulate, at most one per event. */
  function Feed(s: State, es: seq<Event>): (t: State)
    ensures |s.rows| <= |t.rows| <= |s.rows| + |es|
  {
    if |es| == 0 then s else Step(Feed(s, es[..|es| - 1]), es[|es| - 1])
  }

  /** The rows a fresh parser has collected after the whole stream. */
  function Parse(es: seq<Event>): (rows: seq<seq<string>>)
    ensures |rows| <= |es|
  {
    Feed(Initial, es).rows
  }

  // ---------------------------------------------------------------- invariant

  predicate AllClean(row: seq<string>) {
    forall j :: 0 <= j < |row| ==> IsCleanCell(row[j])
  }

  /**
   * What every reachable state satisfies: each collected row is non-empty and
   * made of finished cells, and a recorded current row is the last one collected.
   */
  predicate Valid(s: State) {
    && (forall i :: 0 <= i < |s.rows| ==> |s.rows[i]| > 0 && AllClean(s.rows[i]))
    && AllClean(s.row)
    && (s.rowRecorded ==> |s.rows| > 0 && s.rows[|s.rows| - 1] == s.row)
  }

  lemma StepKeepsValid(s: State, e: Event)
    requires Valid(s)
    ensures Valid(Step(s, e))
  {
    match e
    case Start(tag) =>
    case Data(text) =>
    case End(tag) =>
      if tag == "td" && s.inCell {
        FinishCellKeepsValid(s);
      } else if tag == "tr" && s.inRow && |s.row| > 0 {
        var t := Step(s, e);
        assert t.rows == s.rows + [s.row];
      }
  }

  lemma FinishCellKeepsValid(s: State)
    requires Valid(s) && s.inCell
    ensures Valid(EndTag(s, "td"))
  {
    var row := s.row + [CellText(s.cell)];
    var t := EndTag(s, "td");
    assert t.row == row && t.rowRecorded == s.rowRecorded;
    assert AllClean(row) by { AppendCleanCell(s.row, CellText(s.cell)); }
    if s.rowRecorded {
      assert t.rows == s.rows[..|s.rows| - 1] + [row];
      ReplaceLastRow(s.rows, row);
    } else {
      assert t.rows == s.rows;
    }
  }

  lemma AppendCleanCell(row: seq<string>, c: string)
    requires AllClean(row) && IsCleanCell(c)
    ensures AllClean(row + [c])
  {
    assert forall j :: 0 <= j < |row| ==> (row + [c])[j] == row[j];
  }

  lemma ReplaceLastRow(rows: seq<seq<string>>, row: seq<string>)
    requires |rows| > 0
    requires forall i :: 0 <= i < |rows| ==> |rows[i]| > 0 && AllClean(rows[i])
    requires |row| > 0 && AllClean(row)
    ensures var t := rows[..|rows| - 1] + [row];
      forall i :: 0 <= i < |t| ==> |t[i]| > 0 && AllClean(t[i])
  {
    var t := rows[..|rows| - 1] + [row];
    assert forall i :: 0 <= i < |rows| - 1 ==> t[i] == rows[i];
  }

  lemma {:induction false} FeedKeepsValid(s: State, es: seq<Event>)
    requires Valid(s)
    ensures Valid(Feed(s, es))
  {
    if |es| > 0 {
      FeedKeepsValid(s, es[..|es| - 1]);
      StepKeepsValid(Feed(s, es[..|es| - 1]), es[|es| - 1]);
    }
  }

  /** Every collected row has at least one cell, and every cell is a finished cell. */
  lemma ParsedRowsAreCleanAndNonEmpty(es: seq<Event>)
    ensures forall i :: 0 <= i < |Parse(es)| ==> |Parse(es)[i]| > 0 && AllClean(Parse(es)[i])
  {
    FeedKeepsValid(Initial, es);
  }

  // ---------------------------------------------------------------- single steps

  /** A text event touches nothing but the cell buffer, and that only inside a cell. */
  lemma DataOnlyExtendsBuffer(s: State, text: string)
    ensures var t := Step(s, Data(text));
      && t.inTable == s.inTable && t.inRow == s.inRow && t.inCell == s.inCell
      && t.row == s.row && t.rows == s.rows && t.rowRecorded == s.rowRecorded
      && t.cell == (if s.inCell then s.cell + text else s.cell)
  {
  }

  /** `</table>` clears the table flag and nothing else; an open row or cell stays open. */
  lemma EndTableOnlyLeavesTable(s: State)
    ensures Step(s, End("table")) == s.(inTable := false)
  {
  }

  /**
   * How one event changes the collected rows: the list grows by exactly the
   * current row on a `</tr>` that closes a non-empty row and at no other
   * event; rows before the last never change; and the last row changes only
   * when a cell still open after its `</tr>` is finished, which appends that
   * cell to it.
   */
  lemma StepRows(s: State, e: Event)
    requires Valid(s)
    ensures var t := Step(s, e);
      && (|t.rows| == |s.rows| + 1 <==> e == End("tr") && s.inRow && |s.row| > 0)
      && (|t.rows| == |s.rows| + 1 ==> t.rows == s.rows + [s.row])
      && (|t.rows| != |s.rows| + 1 ==> |t.rows| == |s.rows|)
      && (forall i :: 0 <= i < |s.rows| - 1 ==> t.rows[i] == s.rows[i])
      && (|s.rows| > 0 && t.rows[|s.rows| - 1] != s.rows[|s.rows| - 1] ==>
            && e == End("td") && s.inCell && s.rowRecorded
            && t.rows[|s.rows| - 1] == s.rows[|s.rows| - 1] + [CellText(s.cell)])
  {
    StepRowsGrowth(s, e);
    StepRowsKeepPrefix(s, e);
    if |s.rows| > 0 {
      StepRowsLast(s, e);
    }
  }

  lemma StepRowsGrowth(s: State, e: Event)
    ensures var t := Step(s, e);
      && (|t.rows| == |s.rows| + 1 <==> e == End("tr") && s.inRow && |s.row| > 0)
      && (|t.rows| == |s.rows| + 1 ==> t.rows == s.rows + [s.row])
      && (|t.rows| != |s.rows| + 1 ==> |t.rows| == |s.rows|)
  {
  }

  lemma StepRowsKeepPrefix(s: State, e: Event)
    ensures |Step(s, e).rows| >= |s.rows|
    ensures forall i :: 0 <= i < |s.rows| - 1 ==> Step(s, e).rows[i] == s.rows[i]
  {
    StepRowsGrowth(s, e);
  }

  lemma StepRowsLast(s: State, e: Event)
    requires Valid(s)
    requires |s.rows| > 0
    ensures |Step(s, e).rows| >= |s.rows|
    ensures Step(s, e).rows[|s.rows| - 1] != s.rows[|s.rows| - 1] ==>
              && e == End("td") && s.inCell && s.rowRecorded
              && Step(s, e).rows[|s.rows| - 1] == s.rows[|s.rows| - 1] + [CellText(s.cell)]
  {
    StepRowsGrowth(s, e);
    var n := |s.rows|;
    if e == End("td") && s.inCell && s.rowRecorded {
      assert Step(s, e).rows == s.rows[..n - 1] + [s.row + [CellText(s.cell)]];
    } else if e == End("tr") && s.inRow && |s.row| > 0 {
      assert Step(s, e).rows == s.rows + [s.row];
    } else {
      assert Step(s, e).rows == s.rows;
    }
  }

  /** Across any stream, rows are only ever added, and every row but the last collected stays as it was. */
  lemma {:induction false} FeedRows(s: State, es: seq<Event>)
    requires Valid(s)
    ensures |Feed(s, es).rows| >= |s.rows|
    ensures forall i :: 0 <= i < |s.rows| - 1 ==> Feed(s, es).rows[i] == s.rows[i]
  {
    if |es| > 0 {
      var before := Feed(s, es[..|es| - 1]);
      FeedRows(s, es[..|es| - 1]);
      FeedKeepsValid(s, es[..|es| - 1]);
      StepRows(before, es[|es| - 1]);
    }
  }

  // ---------------------------------------------------------------- no table

  predicate NoTableStart(es: seq<Event>) {
    forall i :: 0 <= i < |es| ==> es[i] != Start("table")
  }

  /** Outside any table: no row is open and nothing has been collected. */
  predicate Idle(s: State) {
    !s.inTable && !s.inRow && s.rows == []
  }

  lemma {:induction false} FeedStaysIdle(s: State, es: seq<Event>)
    requires Idle(s) && NoTableStart(es)
    ensures Idle(Feed(s, es))
  {
    if |es| > 0 {
      FeedStaysIdle(s, es[..|es| - 1]);
      assert es[|es| - 1] != Start("table");
    }
  }

  /** A document with no `<table>` yields no rows. */
  lemma NoTableNoRows(es: seq<Event>)
    requires NoTableStart(es)
    ensures Parse(es) == []
  {
    FeedStaysIdle(Initial, es);
  }

  // ---------------------------------------------------------------- writing tables as events

  lemma {:induction false} FeedAppend(s: State, a: seq<Event>, b: seq<Event>)
    ensures Feed(s, a + b) == Feed(Feed(s, a), b)
  {
    if |b| > 0 {
      var front, e := b[..|b| - 1], b[|b| - 1];
      assert (a + b)[..|a + b| - 1] == a + front && (a + b)[|a + b| - 1] == e;
      calc {
        Feed(s, a + b);
        Step(Feed(s, a + front), e);
        { FeedAppend(s, a, front); }
        Step(Feed(Feed(s, a), front), e);
        Feed(Feed(s, a), b);
      }
    } else {
      assert a + b == a;
    }
  }

  lemma FeedOne(s: State, e: Event)
    ensures Feed(s, [e]) == Step(s, e)
  {
    assert [e][..0] == [];
  }

  lemma FeedThree(s: State, e1: Event, e2: Event, e3: Event)
    ensures Feed(s, [e1, e2, e3]) == Step(Step(Step(s, e1), e2), e3)
  {
    assert [e1, e2, e3][..2] == [e1, e2];
    assert [e1, e2][..1] == [e1];
    FeedOne(s, e1);
  }

  /** One `<td>` per given text, in order. */
  function CellEvents(cells: seq<string>): seq<Event> {
    if |cells| == 0 then []
    else CellEvents(cells[..|cells| - 1]) + [Start("td"), Data(cells[|cells| - 1]), End("td")]
  }

  /** One `<tr>` holding one `<td>` per given text. */
  function RowEvents(cells: seq<string>): seq<Event> {
    [Start("tr")] + CellEvents(cells) + [End("tr")]
  }

  /** A whole table of rows. */
  function TableEvents(rows: seq<seq<string>>): seq<Event> {
    [Start("table")] + RowsEvents(rows) + [End("table")]
  }

  function RowsEvents(rows: seq<seq<string>>): seq<Event> {
    if |rows| == 0 then [] else RowsEvents(rows[..|rows| - 1]) + RowEvents(rows[|rows| - 1])
  }

  /** Each text replaced by the cell it becomes. */
  function Normalized(cells: seq<string>): (r: seq<string>)
    ensures |r| == |cells|
  {
    if |cells| == 0 then [] else Normalized(cells[..|cells| - 1]) + [CellText(cells[|cells| - 1])]
  }

  lemma {:induction false} CleanCellsNormalizeToThemselves(cells: seq<string>)
    requires AllClean(cells)
    ensures Normalized(cells) == cells
  {
    if |cells| > 0 {
      var front := cells[..|cells| - 1];
      var last := cells[|cells| - 1];
      assert Normalized(front) == front by {
        FrontClean(cells);
        CleanCellsNormalizeToThemselves(front);
      }
      assert CellText(last) == last by {
        FrontClean(cells);
        CleanCellIsFixed(last);
      }
      assert Normalized(cells) == front + [last];
      SplitLast(cells);
    }
  }

  lemma SplitLast<T>(s: seq<T>)
    requires |s| > 0
    ensures s[..|s| - 1] + [s[|s| - 1]] == s
  {
  }

  lemma FrontClean(cells: seq<string>)
    requires |cells| > 0 && AllClean(cells)
    ensures AllClean(cells[..|cells| - 1]) && IsCleanCell(cells[|cells| - 1])
  {
    var front := cells[..|cells| - 1];
    assert forall j :: 0 <= j < |front| ==> front[j] == cells[j];
  }

  /** Inside an open row, `<td>text</td>` appends the normalised text and changes nothing else that matters. */
  lemma FeedCell(s: State, c: string)
    requires s.inRow && !s.inCell && !s.rowRecorded
    ensures Feed(s, [Start("td"), Data(c), End("td")]) == s.(cell := c, row := s.row + [CellText(c)])
  {
    FeedThree(s, Start("td"), Data(c), End("td"));
    var m1 := Step(s, Start("td"));
    assert m1 == s.(inCell := true, cell := "");
    var m2 := Step(m1, Data(c));
    assert m2 == s.(inCell := true, cell := c);
    assert Step(m2, End("td")) == s.(cell := c, row := s.row + [CellText(c)]);
  }

  /** Inside an open row, each `<td>text</td>` appends the normalised text to the row. */
  lemma {:induction false} FeedCells(s: State, cells: seq<string>)
    requires s.inRow && !s.inCell && !s.rowRecorded
    ensures Feed(s, CellEvents(cells)).(cell := s.cell) == s.(row := s.row + Normalized(cells))
  {
    if |cells| == 0 {
      assert Feed(s, []) == s;
      assert s.row + [] == s.row;
    } else {
      var front := cells[..|cells| - 1];
      var c := cells[|cells| - 1];
      var m := Feed(s, CellEvents(front));
      var t := Feed(s, CellEvents(cells));
      assert m.(cell := s.cell) == s.(row := s.row + Normalized(front)) by {
        FeedCells(s, front);
      }
      assert t == m.(cell := c, row := m.row + [CellText(c)]) by {
        FeedAppend(s, CellEvents(front), [Start("td"), Data(c), End("td")]);
        FeedCell(m, c);
      }
      assert s.row + Normalized(cells) == s.row + Normalized(front) + [CellText(c)];
    }
  }

  /** Inside a table, a `<tr>` of `<td>` cells is collected with its cells normalised, unless it is empty. */
  lemma FeedRow(s: State, cells: seq<string>)
    requires s.inTable && !s.inCell
    ensures var t := Feed(s, RowEvents(cells));
      && t.inTable && !t.inRow && !t.inCell
      && t.rows == s.rows + (if |cells| > 0 then [Normalized(cells)] else [])
  {
    var open := Step(s, Start("tr"));
    assert open == s.(inRow := true, row := [], rowRecorded := false);
    FeedOne(s, Start("tr"));
    FeedCells(open, cells);
    FeedAppend(s, [Start("tr")], CellEvents(cells));
    var full := Feed(open, CellEvents(cells));
    assert full.row == Normalized(cells) && full.inRow && !full.inCell && full.rows == s.rows;
    FeedAppend(s, [Start("tr")] + CellEvents(cells), [End("tr")]);
    FeedOne(full, End("tr"));
  }

  /**
   * An omitted `</td>` is not filled in: the next `<td>` empties the buffer,
   * so the text of the unclosed cell is lost.
   */
  lemma UnclosedCellIsLost(s: State, a: string, b: string)
    requires s.inRow && !s.inCell
    ensures Feed(s, [Start("td"), Data(a), Start("td"), Data(b), End("td")]).row == s.row + [CellText(b)]
  {
    var m := Step(Step(s, Start("td")), Data(a));
    assert Feed(s, [Start("td"), Data(a)]) == m by {
      FeedAppend(s, [Start("td")], [Data(a)]);
      FeedOne(s, Start("td"));
      FeedOne(Step(s, Start("td")), Data(a));
      assert [Start("td")] + [Data(a)] == [Start("td"), Data(a)];
    }
    assert m.inRow && m.row == s.row;
    FeedAppend(s, [Start("td"), Data(a)], [Start("td"), Data(b), End("td")]);
    assert [Start("td"), Data(a)] + [Start("td"), Data(b), End("td")]
        == [Start("td"), Data(a), Start("td"), Data(b), End("td")];
    FeedThree(m, Start("td"), Data(b), End("td"));
    var m1 := Step(m, Start("td"));
    assert m1.inCell && m1.cell == "" && m1.row == s.row;
    assert Step(m1, Data(b)).cell == b;
  }

  /**
   * An omitted `</tr>` is not filled in either: a row of cells followed by
   * the next `<tr>` or by `</table>` is never collected.
   */
  lemma UnclosedRowIsLost(s: State, cells: seq<string>, next: Event)
    requires s.inTable && !s.inCell
    requires next == Start("tr") || next == End("table")
    ensures Feed(s, [Start("tr")] + CellEvents(cells) + [next]).rows == s.rows
  {
    var open := Step(s, Start("tr"));
    FeedOne(s, Start("tr"));
    FeedCells(open, cells);
    FeedAppend(s, [Start("tr")], CellEvents(cells));
    var full := Feed(open, CellEvents(cells));
    assert full.rows == s.rows;
    FeedAppend(s, [Start("tr")] + CellEvents(cells), [next]);
    FeedOne(full, next);
  }

  lemma {:induction false} FeedRowsOfTable(s: State, rows: seq<seq<string>>)
    requires s.inTable && !s.inCell
    ensures var t := Feed(s, RowsEvents(rows));
      && t.inTable && !t.inCell
      && t.rows == s.rows + NonEmptyNormalized(rows)
  {
    if |rows| > 0 {
      var front, last := rows[..|rows| - 1], rows[|rows| - 1];
      var m := Feed(s, RowsEvents(front));
      assert m.inTable && !m.inCell && m.rows == s.rows + NonEmptyNormalized(front) by {
        FeedRowsOfTable(s, front);
      }
      assert Feed(s, RowsEvents(rows)) == Feed(m, RowEvents(last)) by {
        FeedAppend(s, RowsEvents(front), RowEvents(last));
      }
      var t := Feed(s, RowsEvents(rows));
      var extra := if |last| > 0 then [Normalized(last)] else [];
      assert t.inTable && !t.inCell && t.rows == m.rows + extra by {
        FeedRow(m, last);
      }
      assert NonEmptyNormalized(rows) == NonEmptyNormalized(front) + extra;
      AppendAssoc(s.rows, NonEmptyNormalized(front), extra);
    } else {
      assert Feed(s, []) == s;
    }
  }

  lemma AppendAssoc<T>(a: seq<T>, b: seq<T>, c: seq<T>)
    ensures (a + b) + c == a + (b + c)
  {
  }

  /** What a table of `<td>` rows should yield: its non-empty rows, cells normalised. */
  function NonEmptyNormalized(rows: seq<seq<string>>): seq<seq<string>> {
    if |rows| == 0 then []
    else
      var last := rows[|rows| - 1];
      NonEmptyNormalized(rows[..|rows| - 1]) + (if |last| > 0 then [Normalized(last)] else [])
  }

  /** A table's rows are added to whatever was collected before, wherever it appears in the document. */
  lemma FeedTable(s: State, rows: seq<seq<string>>)
    requires !s.inCell
    ensures !Feed(s, TableEvents(rows)).inCell
    ensures Feed(s, TableEvents(rows)).rows == s.rows + NonEmptyNormalized(rows)
  {
    var open := Step(s, Start("table"));
    FeedOne(s, Start("table"));
    FeedRowsOfTable(open, rows);
    FeedAppend(s, [Start("table")], RowsEvents(rows));
    FeedAppend(s, [Start("table")] + RowsEvents(rows), [End("table")]);
    FeedOne(Feed(open, RowsEvents(rows)), End("table"));
  }

  /** A table written as `<tr>`/`<td>` events parses back to its non-empty rows, cells normalised. */
  lemma ParseTable(rows: seq<seq<string>>)
    ensures Parse(TableEvents(rows)) == NonEmptyNormalized(rows)
  {
    FeedTable(Initial, rows);
    assert [] + NonEmptyNormalized(rows) == NonEmptyNormalized(rows);
  }

  /**
   * `</table>` does not end extraction: the rows of every table in the
   * document are collected, one table after the other.
   */
  lemma EveryTableIsCollected(first: seq<seq<string>>, second: seq<seq<string>>)
    ensures Parse(TableEvents(first) + TableEvents(second))
         == NonEmptyNormalized(first) + NonEmptyNormalized(second)
  {
    ParseTable(first);
    var mid := Feed(Initial, TableEvents(first));
    FeedTable(Initial, first);
    FeedTable(mid, second);
    FeedAppend(Initial, TableEvents(first), TableEvents(second));
  }

  /** Rows that are already non-empty and made of finished cells survive the round trip unchanged. */
  lemma {:induction false} ParseTableRoundTrip(rows: seq<seq<string>>)
    requires forall i :: 0 <= i < |rows| ==> |rows[i]| > 0 && AllClean(rows[i])
    ensures Parse(TableEvents(rows)) == rows
  {
    ParseTable(rows);
    CleanRowsNormalizeToThemselves(rows);
  }

  lemma {:induction false} CleanRowsNormalizeToThemselves(rows: seq<seq<string>>)
    requires forall i :: 0 <= i < |rows| ==> |rows[i]| > 0 && AllClean(rows[i])
    ensures NonEmptyNormalized(rows) == rows
  {
    if |rows| > 0 {
      var front, last := rows[..|rows| - 1], rows[|rows| - 1];
      assert NonEmptyNormalized(front) == front by {
        assert forall i :: 0 <= i < |front| ==> front[i] == rows[i];
        CleanRowsNormalizeToThemselves(front);
      }
      assert Normalized(last) == last by {
        CleanCellsNormalizeToThemselves(last);
      }
      assert front + [last] == rows;
    }
  }

  // ---------------------------------------------------------------- header cells

  /** One `<th>` per given text. */
  function HeaderCellEvents(cells: seq<string>): seq<Event> {
    if |cells| == 0 then []
    else HeaderCellEvents(cells[..|cells| - 1]) + [Start("th"), Data(cells[|cells| - 1]), End("th")]
  }

  /** `<th>` is not a recognised tag: its events leave a parser that is not inside a cell untouched. */
  lemma {:induction false} HeaderCellsChangeNothing(s: State, cells: seq<string>)
    requires !s.inCell
    ensures Feed(s, HeaderCellEvents(cells)) == s
  {
    if |cells| == 0 {
      assert Feed(s, []) == s;
    } else {
      var front := cells[..|cells| - 1];
      HeaderCellsChangeNothing(s, front);
      FeedAppend(s, HeaderCellEvents(front), [Start("th"), Data(cells[|cells| - 1]), End("th")]);
      FeedThree(s, Start("th"), Data(cells[|cells| - 1]), End("th"));
    }
  }

  /**
   * A header row built from `<th>` cells collects no cells, so it is dropped
   * as an empty row: the first row collected is the first `<td>` row.
   */
  lemma HeaderRowIsDropped(header: seq<string>, rows: seq<seq<string>>)
    ensures Parse([Start("table"), Start("tr")] + HeaderCellEvents(header) + [End("tr")] + RowsEvents(rows))
         == NonEmptyNormalized(rows)
  {
    var s1 := Step(Step(Initial, Start("table")), Start("tr"));
    assert Feed(Initial, [Start("table"), Start("tr")]) == s1 by {
      assert [Start("table"), Start("tr")][..1] == [Start("table")];
      FeedOne(Initial, Start("table"));
    }
    HeaderCellsChangeNothing(s1, header);
    FeedAppend(Initial, [Start("table"), Start("tr")], HeaderCellEvents(header));
    var pre := [Start("table"), Start("tr")] + HeaderCellEvents(header);
    FeedAppend(Initial, pre, [End("tr")]);
    FeedOne(s1, End("tr"));
    var s2 := Step(s1, End("tr"));
    assert s2.rows == [] && s2.inTable && !s2.inCell;
    FeedRowsOfTable(s2, rows);
    FeedAppend(Initial, pre + [End("tr")], RowsEvents(rows));
  }

  // ---------------------------------------------------------------- a cell left open

  /**
   * The collected row and the row being built are one and the same list:
   * a `<td>` still open at `</tr>` is finished later into the row that was
   * already collected, although the row was collected without it.
   */
  lemma CellClosedAfterRowEndJoinsCollectedRow(s: State, c: string)
    requires s.inRow && !s.inCell && |s.row| > 0
    ensures Feed(s, [Start("td"), Data(c), End("tr")]).rows == s.rows + [s.row]
    ensures Feed(s, [Start("td"), Data(c), End("tr"), End("td")]).rows == s.rows + [s.row + [CellText(c)]]
  {
    var es := [Start("td"), Data(c), End("tr")];
    FeedThree(s, Start("td"), Data(c), End("tr"));
    var t := s.(inRow := false, inCell := true, cell := c, rows := s.rows + [s.row], rowRecorded := true);
    assert Feed(s, es) == t;
    FeedAppend(s, es, [End("td")]);
    FeedOne(t, End("td"));
    LateCellStep(t);
    assert es + [End("td")] == [Start("td"), Data(c), End("tr"), End("td")];
  }

  lemma LateCellStep(t: State)
    requires t.inCell && t.rowRecorded && |t.rows| > 0
    ensures Step(t, End("td")).rows == t.rows[..|t.rows| - 1] + [t.row + [CellText(t.cell)]]
  {
    var row := t.row + [CellText(t.cell)];
    assert Step(t, End("td")) == EndTag(t, "td");
    assert EndTag(t, "td").rows == t.rows[..|t.rows| - 1] + [row];
  }
}
