/**
 * Filling one amortization row by position: column 0 gets `str(values[0])`,
 * columns 1 to 3 get `f"{float(values[k]):,.2f}"`; when any of these
 * raises, cell 0 is overwritten with "ERROR" and the cells already written
 * keep their text.
 */
module Rows {
  import opened Wrappers
  import opened Json
  import opened Numbers
  import opened Coercion
  import opened Docx

  /** The number of positional columns the row code writes. */
  const Columns := 4

  /** The text computed for column `k`; None where Python raises (a missing value, or float() failing). */
  function CellText(k: nat, values: seq<Json>): (r: Option<string>)
    ensures r.Some? <==> Computes(k, values)
  {
    if k >= |values| then None
    else if k == 0 then Some(PyStr(values[0]))
    else
      match ToFloat(values[k])
      case None => None
      case Some(x) => Some(FormatFixed2(x))
  }

  /** The texts of the four columns, in statement order. */
  function Texts(values: seq<Json>): (r: seq<Option<string>>)
    ensures |r| == Columns && forall k :: 0 <= k < Columns ==> r[k] == CellText(k, values)
  {
    seq(Columns, (k: nat) => CellText(k, values))
  }

  /** One statement `row_cells[k].text = t`: the text is computed first, then cell `k` must exist. */
  function WriteCell(row: seq<string>, k: nat, t: Option<string>): (r: Option<seq<string>>)
    ensures r.Some? <==> t.Some? && k < |row|
    ensures r.Some? ==> r.value == row[k := t.value]
  {
    match t
    case None => None
    case Some(text) => if k < |row| then Some(row[k := text]) else None
  }

  /** The try block from statement `k` on: the row it leaves, and whether every statement completed. */
  function TryCells(row: seq<string>, texts: seq<Option<string>>, k: nat): (seq<string>, bool)
    requires k <= Columns == |texts|
    decreases Columns - k
  {
    if k == Columns then (row, true)
    else
      match WriteCell(row, k, texts[k])
      case None => (row, false)
      case Some(next) => TryCells(next, texts, k + 1)
  }

  /**
   * The finished row for `width` columns: the row the try block left, or,
   * when it raised, that row with cell 0 set to "ERROR"; None when even
   * that write raises (a table without columns).
   */
  function RowFrom(width: nat, texts: seq<Option<string>>): Option<seq<string>>
    requires |texts| == Columns
  {
    var (row, done) := TryCells(Blank(width), texts, 0);
    if done then Some(row)
    else if |row| == 0 then None
    else Some(row[0 := "ERROR"])
  }

  /** The row the code leaves for `values` in a table of `width` columns. */
  function RowCells(width: nat, values: seq<Json>): (r: Option<seq<string>>)
    ensures r.Some? <==> width > 0
    ensures r.Some? ==> |r.value| == width
  {
    TryCellsEffect(Blank(width), Texts(values), 0);
    RowFrom(width, Texts(values))
  }

  /** The first statement, from `k` on, that raises; Columns when none does. */
  function FailAt(width: nat, texts: seq<Option<string>>, k: nat): (f: nat)
    requires k <= Columns == |texts|
    ensures k <= f <= Columns
    decreases Columns - k
  {
    if k == Columns || width <= k || texts[k].None? then k else FailAt(width, texts, k + 1)
  }

  /**
   * The statements before the first failure all had a cell and a text, and
   * the failing one lacks one of them.
   */
  lemma {:induction false} FailAtSpec(width: nat, texts: seq<Option<string>>, k: nat)
    requires k <= Columns == |texts|
    ensures forall j :: k <= j < FailAt(width, texts, k) ==> j < width && texts[j].Some?
    ensures FailAt(width, texts, k) < Columns ==> width <= FailAt(width, texts, k) || texts[FailAt(width, texts, k)].None?
    decreases Columns - k
  {
    if k == Columns || width <= k || texts[k].None? {
      assert FailAt(width, texts, k) == k;
    } else {
      FailAtSpec(width, texts, k + 1);
      var f := FailAt(width, texts, k + 1);
      assert FailAt(width, texts, k) == f;
      forall j | k <= j < f
        ensures j < width && texts[j].Some?
      {
        if j > k {
          assert k + 1 <= j < f;
        }
      }
    }
  }

  /** All four statements succeed: four columns at least, four values, three of them numbers. */
  predicate RowSucceeds(width: nat, values: seq<Json>) {
    Columns <= width && Columns <= |values| && forall k :: 1 <= k < Columns ==> ToFloat(values[k]).Some?
  }

  /**
   * What the try block does from `k` on: cells `k` to the first failure
   * get their texts, all other cells keep theirs, and it completes exactly
   * when nothing fails.
   */
  lemma {:induction false} TryCellsEffect(row: seq<string>, texts: seq<Option<string>>, k: nat)
    requires k <= Columns == |texts|
    ensures var (out, done) := TryCells(row, texts, k);
      var f := FailAt(|row|, texts, k);
      done == (f == Columns) && |out| == |row|
      && (forall j :: k <= j < f ==> texts[j].Some?)
      && forall j :: 0 <= j < |row| ==> out[j] == if k <= j < f then texts[j].value else row[j]
    decreases Columns - k
  {
    FailAtSpec(|row|, texts, k);
    if k < Columns {
      var w := WriteCell(row, k, texts[k]);
      if w.Some? {
        TryCellsEffect(w.value, texts, k + 1);
      }
    }
  }

  /** No statement fails exactly when the table is wide enough and every text is computed. */
  lemma FailAtAll(width: nat, texts: seq<Option<string>>)
    requires |texts| == Columns
    ensures FailAt(width, texts, 0) == Columns <==>
      Columns <= width && texts[0].Some? && texts[1].Some? && texts[2].Some? && texts[3].Some?
  {
    FailAtSpec(width, texts, 0);
    var f := FailAt(width, texts, 0);
    if f == Columns {
      assert 3 < width;
    } else if f < width {
      assert texts[f].None?;
    }
  }

  /** Statement `k` computes its text: the value exists and, past column 0, converts to a float. */
  predicate Computes(k: nat, values: seq<Json>) {
    k < |values| && (k == 0 || ToFloat(values[k]).Some?)
  }

  /** A row succeeds exactly when the table is wide enough and all four statements compute their texts. */
  lemma RowSucceedsComputes(width: nat, values: seq<Json>)
    ensures RowSucceeds(width, values) <==>
      Columns <= width && Computes(0, values) && Computes(1, values) && Computes(2, values) && Computes(3, values)
  {
    if Columns <= width && Computes(3, values) && Computes(1, values) && Computes(2, values) {
      forall k | 1 <= k < Columns
        ensures ToFloat(values[k]).Some?
      {
        assert Computes(k, values);
      }
    }
  }

  /** No statement fails exactly when the row succeeds. */
  lemma FailAtNone(width: nat, values: seq<Json>)
    ensures FailAt(width, Texts(values), 0) == Columns <==> RowSucceeds(width, values)
  {
    FailAtAll(width, Texts(values));
    RowSucceedsComputes(width, values);
  }

  /** The text of an amount column whose value converts. */
  lemma AmountText(k: nat, values: seq<Json>)
    requires 1 <= k < |values| && ToFloat(values[k]).Some?
    ensures CellText(k, values) == Some(FormatFixed2(ToFloat(values[k]).value))
  {
  }

  /**
   * A row that succeeds holds `str(values[0])` and the three formatted
   * amounts, then blank cells; the try block completes exactly then.
   */
  lemma RowSuccess(width: nat, values: seq<Json>)
    ensures TryCells(Blank(width), Texts(values), 0).1 <==> RowSucceeds(width, values)
    ensures RowSucceeds(width, values) ==>
      RowCells(width, values) == Some([PyStr(values[0]),
                                       FormatFixed2(ToFloat(values[1]).value),
                                       FormatFixed2(ToFloat(values[2]).value),
                                       FormatFixed2(ToFloat(values[3]).value)] + Blank(width - Columns))
  {
    var texts := Texts(values);
    TryCellsEffect(Blank(width), texts, 0);
    FailAtNone(width, values);
    if RowSucceeds(width, values) {
      FailAtAll(width, texts);
      AmountText(1, values);
      AmountText(2, values);
      AmountText(3, values);
      RowOfTexts(width, texts);
    }
  }

  /** When every statement succeeds, the row holds the four texts, then blank cells. */
  lemma RowOfTexts(width: nat, texts: seq<Option<string>>)
    requires |texts| == Columns && Columns <= width
    requires texts[0].Some? && texts[1].Some? && texts[2].Some? && texts[3].Some?
    ensures RowFrom(width, texts) == Some([texts[0].value, texts[1].value, texts[2].value, texts[3].value] + Blank(width - Columns))
    ensures forall j :: 0 <= j < width ==> RowFrom(width, texts).value[j] == if j < Columns then texts[j].value else ""
  {
    FailAtAll(width, texts);
    TryCellsEffect(Blank(width), texts, 0);
    var row := TryCells(Blank(width), texts, 0).0;
    var expected := [texts[0].value, texts[1].value, texts[2].value, texts[3].value] + Blank(width - Columns);
    assert forall j :: 0 <= j < width ==> row[j] == expected[j];
    assert row == expected;
  }

  /**
   * A row that fails: cell 0 reads "ERROR", the cells written before the
   * failing statement keep their texts, the rest stay blank; with no
   * columns at all the failure escapes and there is no row.
   */
  lemma RowFailure(width: nat, values: seq<Json>)
    requires !RowSucceeds(width, values)
    ensures width == 0 <==> RowCells(width, values).None?
    ensures width > 0 ==>
      var row := RowCells(width, values).value;
      var f := FailAt(width, Texts(values), 0);
      f < Columns && |row| == width && row[0] == "ERROR"
      && (forall j :: 0 <= j < f ==> CellText(j, values).Some?)
      && forall j :: 1 <= j < width ==> row[j] == if j < f then CellText(j, values).value else ""
  {
    FailAtSpec(width, Texts(values), 0);
    TryCellsEffect(Blank(width), Texts(values), 0);
    FailAtNone(width, values);
  }

  /** On success, each amount cell reads back to the sign and the hundredths of its value. */
  lemma RowAmountsReadBack(width: nat, values: seq<Json>, k: nat)
    requires RowSucceeds(width, values) && 1 <= k < Columns
    ensures RowCells(width, values).Some? && |RowCells(width, values).value| == width
    ensures ParseFixed2(RowCells(width, values).value[k])
      == Some((ToFloat(values[k]).value.neg, Cents(ToFloat(values[k]).value)))
  {
    var texts := Texts(values);
    FailAtNone(width, values);
    FailAtAll(width, texts);
    RowOfTexts(width, texts);
    var x := ToFloat(values[k]).value;
    assert texts[k] == Some(FormatFixed2(x));
    AmountReadBack(RowCells(width, values).value[k], x);
  }

  /** A cell holding a formatted amount reads back to its sign and hundredths. */
  lemma AmountReadBack(cell: string, x: Decimal)
    requires cell == FormatFixed2(x)
    ensures ParseFixed2(cell) == Some((x.neg, Cents(x)))
  {
    FormatFixed2RoundTrip(x);
  }

  /** The tables with row `r` of the first one replaced by `row`. */
  function SetRow(tables: seq<TableValue>, r: nat, row: seq<string>): seq<TableValue>
    requires 0 < |tables| && r < |tables[0].rows|
  {
    tables[0 := TableValue(tables[0].width, tables[0].rows[r := row])]
  }

  /** Replacing a row twice leaves the second replacement; replacing it by itself changes nothing. */
  lemma SetRowTwice(tables: seq<TableValue>, r: nat, a: seq<string>, b: seq<string>)
    requires 0 < |tables| && r < |tables[0].rows|
    ensures SetRow(SetRow(tables, r, a), r, b) == SetRow(tables, r, b)
    ensures SetRow(tables, r, tables[0].rows[r]) == tables
  {
    assert tables[0].rows[r := a][r := b] == tables[0].rows[r := b];
    assert tables[0].rows[r := tables[0].rows[r]] == tables[0].rows;
  }

  /**
   * One statement of the try block on the row `r` of the first table:
   * `row_cells[k].text = str(values[0])` for k = 0, and
   * `row_cells[k].text = f"{float(values[k]):,.2f}"` otherwise.
   */
  method TryWrite(doc: Document, r: nat, k: nat, values: seq<Json>) returns (done: bool)
    requires 0 < |doc.tables| && r < |doc.tables[0].rows|
    modifies doc
    ensures var w := WriteCell(old(doc.tables)[0].rows[r], k, CellText(k, values));
      done == w.Some?
      && doc.tables == if done then SetRow(old(doc.tables), r, w.value) else old(doc.tables)
    ensures doc.paragraphs == old(doc.paragraphs)
  {
    if k >= |values| {
      return false;
    }
    var text: string;
    if k == 0 {
      text := PyStr(values[0]);
    } else {
      var x := ToFloat(values[k]);
      if x.None? {
        return false;
      }
      text := FormatFixed2(x.value);
    }
    done := doc.SetCell(0, r, k, text);
  }

  /**
   * The body of the schedule loop after `add_row`: the four statements of
   * the try block, and the `except` that writes "ERROR" into cell 0. The
   * result is false when that last write raises as well.
   */
  method FillRow(doc: Document, r: nat, values: seq<Json>) returns (ok: bool)
    requires 0 < |doc.tables| && r < |doc.tables[0].rows|
    requires doc.tables[0].rows[r] == Blank(doc.tables[0].width)
    modifies doc
    ensures var row := RowCells(old(doc.tables)[0].width, values);
      ok == row.Some?
      && (ok ==> doc.tables == SetRow(old(doc.tables), r, row.value))
    ensures |doc.tables| == |old(doc.tables)| && doc.paragraphs == old(doc.paragraphs)
  {
    ghost var width := doc.tables[0].width;
    ghost var texts := Texts(values);
    ghost var before := doc.tables;
    SetRowTwice(before, r, [], []);
    ghost var row := doc.tables[0].rows[r];
    var done := TryWrite(doc, r, 0, values);
    assert TryCells(row, texts, 0) == if done then TryCells(doc.tables[0].rows[r], texts, 1) else (row, false);
    SetRowTwice(before, r, row, doc.tables[0].rows[r]);
    row := doc.tables[0].rows[r];
    if done {
      done := TryWrite(doc, r, 1, values);
      assert TryCells(row, texts, 1) == if done then TryCells(doc.tables[0].rows[r], texts, 2) else (row, false);
      SetRowTwice(before, r, row, doc.tables[0].rows[r]);
      row := doc.tables[0].rows[r];
      if done {
        done := TryWrite(doc, r, 2, values);
        assert TryCells(row, texts, 2) == if done then TryCells(doc.tables[0].rows[r], texts, 3) else (row, false);
        SetRowTwice(before, r, row, doc.tables[0].rows[r]);
        row := doc.tables[0].rows[r];
        if done {
          done := TryWrite(doc, r, 3, values);
          assert TryCells(row, texts, 3) == if done then TryCells(doc.tables[0].rows[r], texts, 4) else (row, false);
          SetRowTwice(before, r, row, doc.tables[0].rows[r]);
          row := doc.tables[0].rows[r];
        }
      }
    }
    assert TryCells(Blank(width), texts, 0) == (row, done);
    assert doc.tables == SetRow(before, r, row);
    if done {
      ok := true;
    } else {
      ok := doc.SetCell(0, r, 0, "ERROR");
      if ok {
        SetRowTwice(before, r, row, row[0 := "ERROR"]);
      }
    }
  }
}
