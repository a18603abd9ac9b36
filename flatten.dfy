/**
 * `extraer_texto_de_docx`: the non-blank paragraph texts of an uploaded
 * document, then the non-blank cell texts of its tables row by row, joined
 * with newlines.
 */
module Flatten {
  import opened Wrappers
  import opened Text
  import opened Docx

  /** The texts that are not blank, in order: `if t.strip():` keeps `t` exactly when it is not blank. */
  function NonBlank(xs: seq<string>): (r: seq<string>)
    ensures |r| <= |xs|
  {
    if xs == [] then []
    else NonBlank(xs[..|xs| - 1]) + (if !IsBlank(xs[|xs| - 1]) then [xs[|xs| - 1]] else [])
  }

  /** Filtering a concatenation filters each part. */
  lemma {:induction false} NonBlankAppend(xs: seq<string>, ys: seq<string>)
    ensures NonBlank(xs + ys) == NonBlank(xs) + NonBlank(ys)
  {
    if ys == [] {
      assert xs + ys == xs;
    } else {
      var ys' := ys[..|ys| - 1];
      assert (xs + ys)[..|xs + ys| - 1] == xs + ys';
      assert (xs + ys)[|xs + ys| - 1] == ys[|ys| - 1];
      NonBlankAppend(xs, ys');
    }
  }

  /** One more text is kept exactly when it is not blank. */
  lemma NonBlankSnoc(xs: seq<string>, x: string)
    ensures NonBlank(xs + [x]) == NonBlank(xs) + (if !IsBlank(x) then [x] else [])
  {
    assert (xs + [x])[..|xs|] == xs;
  }

  /** Exactly the non-blank texts survive the filter. */
  lemma {:induction false} NonBlankMembers(xs: seq<string>)
    ensures forall t :: t in NonBlank(xs) <==> t in xs && !IsBlank(t)
  {
    if xs != [] {
      var init := xs[..|xs| - 1];
      NonBlankMembers(init);
      assert xs == init + [xs[|xs| - 1]];
    }
  }

  /** The texts of the paragraphs, in document order. */
  function ParagraphTexts(ps: seq<Paragraph>): (r: seq<string>)
    ensures |r| == |ps|
  {
    if ps == [] then [] else ParagraphTexts(ps[..|ps| - 1]) + [ps[|ps| - 1].text]
  }

  /** The cell texts of some rows, row after row. */
  function RowsCells(rows: seq<seq<string>>): seq<string> {
    if rows == [] then [] else RowsCells(rows[..|rows| - 1]) + rows[|rows| - 1]
  }

  /** The cell texts of some tables, table after table. */
  function TablesCells(tables: seq<TableValue>): seq<string> {
    if tables == [] then [] else TablesCells(tables[..|tables| - 1]) + RowsCells(tables[|tables| - 1].rows)
  }

  /** What the loops collect from a document. */
  function Collected(d: DocValue): seq<string> {
    NonBlank(ParagraphTexts(d.paragraphs)) + NonBlank(TablesCells(d.tables))
  }

  /** The text `extraer_texto_de_docx` returns for a document. */
  function TextOf(d: DocValue): string {
    Join("\n", Collected(d))
  }

  /**
   * A text is collected exactly when it is not blank and is the text of a
   * paragraph or of a cell; the paragraphs come first, and nothing is added.
   */
  lemma CollectedMembers(d: DocValue)
    ensures forall t :: t in Collected(d) <==>
      !IsBlank(t) && (t in ParagraphTexts(d.paragraphs) || t in TablesCells(d.tables))
    ensures Collected(d)[..|NonBlank(ParagraphTexts(d.paragraphs))|] == NonBlank(ParagraphTexts(d.paragraphs))
    ensures |Collected(d)| <= |d.paragraphs| + |TablesCells(d.tables)|
  {
    NonBlankMembers(ParagraphTexts(d.paragraphs));
    NonBlankMembers(TablesCells(d.tables));
  }

  /**
   * The returned text holds the collected texts one per line: splitting it
   * at newlines gives them back when none of them spans several lines; a
   * document with nothing to collect gives the empty text.
   */
  lemma TextOfLines(d: DocValue)
    ensures Collected(d) == [] ==> TextOf(d) == []
    ensures Collected(d) != [] && (forall i :: 0 <= i < |Collected(d)| ==> '\n' !in Collected(d)[i]) ==>
      Split(TextOf(d), '\n') == Collected(d)
  {
    if Collected(d) != [] && (forall i :: 0 <= i < |Collected(d)| ==> '\n' !in Collected(d)[i]) {
      SplitJoin(Collected(d), '\n');
    }
  }

  /** The cells of one more table add that table's non-blank cells. */
  lemma NonBlankTablesStep(tables: seq<TableValue>, i: nat)
    requires i < |tables|
    ensures NonBlank(TablesCells(tables[..i + 1])) == NonBlank(TablesCells(tables[..i])) + NonBlank(RowsCells(tables[i].rows))
  {
    assert tables[..i + 1][..i] == tables[..i];
    NonBlankAppend(TablesCells(tables[..i]), RowsCells(tables[i].rows));
  }

  /** The invariant of the loop over the tables survives one more table. */
  lemma TablesLoopStep(prefix: seq<string>, tables: seq<TableValue>, i: nat, before: seq<string>, after: seq<string>)
    requires i < |tables|
    requires before == prefix + NonBlank(TablesCells(tables[..i]))
    requires after == before + NonBlank(RowsCells(tables[i].rows))
    ensures after == prefix + NonBlank(TablesCells(tables[..i + 1]))
  {
    NonBlankTablesStep(tables, i);
  }

  /** One more paragraph adds its text when it is not blank. */
  lemma NonBlankParagraphsStep(ps: seq<Paragraph>, i: nat)
    requires i < |ps|
    ensures NonBlank(ParagraphTexts(ps[..i + 1])) == NonBlank(ParagraphTexts(ps[..i])) + (if !IsBlank(ps[i].text) then [ps[i].text] else [])
  {
    assert ps[..i + 1][..i] == ps[..i];
    NonBlankSnoc(ParagraphTexts(ps[..i]), ps[i].text);
  }

  /** One more cell adds its text when it is not blank. */
  lemma NonBlankCellStep(done: seq<string>, fila: seq<string>, k: nat)
    requires k < |fila|
    ensures NonBlank(done + fila[..k + 1]) == NonBlank(done + fila[..k]) + (if !IsBlank(fila[k]) then [fila[k]] else [])
  {
    assert done + fila[..k + 1] == (done + fila[..k]) + [fila[k]];
    NonBlankSnoc(done + fila[..k], fila[k]);
  }

  /** The loop over the paragraphs: each non-blank paragraph text is kept, in order. */
  method KeptParagraphs(ps: seq<Paragraph>) returns (r: seq<string>)
    ensures r == NonBlank(ParagraphTexts(ps))
  {
    r := [];
    for i := 0 to |ps|
      invariant r == NonBlank(ParagraphTexts(ps[..i]))
    {
      var parrafo := ps[i];
      NonBlankParagraphsStep(ps, i);
      if !IsBlank(parrafo.text) {
        r := r + [parrafo.text];
      }
    }
    assert ps[..|ps|] == ps;
  }

  /** The cells of one more row follow the cells of the rows before it. */
  lemma RowsCellsSnoc(rows: seq<seq<string>>, j: nat)
    requires j < |rows|
    ensures RowsCells(rows[..j + 1]) == RowsCells(rows[..j]) + rows[j]
  {
    assert rows[..j + 1][..j] == rows[..j];
  }

  /** The loops over one table's rows and cells: each non-blank cell text is appended, row by row. */
  method AppendTableCells(texto: seq<string>, tabla: TableValue) returns (r: seq<string>)
    ensures r == texto + NonBlank(RowsCells(tabla.rows))
  {
    r := texto;
    assert tabla.rows[..0] == [];
    for j := 0 to |tabla.rows|
      invariant r == texto + NonBlank(RowsCells(tabla.rows[..j]))
    {
      var fila := tabla.rows[j];
      ghost var done := RowsCells(tabla.rows[..j]);
      assert done + fila[..0] == done;
      for k := 0 to |fila|
        invariant r == texto + NonBlank(done + fila[..k])
      {
        var celda := fila[k];
        NonBlankCellStep(done, fila, k);
        if !IsBlank(celda) {
          r := r + [celda];
        }
      }
      assert fila[..|fila|] == fila;
      RowsCellsSnoc(tabla.rows, j);
    }
    assert tabla.rows[..|tabla.rows|] == tabla.rows;
  }

  /**
   * `extraer_texto_de_docx`: `upload` is the document python-docx read
   * from the uploaded bytes, or None when it could not be read.
   */
  method ExtraerTexto(upload: Option<DocValue>) returns (r: Option<string>)
    ensures upload.None? ==> r.None?
    ensures upload.Some? ==> r == Some(TextOf(upload.value))
  {
    if upload.None? {
      return None;
    }
    var doc := upload.value;
    var textoCompleto := KeptParagraphs(doc.paragraphs);
    ghost var prefix := textoCompleto;
    assert doc.tables[..0] == [];
    for i := 0 to |doc.tables|
      invariant textoCompleto == prefix + NonBlank(TablesCells(doc.tables[..i]))
    {
      ghost var before := textoCompleto;
      textoCompleto := AppendTableCells(textoCompleto, doc.tables[i]);
      TablesLoopStep(prefix, doc.tables, i, before, textoCompleto);
    }
    assert doc.tables[..|doc.tables|] == doc.tables;
    return Some(Join("\n", textoCompleto));
  }
}
