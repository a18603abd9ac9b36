/**
 * The part of a python-docx document the assemblers touch: the paragraph
 * styles the template defines, the body paragraphs and the body tables.
 */
module Docx {
  /** A body paragraph: its style name and its text. */
  datatype Paragraph = Paragraph(style: string, text: string)

  /**
   * A table: its column count, which fixes how many cells `add_row`
   * creates, and its rows of cell texts.
   */
  datatype TableValue = TableValue(width: nat, rows: seq<seq<string>>)

  /** A saved document, or a template before it is filled. */
  datatype DocValue = DocValue(styles: set<string>, paragraphs: seq<Paragraph>, tables: seq<TableValue>)

  /** `n` empty cell texts: a row as `add_row` creates it. */
  function Blank(n: nat): (r: seq<string>)
    ensures |r| == n && forall j :: 0 <= j < n ==> r[j] == []
  {
    seq(n, _ => [])
  }

  /** A document opened from a template and filled in place. */
  class Document {
    const styles: set<string>
    var paragraphs: seq<Paragraph>
    var tables: seq<TableValue>

    /** `Document(template)`: the template's styles, paragraphs and tables. */
    constructor (template: DocValue)
      ensures Value() == template
    {
      styles := template.styles;
      paragraphs := template.paragraphs;
      tables := template.tables;
    }

    /** The document as `save` writes it. */
    function Value(): DocValue
      reads this
    {
      DocValue(styles, paragraphs, tables)
    }

    /**
     * `add_paragraph(text, style=style)`: appends a paragraph; the style
     * must be one the document defines, or python-docx raises KeyError.
     */
    method AddParagraph(text: string, style: string) returns (ok: bool)
      modifies this
      ensures ok == (style in styles)
      ensures paragraphs == if ok then old(paragraphs) + [Paragraph(style, text)] else old(paragraphs)
      ensures tables == old(tables)
    {
      ok := style in styles;
      if ok {
        paragraphs := paragraphs + [Paragraph(style, text)];
      }
    }

    /** `tables[t].add_row()`: appends a row of blank cells; `r` is its index. */
    method AddRow(t: nat) returns (r: nat)
      requires t < |tables|
      modifies this
      ensures r == |old(tables)[t].rows|
      ensures tables == old(tables)[t := TableValue(old(tables)[t].width, old(tables)[t].rows + [Blank(old(tables)[t].width)])]
      ensures paragraphs == old(paragraphs)
    {
      r := |tables[t].rows|;
      tables := tables[t := TableValue(tables[t].width, tables[t].rows + [Blank(tables[t].width)])];
    }

    /**
     * `row_cells[c].text = text` on row `r` of table `t`; the index must
     * name a cell of the row, or Python raises IndexError.
     */
    method SetCell(t: nat, r: nat, c: nat, text: string) returns (ok: bool)
      requires t < |tables| && r < |tables[t].rows|
      modifies this
      ensures ok == (c < |old(tables)[t].rows[r]|)
      ensures ok ==> tables == old(tables)[t := TableValue(old(tables)[t].width,
                                 old(tables)[t].rows[r := old(tables)[t].rows[r][c := text]])]
      ensures !ok ==> tables == old(tables)
      ensures paragraphs == old(paragraphs)
    {
      ok := c < |tables[t].rows[r]|;
      if ok {
        tables := tables[t := TableValue(tables[t].width, tables[t].rows[r := tables[t].rows[r][c := text]])];
      }
    }
  }
}
