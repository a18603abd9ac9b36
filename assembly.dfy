/**
 * The two assemblers: `ensamblar_docx_general` writes one styled
 * paragraph per item of a JSON list; `ensamblar_pagare_en_memoria` does
 * the same for the "prosa" list of a JSON object and then appends one row
 * per entry of "tabla_amortizacion" to the template's first table.
 */
module Assembly {
  import opened Wrappers
  import opened Json
  import opened Styles
  import opened Docx
  import opened Rows

  /**
   * The text a paragraph gets from `item.get('text', '')`: a string as it
   * is; any value Python counts as false (absent, null, 0, "") adds no
   * text; any other value makes python-docx raise.
   */
  function ItemText(field: Option<Json>): (r: Option<string>)
    ensures field.None? ==> r == Some([])
    ensures field.Some? && field.value.JStr? ==> r == Some(field.value.s)
    ensures field.Some? && !field.value.JStr? ==> (r.Some? <==> !Truthy(field.value)) && (r.Some? ==> r.value == [])
  {
    var texto := field.GetOr(JStr([]));
    if texto.JStr? then Some(texto.s)
    else if !Truthy(texto) then Some([])
    else None
  }

  /**
   * The paragraph one item adds, with its normalized style; None where
   * Python raises: the item is not a dict (no `.get`), its text cannot be
   * written, or the template lacks the style.
   */
  function ItemParagraph(styles: set<string>, item: Json): (r: Option<Paragraph>)
    ensures r.Some? <==> item.JObj? && ItemText(Get(item.fields, "text")).Some?
                         && Name(Normalize(Get(item.fields, "style"))) in styles
    ensures r.Some? ==> r.value == Paragraph(Name(Normalize(Get(item.fields, "style"))),
                                             ItemText(Get(item.fields, "text")).value)
  {
    if !item.JObj? then None
    else
      var text := ItemText(Get(item.fields, "text"));
      var style := Name(Normalize(Get(item.fields, "style")));
      if text.None? || style !in styles then None else Some(Paragraph(style, text.value))
  }

  /** ItemParagraph for the template's styles, as a function of the item. */
  function ParagraphOf(styles: set<string>): Json -> Option<Paragraph> {
    item => ItemParagraph(styles, item)
  }

  /** The paragraphs a list of items adds, in order; None as soon as one item fails. */
  function Paragraphs(styles: set<string>, items: seq<Json>): Option<seq<Paragraph>> {
    MapAll(ParagraphOf(styles), items)
  }

  /** The items add one paragraph each, in order, each the paragraph of its own item; all succeed or none. */
  lemma ParagraphsEach(styles: set<string>, items: seq<Json>)
    ensures var r := Paragraphs(styles, items);
      (r.Some? <==> forall i :: 0 <= i < |items| ==> ItemParagraph(styles, items[i]).Some?)
      && (r.Some? ==> (|r.value| == |items|
          && forall i :: 0 <= i < |items| ==> r.value[i] == ItemParagraph(styles, items[i]).value))
  {
    MapAllEach(ParagraphOf(styles), items);
  }

  /** One more item adds its paragraph after those of the items before it. */
  lemma ParagraphsSnoc(styles: set<string>, items: seq<Json>, i: nat)
    requires i < |items|
    requires Paragraphs(styles, items[..i]).Some? && ItemParagraph(styles, items[i]).Some?
    ensures Paragraphs(styles, items[..i + 1]) == Some(Paragraphs(styles, items[..i]).value + [ItemParagraph(styles, items[i]).value])
  {
    assert items[..i + 1][..i] == items[..i];
  }

  /** The row one schedule entry adds: it must be a dict, whose values fill the row by position. */
  function RowFor(width: nat, entry: Json): Option<seq<string>> {
    if entry.JObj? then RowCells(width, Values(entry.fields)) else None
  }

  /** RowFor for the table's width, as a function of the entry. */
  function RowOf(width: nat): Json -> Option<seq<string>> {
    entry => RowFor(width, entry)
  }

  /** The rows a schedule adds, one per entry and in order; None as soon as one entry fails. */
  function ScheduleRows(width: nat, entries: seq<Json>): Option<seq<seq<string>>> {
    MapAll(RowOf(width), entries)
  }

  /**
   * The schedule adds one row per entry, in order, each the row of its own
   * entry alone; it fails exactly when some entry's row fails.
   */
  lemma ScheduleRowsEach(width: nat, entries: seq<Json>)
    ensures var r := ScheduleRows(width, entries);
      (r.Some? <==> forall i :: 0 <= i < |entries| ==> RowFor(width, entries[i]).Some?)
      && (r.Some? ==> (|r.value| == |entries|
          && forall i :: 0 <= i < |entries| ==> r.value[i] == RowFor(width, entries[i]).value))
  {
    MapAllEach(RowOf(width), entries);
  }

  /**
   * What `ensamblar_docx_general` returns: the template with one paragraph
   * per item appended; None when the template is missing, `json.loads`
   * failed (`parsed` is None), the data cannot be iterated, or an item fails.
   */
  function GeneralSpec(templateExists: bool, template: DocValue, parsed: Option<Json>): (r: Option<DocValue>)
    ensures r.Some? ==> templateExists && parsed.Some? && Iterate(parsed.value).Some?
    ensures r.Some? ==> r.value.styles == template.styles && r.value.tables == template.tables
                        && |template.paragraphs| <= |r.value.paragraphs|
                        && r.value.paragraphs[..|template.paragraphs|] == template.paragraphs
  {
    if !templateExists || parsed.None? then None
    else
      match Iterate(parsed.value)
      case None => None
      case Some(items) =>
        match Paragraphs(template.styles, items)
        case None => None
        case Some(ps) => Some(template.(paragraphs := template.paragraphs + ps))
  }

  /** `datos.get(key, [])`. */
  function GetList(datos: seq<(string, Json)>, key: string): (r: Json)
    ensures Get(datos, key).Some? ==> r == Get(datos, key).value
    ensures Get(datos, key).None? ==> r == JArr([])
  {
    Get(datos, key).GetOr(JArr([]))
  }

  /**
   * What `ensamblar_pagare_en_memoria` returns: the template with the
   * prose paragraphs appended and, when the schedule is truthy, one row
   * per entry appended to its first table; None on any failure, including
   * a truthy schedule and a template without tables.
   */
  function PagareSpec(templateExists: bool, template: DocValue, parsed: Option<Json>): (r: Option<DocValue>)
    ensures r.Some? ==> templateExists && parsed.Some? && parsed.value.JObj?
    ensures r.Some? ==> r.value.styles == template.styles && |r.value.tables| == |template.tables|
                        && |template.paragraphs| <= |r.value.paragraphs|
                        && r.value.paragraphs[..|template.paragraphs|] == template.paragraphs
                        && forall i :: 1 <= i < |template.tables| ==> r.value.tables[i] == template.tables[i]
  {
    if !templateExists || parsed.None? || !parsed.value.JObj? then None
    else
      var datos := parsed.value.fields;
      match Iterate(GetList(datos, "prosa"))
      case None => None
      case Some(items) =>
        match Paragraphs(template.styles, items)
        case None => None
        case Some(ps) =>
          var withProse := template.(paragraphs := template.paragraphs + ps);
          var tabla := GetList(datos, "tabla_amortizacion");
          if !Truthy(tabla) then Some(withProse)
          else if template.tables == [] then None
          else
            match Iterate(tabla)
            case None => None
            case Some(entries) =>
              var first := template.tables[0];
              match ScheduleRows(first.width, entries)
              case None => None
              case Some(rows) =>
                Some(withProse.(tables := template.tables[0 := TableValue(first.width, first.rows + rows)]))
  }

  /**
   * The general document succeeds exactly when the template exists, the
   * data parsed to something iterable and every item yields a paragraph.
   * It then keeps the template's styles, paragraphs and tables and appends
   * one paragraph per item, in input order, each with the item's text
   * (or "") and its style normalized into NOMBRES_DE_ESTILOS.
   */
  lemma GeneralAppendsInOrder(templateExists: bool, template: DocValue, parsed: Option<Json>)
    ensures GeneralSpec(templateExists, template, parsed).Some? <==>
      templateExists && parsed.Some? && Iterate(parsed.value).Some?
      && forall i :: 0 <= i < |Iterate(parsed.value).value| ==>
           ItemParagraph(template.styles, Iterate(parsed.value).value[i]).Some?
    ensures GeneralSpec(templateExists, template, parsed).Some? ==>
      var d := GeneralSpec(templateExists, template, parsed).value;
      var items := Iterate(parsed.value).value;
      var n := |template.paragraphs|;
      d.styles == template.styles && d.tables == template.tables
      && |d.paragraphs| == n + |items| && d.paragraphs[..n] == template.paragraphs
      && forall i :: 0 <= i < |items| ==>
           items[i].JObj?
           && d.paragraphs[n + i].text == ItemText(Get(items[i].fields, "text")).value
           && d.paragraphs[n + i].style == Name(Normalize(Get(items[i].fields, "style")))
           && d.paragraphs[n + i].style in StyleNames
  {
    if templateExists && parsed.Some? && Iterate(parsed.value).Some? {
      var items := Iterate(parsed.value).value;
      ParagraphsEach(template.styles, items);
      if GeneralSpec(templateExists, template, parsed).Some? {
        var d := GeneralSpec(templateExists, template, parsed).value;
        var ps := Paragraphs(template.styles, items).value;
        assert d.paragraphs == template.paragraphs + ps;
        assert forall i :: 0 <= i < |items| ==> d.paragraphs[|template.paragraphs| + i] == ps[i];
      }
    }
  }

  /**
   * The pagaré's prose is assembled exactly as a general document made of
   * the "prosa" list would be.
   */
  lemma PagareProseAsGeneral(templateExists: bool, template: DocValue, parsed: Option<Json>)
    requires PagareSpec(templateExists, template, parsed).Some?
    ensures parsed.Some? && parsed.value.JObj?
    ensures var prosa := GetList(parsed.value.fields, "prosa");
      GeneralSpec(templateExists, template, Some(prosa)).Some?
      && PagareSpec(templateExists, template, parsed).value.paragraphs
         == GeneralSpec(templateExists, template, Some(prosa)).value.paragraphs
  {
  }

  /**
   * An empty or missing "tabla_amortizacion" adds no rows and needs no
   * table in the template: the pagaré is the template plus its prose.
   */
  lemma PagareWithoutSchedule(template: DocValue, datos: seq<(string, Json)>)
    requires !Truthy(GetList(datos, "tabla_amortizacion"))
    requires Iterate(GetList(datos, "prosa")).Some?
    requires Paragraphs(template.styles, Iterate(GetList(datos, "prosa")).value).Some?
    ensures PagareSpec(true, template, Some(JObj(datos)))
      == Some(template.(paragraphs := template.paragraphs
                 + Paragraphs(template.styles, Iterate(GetList(datos, "prosa")).value).value))
  {
  }

  /** A missing schedule counts as the empty list. */
  lemma MissingScheduleIsEmpty(datos: seq<(string, Json)>)
    requires forall i :: 0 <= i < |datos| ==> datos[i].0 != "tabla_amortizacion"
    ensures !Truthy(GetList(datos, "tabla_amortizacion"))
  {
  }

  /** A non-empty schedule and a template without tables: no document. */
  lemma PagareNeedsTable(templateExists: bool, template: DocValue, parsed: Option<Json>)
    requires parsed.Some? && parsed.value.JObj?
    requires Truthy(GetList(parsed.value.fields, "tabla_amortizacion"))
    requires template.tables == []
    ensures PagareSpec(templateExists, template, parsed).None?
  {
  }

  /**
   * A truthy schedule that is not a list gives no document: a string or a
   * dict iterates to strings, which have no `.values()`, and numbers and
   * booleans cannot be iterated.
   */
  lemma PagareScheduleMustBeList(templateExists: bool, template: DocValue, parsed: Option<Json>)
    requires parsed.Some? && parsed.value.JObj?
    requires var tabla := GetList(parsed.value.fields, "tabla_amortizacion");
      Truthy(tabla) && !tabla.JArr?
    ensures PagareSpec(templateExists, template, parsed).None?
  {
    var tabla := GetList(parsed.value.fields, "tabla_amortizacion");
    if template.tables != [] && Iterate(tabla).Some? {
      var entries := Iterate(tabla).value;
      assert entries != [] && !entries[0].JObj?;
      ScheduleRowsEach(template.tables[0].width, entries);
    }
  }

  /**
   * With a truthy schedule, a pagaré that is produced has one new row per
   * entry at the end of the first table, in order, each the row of its own
   * entry; the template's rows and its other tables are unchanged.
   */
  lemma PagareRowsPerEntry(templateExists: bool, template: DocValue, parsed: Option<Json>)
    requires PagareSpec(templateExists, template, parsed).Some?
    requires Truthy(GetList(parsed.value.fields, "tabla_amortizacion"))
    ensures template.tables != [] && Iterate(GetList(parsed.value.fields, "tabla_amortizacion")).Some?
    ensures var d := PagareSpec(templateExists, template, parsed).value;
      var entries := Iterate(GetList(parsed.value.fields, "tabla_amortizacion")).value;
      var first := template.tables[0];
      |d.tables| == |template.tables| && d.tables[1..] == template.tables[1..]
      && d.tables[0].width == first.width
      && |d.tables[0].rows| == |first.rows| + |entries|
      && d.tables[0].rows[..|first.rows|] == first.rows
      && forall i :: 0 <= i < |entries| ==>
           RowFor(first.width, entries[i]).Some?
           && d.tables[0].rows[|first.rows| + i] == RowFor(first.width, entries[i]).value
  {
    var entries := Iterate(GetList(parsed.value.fields, "tabla_amortizacion")).value;
    var first := template.tables[0];
    var rows := ScheduleRows(first.width, entries).value;
    ScheduleRowsEach(first.width, entries);
    RowsAppended(template.tables, PagareSpec(templateExists, template, parsed).value.tables, rows);
  }

  /**
   * The pagaré of a parsed object succeeds exactly when the template
   * exists, every "prosa" item yields a paragraph and, if the schedule is
   * truthy, it is a list of dicts and the first table has a column for
   * "ERROR". A row whose values cannot be formatted never stops the
   * document: it gets the ERROR fallback.
   */
  lemma PagareSucceeds(templateExists: bool, template: DocValue, datos: seq<(string, Json)>)
    ensures var prosa := Iterate(GetList(datos, "prosa"));
      var tabla := GetList(datos, "tabla_amortizacion");
      PagareSpec(templateExists, template, Some(JObj(datos))).Some? <==>
        templateExists && prosa.Some?
        && (forall i :: 0 <= i < |prosa.value| ==> ItemParagraph(template.styles, prosa.value[i]).Some?)
        && (Truthy(tabla) ==>
              tabla.JArr? && template.tables != [] && template.tables[0].width > 0
              && forall i :: 0 <= i < |tabla.elems| ==> tabla.elems[i].JObj?)
  {
    var prosa := Iterate(GetList(datos, "prosa"));
    var tabla := GetList(datos, "tabla_amortizacion");
    if prosa.Some? {
      ParagraphsEach(template.styles, prosa.value);
    }
    if Truthy(tabla) && !tabla.JArr? {
      PagareScheduleMustBeList(templateExists, template, Some(JObj(datos)));
    } else if Truthy(tabla) && template.tables != [] {
      var width := template.tables[0].width;
      ScheduleRowsEach(width, tabla.elems);
      assert RowFor(width, tabla.elems[0]).Some? ==> width > 0;
    }
  }

  /** The first table with rows appended: the other tables and the old rows stay, the new rows follow. */
  lemma RowsAppended(before: seq<TableValue>, after: seq<TableValue>, rows: seq<seq<string>>)
    requires before != [] && after == before[0 := TableValue(before[0].width, before[0].rows + rows)]
    ensures |after| == |before| && after[1..] == before[1..] && after[0].width == before[0].width
    ensures |after[0].rows| == |before[0].rows| + |rows| && after[0].rows[..|before[0].rows|] == before[0].rows
    ensures forall i :: 0 <= i < |rows| ==> after[0].rows[|before[0].rows| + i] == rows[i]
  {
    assert after[0].rows[..|before[0].rows|] == before[0].rows;
  }

  /**
   * The loop `for item in items` of both assemblers: reads text and style,
   * replaces a style outside NOMBRES_DE_ESTILOS, and adds the paragraph.
   * False when Python would raise.
   */
  method AppendItems(doc: Document, items: seq<Json>) returns (ok: bool)
    modifies doc
    ensures ok == Paragraphs(doc.styles, items).Some?
    ensures ok ==> doc.paragraphs == old(doc.paragraphs) + Paragraphs(doc.styles, items).value
    ensures doc.tables == old(doc.tables)
  {
    for i := 0 to |items|
      invariant Paragraphs(doc.styles, items[..i]).Some?
      invariant doc.paragraphs == old(doc.paragraphs) + Paragraphs(doc.styles, items[..i]).value
      invariant doc.tables == old(doc.tables)
    {
      var item := items[i];
      if !item.JObj? {
        ParagraphsEach(doc.styles, items);
        return false;
      }
      var texto := Get(item.fields, "text").GetOr(JStr([]));
      var estilo := Get(item.fields, "style").GetOr(JStr(Name(ParrafoJustificado)));
      if !(estilo.JStr? && estilo.s in StyleNames) {
        estilo := JStr(Name(ParrafoJustificado));
      }
      var text: string;
      if texto.JStr? {
        text := texto.s;
      } else if !Truthy(texto) {
        text := [];
      } else {
        ParagraphsEach(doc.styles, items);
        return false;
      }
      ok := doc.AddParagraph(text, estilo.s);
      if !ok {
        ParagraphsEach(doc.styles, items);
        return false;
      }
      assert ItemParagraph(doc.styles, item) == Some(Paragraph(estilo.s, text));
      ParagraphsSnoc(doc.styles, items, i);
    }
    assert items[..|items|] == items;
    ok := true;
  }

  /**
   * The schedule loop: for each entry, `add_row()` on the first table,
   * then `list(fila_data.values())` and the positional fill. False when
   * Python would raise.
   */
  method AppendSchedule(doc: Document, entries: seq<Json>) returns (ok: bool)
    requires 0 < |doc.tables|
    modifies doc
    ensures var first := old(doc.tables)[0];
      ok == ScheduleRows(first.width, entries).Some?
      && (ok ==> doc.tables == old(doc.tables)[0 := TableValue(first.width, first.rows + ScheduleRows(first.width, entries).value)])
    ensures doc.paragraphs == old(doc.paragraphs)
  {
    ghost var first := doc.tables[0];
    assert entries[..0] == [];
    assert first.rows + [] == first.rows;
    assert TableValue(first.width, first.rows) == first;
    assert old(doc.tables)[0 := first] == old(doc.tables);
    for i := 0 to |entries|
      invariant ScheduleRows(first.width, entries[..i]).Some?
      invariant doc.tables == old(doc.tables)[0 := TableValue(first.width, first.rows + ScheduleRows(first.width, entries[..i]).value)]
      invariant doc.paragraphs == old(doc.paragraphs)
    {
      assert entries[..i + 1][..i] == entries[..i];
      ghost var done := ScheduleRows(first.width, entries[..i]).value;
      var r := doc.AddRow(0);
      var fila := entries[i];
      if !fila.JObj? {
        ScheduleRowsEach(first.width, entries);
        return false;
      }
      var valores := Values(fila.fields);
      ok := FillRow(doc, r, valores);
      if !ok {
        ScheduleRowsEach(first.width, entries);
        return false;
      }
      assert first.rows + done + [Blank(first.width)] == (first.rows + done) + [Blank(first.width)];
      assert (first.rows + done + [Blank(first.width)])[r := RowFor(first.width, fila).value]
          == first.rows + (done + [RowFor(first.width, fila).value]);
    }
    assert entries[..|entries|] == entries;
    ok := true;
  }

  /** `ensamblar_docx_general`, with the template's existence and the parsed data as inputs. */
  method EnsamblarDocxGeneral(templateExists: bool, template: DocValue, parsed: Option<Json>) returns (r: Option<DocValue>)
    ensures r == GeneralSpec(templateExists, template, parsed)
  {
    if !templateExists {
      return None;
    }
    var doc := new Document(template);
    if parsed.None? {
      return None;
    }
    var datos := Iterate(parsed.value);
    if datos.None? {
      return None;
    }
    var ok := AppendItems(doc, datos.value);
    if !ok {
      return None;
    }
    return Some(doc.Value());
  }

  /** `ensamblar_pagare_en_memoria`, with the template's existence and the parsed data as inputs. */
  method EnsamblarPagare(templateExists: bool, template: DocValue, parsed: Option<Json>) returns (r: Option<DocValue>)
    ensures r == PagareSpec(templateExists, template, parsed)
  {
    if !templateExists {
      return None;
    }
    var doc := new Document(template);
    if parsed.None? || !parsed.value.JObj? {
      return None;
    }
    var datos := parsed.value.fields;
    var prosa := Iterate(GetList(datos, "prosa"));
    if prosa.None? {
      return None;
    }
    var ok := AppendItems(doc, prosa.value);
    if !ok {
      return None;
    }
    var tabla := GetList(datos, "tabla_amortizacion");
    if Truthy(tabla) {
      if |doc.tables| == 0 {
        return None;
      }
      var entries := Iterate(tabla);
      if entries.None? {
        return None;
      }
      ok := AppendSchedule(doc, entries.value);
      if !ok {
        return None;
      }
    }
    return Some(doc.Value());
  }
}
