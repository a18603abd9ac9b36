/**
 * The two workflows behind the "Generar Documento" button: read the example
 * document, ask the model, isolate its JSON payload, assemble the document.
 * The remote call itself is not modelled: `response` is the text the model
 * returned, or None when the call raised. `parse` stands for `json.loads`
 * (None when it raises). An uploaded example is Some(d) when python-docx
 * could read it as the document d, Some(None) when it could not.
 */
module Flows {
  import opened Wrappers
  import opened Json
  import opened Extraction
  import opened Docx
  import opened Assembly
  import opened Flatten
  import opened Text

  /**
   * What a click ends in: a document offered for download, no document
   * (a warning or an error was shown), or an uncaught exception.
   */
  datatype Outcome = Delivered(doc: DocValue) | NoDocument | Crash

  /** `texto_de_ejemplo`: "N/A" without an upload, else the flattened upload (None when unreadable). */
  function ExampleText(upload: Option<Option<DocValue>>): (r: Option<string>)
    ensures upload.None? ==> r == Some("N/A")
    ensures upload.Some? ==> (r.None? <==> upload.value.None?)
    ensures upload.Some? && upload.value.Some? ==> r == Some(TextOf(upload.value.value))
  {
    if upload.None? then Some("N/A")
    else if upload.value.None? then None
    else Some(TextOf(upload.value.value))
  }

  /**
   * The payload the two generators return from the model's answer, None
   * when the call raised: from the first `open` to the last `close`.
   * `generar_documento_ia_general` cuts a list ('[' and ']'),
   * `generar_pagare_ia` an object ('{' and '}').
   */
  function AnswerPayload(response: Option<string>, open: char, close: char): (r: Option<string>)
    ensures r.Some? ==> response.Some? && open in response.value && close in response.value
    ensures r.Some? && r.value != [] ==> r.value[0] == open && r.value[|r.value| - 1] == close
    ensures response.Some? && open in response.value && close in response.value ==> r.Some?
  {
    if response.None? then None else ExtractPayload(response.value, open, close)
  }

  /** `if json_respuesta:` - a payload that is present and not empty. */
  predicate Usable(payload: Option<string>) {
    payload.Some? && payload.value != []
  }

  /**
   * `ejecutar_flujo_general` as written: once the payload is usable, the
   * assembler is called with two arguments although it takes one, and the
   * TypeError is raised outside any try block.
   */
  function GeneralFlowAsWritten(instruccion: string, upload: Option<Option<DocValue>>, response: Option<string>): (r: Outcome)
    ensures !r.Delivered?
    ensures r.Crash? <==> instruccion != [] && ExampleText(upload).Some? && Usable(AnswerPayload(response, '[', ']'))
  {
    if instruccion == [] then NoDocument
    else if ExampleText(upload).None? then NoDocument
    else if !Usable(AnswerPayload(response, '[', ']')) then NoDocument
    else Crash
  }

  /**
   * `ejecutar_flujo_general` with the assembler called as it is defined,
   * on the payload alone; the assembler reads the general template itself.
   */
  function GeneralFlow(instruccion: string, upload: Option<Option<DocValue>>, response: Option<string>,
                       templateExists: bool, template: DocValue, parse: string -> Option<Json>): (r: Outcome)
    ensures !r.Crash?
  {
    if instruccion == [] || ExampleText(upload).None? || !Usable(AnswerPayload(response, '[', ']')) then NoDocument
    else
      match GeneralSpec(templateExists, template, parse(AnswerPayload(response, '[', ']').value))
      case None => NoDocument
      case Some(d) => Delivered(d)
  }

  /** The pagaré branch of the button handler, with `ensamblar_pagare_en_memoria`. */
  function PagareFlow(instruccion: string, upload: Option<Option<DocValue>>, response: Option<string>,
                      templateExists: bool, template: DocValue, parse: string -> Option<Json>): (r: Outcome)
    ensures !r.Crash?
  {
    if instruccion == [] || ExampleText(upload).None? || !Usable(AnswerPayload(response, '{', '}')) then NoDocument
    else
      match PagareSpec(templateExists, template, parse(AnswerPayload(response, '{', '}').value))
      case None => NoDocument
      case Some(d) => Delivered(d)
  }

  /**
   * The corrected general flow agrees with the code as written wherever the
   * latter does not crash, and where it crashes it delivers exactly what the
   * assembler builds from the payload.
   */
  lemma GeneralFlowRepairsCrash(instruccion: string, upload: Option<Option<DocValue>>, response: Option<string>,
                                templateExists: bool, template: DocValue, parse: string -> Option<Json>)
    ensures var written := GeneralFlowAsWritten(instruccion, upload, response);
      var fixed := GeneralFlow(instruccion, upload, response, templateExists, template, parse);
      (!written.Crash? ==> fixed == written)
      && (written.Crash? ==>
            (fixed.Delivered? <==> GeneralSpec(templateExists, template, parse(AnswerPayload(response, '[', ']').value)).Some?)
            && (fixed.Delivered? ==> fixed.doc == GeneralSpec(templateExists, template, parse(AnswerPayload(response, '[', ']').value)).value))
  {
  }

  /**
   * The pagaré flow delivers exactly when the click is accepted and
   * `ensamblar_pagare_en_memoria` builds a document from the braced
   * payload, and then delivers that document; every other click ends
   * without a document.
   */
  lemma PagareFlowAssembles(instruccion: string, upload: Option<Option<DocValue>>, response: Option<string>,
                            templateExists: bool, template: DocValue, parse: string -> Option<Json>)
    ensures var r := PagareFlow(instruccion, upload, response, templateExists, template, parse);
      var p := AnswerPayload(response, '{', '}');
      (r.Delivered? <==> instruccion != [] && ExampleText(upload).Some? && Usable(p)
                         && PagareSpec(templateExists, template, parse(p.value)).Some?)
      && (r.Delivered? ==> r.doc == PagareSpec(templateExists, template, parse(p.value)).value)
      && (!r.Delivered? ==> r == NoDocument)
  {
  }

  /**
   * A concrete click that shows the discrepancy: no example uploaded and the
   * model answers "[]". The code as written raises; the corrected flow
   * delivers the template unchanged.
   */
  lemma GeneralFlowCounterexample(template: DocValue, parse: string -> Option<Json>)
    requires parse("[]") == Some(JArr([]))
    ensures GeneralFlowAsWritten("x", None, Some("[]")) == Crash
    ensures GeneralFlow("x", None, Some("[]"), true, template, parse) == Delivered(template)
  {
    BracketsPayload();
    GeneralAppendsInOrder(true, template, Some(JArr([])));
  }

  /** The answer "[]" is its own payload. */
  lemma BracketsPayload()
    ensures AnswerPayload(Some("[]"), '[', ']') == Some("[]")
  {
    assert "[]"[0] == '[' && "[]"[1] == ']';
    assert Find("[]", '[') == 0;
    assert RFind("[]", ']') == 1;
    assert Slice("[]", 0, 2) == "[]"[0..2] == "[]";
  }

  /**
   * A delivered general document is the template with one paragraph per
   * item of the payload, appended in order, and the payload was bracketed.
   */
  lemma GeneralFlowDelivers(instruccion: string, upload: Option<Option<DocValue>>, response: Option<string>,
                            templateExists: bool, template: DocValue, parse: string -> Option<Json>)
    requires GeneralFlow(instruccion, upload, response, templateExists, template, parse).Delivered?
    ensures instruccion != [] && templateExists && response.Some?
    ensures var p := AnswerPayload(response, '[', ']').value;
      p != [] && p[0] == '[' && p[|p| - 1] == ']'
    ensures var d := GeneralFlow(instruccion, upload, response, templateExists, template, parse).doc;
      d.styles == template.styles && d.tables == template.tables
      && d.paragraphs[..|template.paragraphs|] == template.paragraphs
  {
  }

  /**
   * A delivered pagaré was built from a braced payload, from a template
   * that exists, and keeps the template's paragraphs first.
   */
  lemma PagareFlowDelivers(instruccion: string, upload: Option<Option<DocValue>>, response: Option<string>,
                           templateExists: bool, template: DocValue, parse: string -> Option<Json>)
    requires PagareFlow(instruccion, upload, response, templateExists, template, parse).Delivered?
    ensures instruccion != [] && templateExists && response.Some?
    ensures var p := AnswerPayload(response, '{', '}').value;
      p != [] && p[0] == '{' && p[|p| - 1] == '}'
    ensures var d := PagareFlow(instruccion, upload, response, templateExists, template, parse).doc;
      d.styles == template.styles && |d.tables| == |template.tables|
      && d.paragraphs[..|template.paragraphs|] == template.paragraphs
      && forall i :: 1 <= i < |template.tables| ==> d.tables[i] == template.tables[i]
  {
  }
}
