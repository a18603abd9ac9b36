/**
 * The closed set of paragraph styles the templates define, the mapping of
 * whatever style the model wrote onto that set, and the style list quoted
 * into the prompt.
 */
module Styles {
  import opened Wrappers
  import opened Text
  import opened Json

  datatype Style = Titulo1 | ParrafoJustificado | ListaNumerada | EstiloFirma

  /** The name under which the template defines each style. */
  function Name(st: Style): string {
    match st
    case Titulo1 => "Titulo_1"
    case ParrafoJustificado => "Parrafo_Justificado"
    case ListaNumerada => "Lista_Numerada"
    case EstiloFirma => "Estilo_Firma"
  }

  /** NOMBRES_DE_ESTILOS, in its order. */
  const StyleNames: seq<string> := [Name(Titulo1), Name(ParrafoJustificado), Name(ListaNumerada), Name(EstiloFirma)]

  /** The style whose name is `n`, if `n` is one of the four names. */
  function FromName(n: string): (r: Option<Style>)
    ensures r.Some? <==> n in StyleNames
    ensures r.Some? ==> Name(r.value) == n
  {
    if n == "Titulo_1" then Some(Titulo1)
    else if n == "Parrafo_Justificado" then Some(ParrafoJustificado)
    else if n == "Lista_Numerada" then Some(ListaNumerada)
    else if n == "Estilo_Firma" then Some(EstiloFirma)
    else None
  }

  /** Each style is found again from its own name: the names are distinct. */
  lemma FromNameOfName(st: Style)
    ensures FromName(Name(st)) == Some(st)
  {
  }

  /**
   * `item.get('style', 'Parrafo_Justificado')`, then replaced by
   * 'Parrafo_Justificado' unless it is one of NOMBRES_DE_ESTILOS. `field`
   * is what the item holds under "style", if anything.
   */
  function Normalize(field: Option<Json>): (r: Style)
    ensures Name(r) in StyleNames
    ensures field.Some? && field.value.JStr? && field.value.s in StyleNames ==> Name(r) == field.value.s
    ensures !(field.Some? && field.value.JStr? && field.value.s in StyleNames) ==> r == ParrafoJustificado
  {
    var estilo := field.GetOr(JStr(Name(ParrafoJustificado)));
    if estilo.JStr? && FromName(estilo.s).Some? then FromName(estilo.s).value else ParrafoJustificado
  }

  /** Normalizing the name of a normalized style changes nothing. */
  lemma NormalizeIdempotent(field: Option<Json>)
    ensures Normalize(Some(JStr(Name(Normalize(field))))) == Normalize(field)
  {
    FromNameOfName(Normalize(field));
  }

  /** `f"'{s}'"` */
  function Quote(s: string): string {
    "'" + s + "'"
  }

  /** `[f"'{s}'" for s in names]` */
  function QuoteEach(names: seq<string>): (r: seq<string>)
    ensures |r| == |names|
  {
    if names == [] then [] else [Quote(names[0])] + QuoteEach(names[1..])
  }

  /** `", ".join([f"'{s}'" for s in names])` */
  function QuotedList(names: seq<string>): string {
    Join(", ", QuoteEach(names))
  }

  /** The quoted list is the first quoted name, then ", " and the quoted rest. */
  lemma QuotedListCons(names: seq<string>)
    requires names != []
    ensures |names| == 1 ==> QuotedList(names) == Quote(names[0])
    ensures |names| > 1 ==> QuotedList(names) == Quote(names[0]) + (", " + QuotedList(names[1..]))
  {
    assert QuoteEach(names)[1..] == QuoteEach(names[1..]);
  }

  /** The style list the prompts embed (lista_estilos_str). */
  function StyleList(): string {
    QuotedList(StyleNames)
  }

  /**
   * Reads a quoted list back: names wrapped in single quotes and separated
   * by ", ". It is the inverse of QuotedList on names without a quote.
   */
  function ParseQuotedList(s: string): Option<seq<string>>
    decreases |s|
  {
    if s == [] then Some([])
    else if s[0] != '\'' then None
    else
      var k := Find(s[1..], '\'');
      if k == -1 then None
      else
        var name := s[1..k + 1];
        var rest := s[k + 2..];
        if rest == [] then Some([name])
        else if |rest| > 2 && rest[..2] == ", " then
          match ParseQuotedList(rest[2..])
          case None => None
          case Some(more) => Some([name] + more)
        else None
  }

  /** Reading one quoted name that holds no quote. */
  lemma ParseQuotedOne(n: string)
    requires '\'' !in n
    ensures ParseQuotedList(Quote(n)) == Some([n])
  {
    ParseQuotedName(n, []);
    assert Quote(n) + [] == Quote(n);
  }

  /** Reading one quoted name that holds no quote, then ", " and a list that reads as `more`. */
  lemma ParseQuotedMore(n: string, tail: string, more: seq<string>)
    requires '\'' !in n && tail != [] && ParseQuotedList(tail) == Some(more)
    ensures ParseQuotedList(Quote(n) + (", " + tail)) == Some([n] + more)
  {
    ParseQuotedName(n, ", " + tail);
    assert (", " + tail)[2..] == tail;
  }

  /** The first quoted name is read up to its closing quote. */
  lemma ParseQuotedName(n: string, after: string)
    requires '\'' !in n
    ensures var s := Quote(n) + after;
      Find(s[1..], '\'') == |n| && s[1..|n| + 1] == n && s[|n| + 2..] == after
  {
    var s := Quote(n) + after;
    assert s[1..] == n + "'" + after;
    assert s[1..][|n|] == '\'';
    assert s[1..][..|n|] == n;
    FirstOccurrenceUnique(s[1..], '\'', |n|, Find(s[1..], '\''));
  }

  /** The quoted list is read back to the very names it was built from. */
  lemma {:induction false} QuotedListRoundTrip(names: seq<string>)
    requires forall n :: n in names ==> '\'' !in n
    ensures ParseQuotedList(QuotedList(names)) == Some(names)
  {
    if |names| == 1 {
      QuotedListCons(names);
      ParseQuotedOne(names[0]);
      assert names == [names[0]];
    } else if |names| > 1 {
      assert names[0] in names;
      QuotedListRoundTrip(names[1..]);
      QuotedListStep(names);
    }
  }

  /** A list of two or more names reads back once the list without its first name does. */
  lemma QuotedListStep(names: seq<string>)
    requires |names| > 1 && '\'' !in names[0]
    requires ParseQuotedList(QuotedList(names[1..])) == Some(names[1..])
    ensures ParseQuotedList(QuotedList(names)) == Some(names)
  {
    var rest := names[1..];
    QuotedListCons(names);
    QuotedListCons(rest);
    ParseQuotedMore(names[0], QuotedList(rest), rest);
    assert names == [names[0]] + rest;
  }

  /** The prompt's style list names exactly the four styles, in order. */
  lemma StyleListNamesStyles()
    ensures ParseQuotedList(StyleList()) == Some(StyleNames)
  {
    NamesUnquoted();
    QuotedListRoundTrip(StyleNames);
  }

  /** No style name holds a single quote. */
  lemma NamesUnquoted()
    ensures forall n :: n in StyleNames ==> '\'' !in n
  {
    forall st: Style ensures '\'' !in Name(st) {
      match st
      case Titulo1 =>
      case ParrafoJustificado =>
      case ListaNumerada =>
      case EstiloFirma =>
    }
  }
}
