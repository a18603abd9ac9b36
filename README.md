# Asistente Legal: a verified model of the document pipeline

The Asistente Legal is a Streamlit application that drafts Mexican legal
documents. The user writes instructions and may upload an example `.docx`
whose tone the drafts should imitate. A language model then answers with
JSON. For a general document the JSON is a list of `{"style", "text"}`
items. For a pagaré (promissory note) it is an object holding a `"prosa"`
list of such items and a `"tabla_amortizacion"` list of payment rows. The
application pastes the JSON into a Word template and offers the result for
download.

This project models the deterministic core of `app.py`, one module per step:

- `Text` holds the Python `str` operations the code relies on (`find`,
  `rfind`, slicing, `strip`, `join`). It also defines `split` on newlines,
  which the code never calls: it is the inverse of `'\n'.join` in the
  lemmas about the flattened text.
- `Extraction` cuts the JSON payload out of the model's answer. The payload
  runs from the first opening bracket to the last closing one.
- `Styles` covers the closed set of template styles (`NOMBRES_DE_ESTILOS`),
  the normalisation of item styles, and the quoted style list embedded in
  the prompts.
- `Json` defines parsed JSON values with Python's `dict.get`, truthiness and
  `for` iteration.
- `Numbers` and `Coercion` define `str(v)`, `float(v)` and the `:,.2f`
  format over exact decimals. The `str()` of ints and floats is read back
  by `float()`. The `:,.2f` amounts are read back by a fixed-point reader
  that drops the commas, since `float()` rejects them. The quoted body of a
  str's repr is read back by unescaping. The words `str()` writes for None,
  booleans, lists and dicts have no reader in the model.
- `Docx` defines the document object the assemblers change in place
  (`add_paragraph`, `add_row`, setting a cell's text).
- `Rows` fills one amortization row by position and writes the `"ERROR"`
  fallback.
- `Assembly` holds `ensamblar_docx_general` and `ensamblar_pagare_en_memoria`.
  Each is an imperative method that opens the template as a new `Document`
  and returns the document it builds, proved equal to a specification
  function. The loops that change the document (`AppendItems`,
  `AppendSchedule`, and `FillRow` in `Rows`) take it as a parameter and
  modify it in place. The properties of the specification functions are
  proved as lemmas.
- `Flatten` holds `extraer_texto_de_docx`: nested loops over paragraphs,
  tables, rows and cells, proved equal to a flattening function.
- `Flows` models the two button workflows, including the crash at
  `app.py:376`.

Python exceptions caught by the code's own `try` blocks become `None`
results (`Option`). An uncaught one becomes the `Crash` outcome.

## Model

| member | source | states |
|---|---|---|
| Text.Find | app.py:87 | `find` gives the first index of the character, or -1 exactly when it is absent |
| Text.RFind | app.py:88 | `rfind` gives the last index of the character, or -1 exactly when it is absent |
| Text.Strip | app.py:39 | the stripped text is empty exactly when the text is blank, otherwise neither starts nor ends with white space, and it is a piece of the text whose cut-off head and tail are both blank |
| Text.SplitJoin | app.py:46 | joining texts that contain no newline with `'\n'` is undone by splitting at `'\n'` |
| Json.Get | app.py:189 | `dict.get` finds a value exactly when some member has that key, and the value it finds is stored under that key |
| Json.Values | app.py:249 | `list(d.values())` has one value per member, in document order, each the member's value |
| Json.GetInValues | app.py:249 | a value `get` finds is among the values `values()` lists |
| Json.Iterate | app.py:188 | `for` walks a list's elements, a dict's keys and a string's one-character strings, in order, and raises exactly for null, booleans and numbers |
| Json.TruthyIterate | app.py:231 | for a list, dict or string, `if v:` holds exactly when the loop over it visits something |
| Extraction.ExtractPayload | app.py:86-96 | None exactly when either delimiter is missing; a non-empty payload starts with the opening delimiter, ends with the closing one, and is no longer than the answer |
| Extraction.ExtractSpan | app.py:87-95 | the payload is the span from the first opening delimiter to the last closing one, and empty when the last closing delimiter comes first |
| Extraction.ExtractClean | app.py:163-173 | a text that already starts with `{` and ends with `}` is returned unchanged |
| Extraction.ExtractIdempotent | app.py:86-96 | extracting from a non-empty payload gives the same payload again |
| Extraction.ExtractIgnoresWrapping | app.py:163-173 | prose before the payload without an opening delimiter, and after it without a closing one, is cut away |
| Styles.FromName | app.py:29 | a name maps to a style exactly when it is one of the four template style names, and the style's name is that name |
| Styles.FromNameOfName | app.py:29 | a fact of the literal name table that normalisation relies on: each style's name maps back to that style |
| Styles.Normalize | app.py:189-193 | the style is always one of the four; a known style name is kept, and anything else (absent, unknown, not a string) becomes Parrafo_Justificado |
| Styles.NormalizeIdempotent | app.py:223-226 | normalising an already normalised style changes nothing |
| Styles.QuotedListRoundTrip | app.py:54 | the `", "`-joined list of quoted names reads back to the same names |
| Styles.StyleListNamesStyles | app.py:107 | the style list in the prompt names exactly the four template styles, in order |
| Numbers.DigitsRoundTrip | app.py:255 | the decimal digits of a natural number denote it, with no leading zero |
| Numbers.GroupedRoundTrip | app.py:256 | the comma-grouped integer part is well grouped and denotes the same number once the commas are removed |
| Numbers.RoundHalfEvenNearest | app.py:256 | rounding is within half a unit of the exact quotient, and goes to the even neighbour on a tie |
| Numbers.CentsNearest | app.py:256-258 | the hundredths are exact for at most two decimals, and otherwise the nearest hundredth |
| Numbers.FormatFixed2RoundTrip | app.py:256-258 | the `:,.2f` text reads back to the value's sign and its rounded hundredths |
| Numbers.FormatFixed2Example | app.py:256 | 1234.5 is written "1,234.50" |
| Numbers.FormatFixed2NegativeZero | app.py:256 | -0.0 is written "-0.00" |
| Numbers.FormatFixed2Shape | app.py:256-258 | the `:,.2f` text is an optional minus, a comma-grouped integer part, a point and exactly two digits |
| Numbers.TrimSameValue | app.py:255 | dropping trailing zero decimals keeps the value |
| Numbers.FloatStrip | app.py:256-258 | what `float()` reads is an infix of the string with only `float()` white space (ASCII tab to carriage return and space, and the non-ASCII `isspace` characters) cut off each end, and neither end of it is such white space |
| Numbers.ParseFloatAccepts | app.py:256-263 | `float()` of a string succeeds exactly when, after that white space and one optional sign, the rest is digits with at most one point and at least one digit; the value is those digits without the point, scaled by the digits after it, with the sign |
| Numbers.FloatKeepsSeparator | app.py:256 | U+001C is white space for `strip()` but not for `float()`, which rejects a numeral preceded by it, so such a value gives an ERROR row |
| Numbers.PlainTextRoundTrip | app.py:256 | `float()` reads a positional decimal text back to exactly the number written |
| Numbers.FloatReprRoundTrip | app.py:255 | `float()` reads the `str()` of a float back to the same value |
| Coercion.PyStr | app.py:255 | `str()` of a string is the string itself |
| Coercion.ToFloat | app.py:256-258 | `float()` fails on null, lists and dicts, and gives a float back unchanged |
| Coercion.ParseIntText | app.py:255-256 | `float()` reads the `str()` of an int back to the int's value |
| Coercion.FloatOfStr | app.py:255-258 | for an int or a float, `float(str(v))` has the value of `float(v)` |
| Coercion.StrRepr | app.py:255 | the repr of a str is wrapped in one kind of quote, double exactly when the string holds a single quote and no double quote |
| Coercion.EscapeRoundTrip | app.py:255 | unescaping undoes the escaping of backslash, the quote, newline, carriage return and tab |
| Coercion.StrReprRoundTrip | app.py:255 | unescaping what lies between the quotes of a str's repr gives the string back |
| Coercion.ReprEachItems | app.py:255 | `str()` of a list writes each element by its repr, in order |
| Coercion.ReprFieldsItems | app.py:255 | `str()` of a dict writes each member as the repr of its key, ": " and the repr of its value, in order |
| Docx.Document.constructor | app.py:216 | an opened template holds the template's styles, paragraphs and tables |
| Docx.Document.AddParagraph | app.py:227 | appends the paragraph exactly when the style is defined, and leaves the tables alone |
| Docx.Document.AddRow | app.py:245 | appends a row of blank cells, as many as the table has columns, and returns its index |
| Docx.Document.SetCell | app.py:255-258 | sets the cell's text exactly when the column exists in the row; nothing else changes |
| Rows.CellText | app.py:255-258 | the text of column k exists exactly when there is a k-th value and, for columns 1 to 3, `float()` accepts it |
| Rows.WriteCell | app.py:255 | a cell write succeeds exactly when the text was computed and the cell exists, and then changes only that cell |
| Rows.FailAtSpec | app.py:254-259 | the first failing statement: all earlier ones had a cell and a text, and it lacks one of them |
| Rows.TryCellsEffect | app.py:254-258 | the try block writes its texts up to the first failure, keeps all other cells, and completes exactly when nothing fails |
| Rows.FailAtNone | app.py:254-259 | no statement fails exactly when the table has at least four columns, the row has at least four values, and `float()` accepts values 1 to 3 (numbers, booleans or numeric strings) |
| Rows.RowSuccess | app.py:254-258 | the try block completes exactly for such rows, and the row is then `str(v0)` and the three `:,.2f` amounts followed by blank cells |
| Rows.RowFailure | app.py:259-263 | a failing row has "ERROR" in cell 0, the texts written before the failure, and blanks after it; with no columns there is no row at all |
| Rows.RowAmountsReadBack | app.py:256-258 | each amount cell of a completed row reads back to its value's sign and rounded hundredths |
| Rows.TryWrite | app.py:255-258 | one statement of the try block changes only its cell, and only when the statement succeeds |
| Rows.RowCells | app.py:245-263 | the finished row exists exactly when the table has at least one column, and has one cell per column |
| Rows.FillRow | app.py:254-263 | the new row of the first table becomes exactly the row RowCells describes; the result is false when even the ERROR write fails |
| Assembly.GetList | app.py:221 | `datos.get(key, [])` is the stored value when the key is present, and the empty list otherwise |
| Assembly.GeneralSpec | app.py:179-204 | a general document exists only for an existing template and iterable data, and keeps the template's styles, its tables, and its paragraphs first |
| Assembly.PagareSpec | app.py:207-274 | a pagaré exists only for an existing template and a JSON object, and keeps the template's styles, its number of tables, its paragraphs first and every table after the first |
| Assembly.ItemText | app.py:189 | a missing text is "" and a string text is kept; a non-string text is accepted (as "") exactly when it is falsy |
| Assembly.ItemParagraph | app.py:188-195 | an item yields a paragraph exactly when it is a dict with acceptable text; the paragraph has that text and the item's normalised style |
| Assembly.ParagraphsEach | app.py:188-195 | the item loop succeeds exactly when every item does, and then yields one paragraph per item, in order |
| Assembly.ScheduleRowsEach | app.py:244-263 | the schedule loop succeeds exactly when every entry gives a row, and then yields one row per entry, in order |
| Assembly.GeneralAppendsInOrder | app.py:179-204 | a general document exists exactly when the template exists, the data is iterable and every item gives a paragraph; it is then the template plus one paragraph per item, in order, each with the item's text and a normalised style |
| Assembly.PagareProseAsGeneral | app.py:221-227 | the prose of a pagaré is assembled exactly as a general document made of its "prosa" list |
| Assembly.PagareWithoutSchedule | app.py:230-231 | an empty or missing schedule adds no rows and needs no table: the result is the template plus the prose |
| Assembly.MissingScheduleIsEmpty | app.py:230 | a missing "tabla_amortizacion" key counts as the empty list |
| Assembly.PagareSucceeds | app.py:221-263 | the pagaré of a dict succeeds exactly when the template exists, every prose item yields a paragraph and, for a truthy schedule, the schedule is a list of dicts and the first table has a column; a row whose values fail never stops the document |
| Assembly.PagareNeedsTable | app.py:234-236 | a non-empty schedule and a template without tables give no document |
| Assembly.PagareScheduleMustBeList | app.py:244-249 | a truthy schedule that is not a list gives no document |
| Assembly.PagareRowsPerEntry | app.py:238-263 | a finished pagaré has one new row per schedule entry at the end of the first table, in order; the old rows and the other tables are unchanged |
| Assembly.AppendItems | app.py:188-195 | the loop succeeds exactly when every item gives a paragraph, and then appends those paragraphs in order; the tables are untouched |
| Assembly.AppendSchedule | app.py:244-263 | the loop succeeds exactly when every entry gives a row, and then appends those rows, in order, to the first table; the paragraphs are untouched |
| Assembly.EnsamblarDocxGeneral | app.py:179-204 | the in-place assembly returns exactly the document the general specification describes, or None |
| Assembly.EnsamblarPagare | app.py:207-274 | the in-place assembly returns exactly the document the pagaré specification describes, or None |
| Flatten.NonBlankMembers | app.py:38-45 | a text is kept exactly when it is present and not blank |
| Flatten.CollectedMembers | app.py:37-45 | the collected texts are exactly the non-blank paragraph and cell texts, with the paragraphs first |
| Flatten.TextOfLines | app.py:46 | nothing collected gives ""; otherwise, when no collected text spans several lines, splitting the result at newlines gives the collected texts back |
| Flatten.KeptParagraphs | app.py:38-40 | the paragraph loop keeps exactly the non-blank paragraph texts, in order |
| Flatten.AppendTableCells | app.py:41-44 | the row and cell loops of one table append exactly its non-blank cell texts, row by row |
| Flatten.ExtraerTexto | app.py:34-49 | the nested loops return the flattened text of a readable upload, and None for an unreadable one |
| Flows.ExampleText | app.py:362-365 | "N/A" without an upload; None exactly when the upload cannot be read; otherwise the flattened text |
| Flows.AnswerPayload | app.py:86-96 | a payload exists exactly when the answer came back holding both delimiters, and a non-empty one starts with the opening and ends with the closing one; the pagaré generator (app.py:163-173) uses it with braces |
| Flows.GeneralFlowAsWritten | app.py:356-385 | the general workflow as written never delivers, and crashes exactly when the instructions, the example and the payload are all usable |
| Flows.GeneralFlow | app.py:356-385 | the corrected general workflow never crashes |
| Flows.PagareFlow | app.py:320-352 | the pagaré workflow never crashes |
| Flows.PagareFlowAssembles | app.py:320-352 | the pagaré workflow delivers exactly when the click is accepted and the assembler builds a document from the braced payload, and delivers that document; otherwise no document |
| Flows.GeneralFlowRepairsCrash | app.py:373-376 | the corrected workflow agrees with the code as written wherever it does not crash, and otherwise delivers exactly the assembled document |
| Flows.GeneralFlowCounterexample | app.py:376 | with no example uploaded and the answer "[]", the code as written crashes while the corrected workflow delivers the template |
| Flows.GeneralFlowDelivers | app.py:373-385 | a delivered general document came from a bracketed payload and an existing template, and it keeps the template's styles, tables and paragraphs first |
| Flows.PagareFlowDelivers | app.py:340-352 | a delivered pagaré came from a braced payload and an existing template, and it keeps the template's styles, its number of tables, its paragraphs first and every table after the first |

## Left out

- The calls to the language model are not modelled, so the prompts' wording has no role. The answer is an input: its text, or None when the call raised.
- `json.loads` is not modelled. Each assembler receives its result as an input, with None standing for a decode error.
- Duplicate keys in a JSON object are not modelled. The model keeps the members in order and `Get` returns the first match, while Python keeps the last.
- Reading and saving `.docx` files is not modelled. A template is a value holding its style names, paragraphs and tables, and `os.path.exists` is a boolean input.
- The buffer (`io.BytesIO`) is not modelled: a saved document is its value.
- Merged cells, runs, headers and nested tables of a document are not modelled.
- Streamlit is not modelled: the widgets, messages, spinners, `st.cache_data`, the logo, the model selector, and login and logout with the session state.
- Numbers are exact decimals. The binary rounding of Python floats is not modelled. For example, `2.675` is stored just below 2.675, so Python formats it as `2.67` where the model gives `2.68`. Ints above 2**53 lose no precision in the model.
- Coercion.PyStr: Python writes a float of 1e16 or more, or below 1e-4, in exponent notation. The model writes every float positionally, and the 17-significant-digit limit is not modelled either.
- Coercion.ToFloat: `float()` of a string also accepts exponents, `inf`, `nan` and underscores between digits. The model rejects these, so such a row becomes an ERROR row where Python would format it.
- Coercion.ToFloat: `float()` of a string also reads digits of other scripts, such as Arabic-Indic digits. The model reads only ASCII digits, so such a row becomes an ERROR row where Python writes the amount.
- Coercion.ToFloat: `float()` of an int at or above about 1.8e308 raises OverflowError, which makes Python write an ERROR row. The model converts every int exactly and formats it.
- Coercion.ToFloat: `json.loads` also reads `NaN`, `Infinity` and `-Infinity`, and turns a number too large for a float, such as `1e400`, into infinity. Decimal cannot hold these values, so the model has no counterpart for the "nan" and "inf" cells Python would write.
- Coercion.StrRepr: non-printable characters other than newline, carriage return and tab are not escaped.
- Assembly.ItemText: python-docx also accepts some truthy non-string texts, such as a list of strings. The model rejects every truthy non-string text.
- Assembly.ItemParagraph: lxml refuses text holding control characters that XML 1.0 does not allow, such as U+0001, and raises ValueError. `ensamblar_docx_general` then returns None, while the model adds the paragraph.
- Rows.CellText: the same lxml check applies to cell text. A row whose first value's `str()` holds such a character becomes an ERROR row in Python, while the model writes the text.

## Findings

| source | as written | input that shows it | evidently intended | confidence | as-written member | corrected member |
|---|---|---|---|---|---|---|
| app.py:376 | `ensamblar_docx_general` is called with two arguments, the payload and the template name, but it is defined with one (app.py:179). The call is outside any `try`, so every general document ends in a TypeError | no example uploaded, any instruction, and the model answers `[]` | call the assembler with the payload alone; it reads the general template itself | not executed | Flows.GeneralFlowAsWritten | Flows.GeneralFlow |
