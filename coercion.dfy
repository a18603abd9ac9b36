/**
 * The two Python conversions the amortization rows apply to parsed JSON
 * values: `str(v)` for the first column and `float(v)` for the other three.
 */
module Coercion {
  import opened Wrappers
  import opened Text
  import opened Json
  import opened Numbers

  /** `str(i)` for a Python int. */
  function IntText(i: int): string {
    SignText(i < 0) + Digits(if i < 0 then -i else i)
  }

  /**
   * `repr(s)` for a str: single quotes, or double quotes when the string
   * holds a single quote and no double quote; backslash, the chosen quote,
   * newline, carriage return and tab are escaped.
   */
  function StrRepr(s: string): (r: string)
    ensures |r| >= 2 && r[0] == r[|r| - 1] && (r[0] == '\'' || r[0] == '"')
    ensures r[0] == '"' <==> '\'' in s && '"' !in s
  {
    var q := if '\'' in s && '"' !in s then '"' else '\'';
    [q] + Escape(s, q) + [q]
  }

  /** Reading a repr back: the text between the quotes, unescaped, is the string. */
  lemma StrReprRoundTrip(s: string)
    ensures var r := StrRepr(s); Unescape(r[1..|r| - 1]) == s
  {
    var q := if '\'' in s && '"' !in s then '"' else '\'';
    var r := StrRepr(s);
    assert r[1..|r| - 1] == Escape(s, q);
    EscapeRoundTrip(s, q);
  }

  /** The character a backslash escape `\c` stands for. */
  function Unescaped(c: char): char {
    if c == 'n' then '\n' else if c == 'r' then '\r' else if c == 't' then '\t' else c
  }

  /** Reads the body of a repr: each backslash and the character after it become one character. */
  function Unescape(t: string): (r: string)
    ensures |r| <= |t|
    ensures '\\' !in t ==> r == t
  {
    if t == [] then []
    else if t[0] == '\\' && |t| >= 2 then [Unescaped(t[1])] + Unescape(t[2..])
    else [t[0]] + Unescape(t[1..])
  }

  /** Unescaping undoes escaping with either quote character. */
  lemma {:induction false} EscapeRoundTrip(s: string, q: char)
    requires q == '\'' || q == '"'
    ensures Unescape(Escape(s, q)) == s
  {
    if s != [] {
      var rest := Escape(s[1..], q);
      EscapeRoundTrip(s[1..], q);
      var c := s[0];
      if c == '\\' || c == q || c == '\n' || c == '\r' || c == '\t' {
        var t := Escape(s, q);
        assert t[0] == '\\' && t[2..] == rest && Unescaped(t[1]) == c;
      } else {
        assert Escape(s, q) == [c] + rest;
      }
      assert s == [c] + s[1..];
    }
  }

  /** The body of `repr(s)` with quote character `q`. */
  function Escape(s: string, q: char): (r: string)
    ensures |r| >= |s|
    ensures q == '\'' || q == '"' ==> forall i :: 0 <= i < |r| ==> r[i] != '\n' && r[i] != '\r' && r[i] != '\t'
    ensures q == '\'' || q == '"' ==> r != [] ==> r[0] != q
    ensures q == '\'' || q == '"' ==> forall i :: 0 <= i < |r| && r[i] == q ==> 0 < i && r[i - 1] == '\\'
  {
    if s == [] then []
    else
      var c := s[0];
      var e :=
        if c == '\\' then "\\\\"
        else if c == q then ['\\', q]
        else if c == '\n' then "\\n"
        else if c == '\r' then "\\r"
        else if c == '\t' then "\\t"
        else [c];
      e + Escape(s[1..], q)
  }

  /**
   * `repr(v)`: how a value is written inside a list or a dict, and by
   * `str` for everything but a str.
   */
  function Repr(v: Json): string
    decreases v, 1
  {
    match v
    case JNull => "None"
    case JBool(b) => if b then "True" else "False"
    case JInt(i) => IntText(i)
    case JFloat(f) => FloatRepr(f)
    case JStr(s) => StrRepr(s)
    case JArr(elems) => "[" + Join(", ", ReprEach(v, 0)) + "]"
    case JObj(fields) => "{" + Join(", ", ReprFields(v, 0)) + "}"
  }

  /** The reprs of the elements of the list `parent`, from index `k` on. */
  function ReprEach(parent: Json, k: nat): (r: seq<string>)
    requires parent.JArr? && k <= |parent.elems|
    ensures |r| == |parent.elems| - k
    decreases parent, 0, |parent.elems| - k
  {
    if k == |parent.elems| then [] else [Repr(parent.elems[k])] + ReprEach(parent, k + 1)
  }

  /** The `key: value` items of the dict `parent`, each written by repr, from index `k` on. */
  function ReprFields(parent: Json, k: nat): (r: seq<string>)
    requires parent.JObj? && k <= |parent.fields|
    ensures |r| == |parent.fields| - k
    decreases parent, 0, |parent.fields| - k
  {
    if k == |parent.fields| then []
    else
      var (key, value) := parent.fields[k];
      assert value < parent.fields[k];
      [StrRepr(key) + ": " + Repr(value)] + ReprFields(parent, k + 1)
  }

  /** A list is written as the reprs of its elements, in order. */
  lemma {:induction false} ReprEachItems(parent: Json, k: nat)
    requires parent.JArr? && k <= |parent.elems|
    ensures forall i :: 0 <= i < |parent.elems| - k ==> ReprEach(parent, k)[i] == Repr(parent.elems[k + i])
    decreases |parent.elems| - k
  {
    if k < |parent.elems| {
      ReprEachItems(parent, k + 1);
      forall i | 1 <= i < |parent.elems| - k
        ensures ReprEach(parent, k)[i] == Repr(parent.elems[k + i])
      {
        ReprEachShift(parent, k, i);
      }
    }
  }

  /** A dict is written as `key: value` items, both parts by repr, in order. */
  lemma {:induction false} ReprFieldsItems(parent: Json, k: nat)
    requires parent.JObj? && k <= |parent.fields|
    ensures forall i :: 0 <= i < |parent.fields| - k ==>
              ReprFields(parent, k)[i] == StrRepr(parent.fields[k + i].0) + ": " + Repr(parent.fields[k + i].1)
    decreases |parent.fields| - k
  {
    if k < |parent.fields| {
      ReprFieldsItems(parent, k + 1);
      ReprFieldsHead(parent, k);
      forall i | 1 <= i < |parent.fields| - k
        ensures ReprFields(parent, k)[i] == StrRepr(parent.fields[k + i].0) + ": " + Repr(parent.fields[k + i].1)
      {
        ReprFieldsShift(parent, k, i);
      }
    }
  }

  /** Past the first, the reprs from `k` are those from `k + 1`. */
  lemma ReprEachShift(parent: Json, k: nat, i: nat)
    requires parent.JArr? && 1 <= i < |parent.elems| - k
    ensures ReprEach(parent, k)[i] == ReprEach(parent, k + 1)[i - 1]
  {
  }

  /** The first item from `k` is the `k`-th member. */
  lemma ReprFieldsHead(parent: Json, k: nat)
    requires parent.JObj? && k < |parent.fields|
    ensures ReprFields(parent, k)[0] == StrRepr(parent.fields[k].0) + ": " + Repr(parent.fields[k].1)
  {
  }

  /** Past the first, the items from `k` are those from `k + 1`. */
  lemma ReprFieldsShift(parent: Json, k: nat, i: nat)
    requires parent.JObj? && 1 <= i < |parent.fields| - k
    ensures ReprFields(parent, k)[i] == ReprFields(parent, k + 1)[i - 1]
  {
  }

  /** `str(v)`: a str is itself, everything else its repr. */
  function PyStr(v: Json): (r: string)
    ensures v.JStr? ==> r == v.s
  {
    if v.JStr? then v.s else Repr(v)
  }

  /**
   * `float(v)`: booleans are 1 and 0, ints keep their value, floats are
   * themselves, strings are read as numerals; None where Python raises
   * (None, lists, dicts, and strings that are not numerals).
   */
  function ToFloat(v: Json): (r: Option<Decimal>)
    ensures v.JNull? || v.JArr? || v.JObj? ==> r.None?
    ensures v.JFloat? ==> r == Some(v.f)
  {
    match v
    case JBool(b) => Some(Decimal(false, if b then 1 else 0, 0))
    case JInt(i) => Some(Decimal(i < 0, if i < 0 then -i else i, 0))
    case JFloat(f) => Some(f)
    case JStr(s) => ParseFloat(s)
    case _ => None
  }

  /** Reading an int's text: a sign and digits, no point. */
  lemma ParseIntText(i: int)
    ensures ParseFloat(IntText(i)) == Some(Decimal(i < 0, if i < 0 then -i else i, 0))
  {
    var n := if i < 0 then -i else i;
    DigitsRoundTrip(n);
    ReadBackWhole(i < 0, Digits(n), n);
  }

  /**
   * `float(str(v)) == float(v)` for numbers: the text `str` gives an int or
   * a float reads back to the same value.
   */
  lemma FloatOfStr(v: Json)
    requires v.JInt? || v.JFloat?
    ensures ToFloat(v).Some? && ToFloat(JStr(PyStr(v))).Some?
    ensures SameValue(ToFloat(JStr(PyStr(v))).value, ToFloat(v).value)
  {
    var t := PyStr(v);
    if v.JInt? {
      assert t == IntText(v.i);
      ParseIntText(v.i);
      assert ToFloat(JStr(t)) == ParseFloat(IntText(v.i));
    } else {
      assert t == FloatRepr(v.f);
      FloatReprRoundTrip(v.f);
      assert ToFloat(JStr(t)) == ParseFloat(FloatRepr(v.f));
    }
  }
}
