/**
 * The values `json.loads` produces, and the few Python operations the
 * assemblers apply to them: `dict.get`, `dict.values`, truthiness and
 * iteration with `for`.
 */
module Json {
  import opened Wrappers

  /**
   * An exact decimal number: (-1)^neg * mag / 10^exp. It stands for the
   * Python float that a JSON number with a fraction or an exponent becomes;
   * `neg` is kept separately so that -0.0 keeps its sign.
   */
  datatype Decimal = Decimal(neg: bool, mag: nat, exp: nat)

  /**
   * A parsed JSON value. JSON numbers without fraction or exponent become
   * Python ints (JInt), the others floats (JFloat). An object keeps its
   * members in document order, as a Python dict does.
   */
  datatype Json =
    | JNull
    | JBool(b: bool)
    | JInt(i: int)
    | JFloat(f: Decimal)
    | JStr(s: string)
    | JArr(elems: seq<Json>)
    | JObj(fields: seq<(string, Json)>)

  /** `d.get(key)`: the value stored under `key`, if any. */
  function Get(fields: seq<(string, Json)>, key: string): (r: Option<Json>)
    ensures r.Some? <==> exists i :: 0 <= i < |fields| && fields[i].0 == key
    ensures r.Some? ==> exists i :: 0 <= i < |fields| && fields[i] == (key, r.value)
  {
    if fields == [] then None
    else if fields[0].0 == key then Some(fields[0].1)
    else
      var r := Get(fields[1..], key);
      assert r.Some? ==> exists i :: 0 <= i < |fields[1..]| && fields[1..][i] == (key, r.value);
      r
  }

  /** `list(d.values())`: the member values in document order. */
  function Values(fields: seq<(string, Json)>): (r: seq<Json>)
    ensures |r| == |fields|
    ensures forall i :: 0 <= i < |fields| ==> r[i] == fields[i].1
  {
    seq(|fields|, i requires 0 <= i < |fields| => fields[i].1)
  }

  /** `bool(v)`: Python's truthiness of a parsed value. */
  predicate Truthy(v: Json) {
    match v
    case JNull => false
    case JBool(b) => b
    case JInt(i) => i != 0
    case JFloat(f) => f.mag != 0
    case JStr(s) => s != []
    case JArr(elems) => elems != []
    case JObj(fields) => fields != []
  }

  /**
   * What `for x in v` visits: the elements of a list, the keys of a dict,
   * the one-character strings of a str; None where Python raises
   * TypeError (null, booleans, numbers are not iterable).
   */
  function Iterate(v: Json): (r: Option<seq<Json>>)
    ensures r.Some? <==> v.JArr? || v.JObj? || v.JStr?
    ensures v.JArr? ==> r == Some(v.elems)
    ensures v.JObj? ==>
              r.Some? && |r.value| == |v.fields|
              && forall i :: 0 <= i < |v.fields| ==> r.value[i] == JStr(v.fields[i].0)
    ensures v.JStr? ==>
              r.Some? && |r.value| == |v.s|
              && forall i :: 0 <= i < |v.s| ==> r.value[i] == JStr([v.s[i]])
  {
    match v
    case JArr(elems) => Some(elems)
    case JObj(fields) => Some(seq(|fields|, i requires 0 <= i < |fields| => JStr(fields[i].0)))
    case JStr(s) => Some(seq(|s|, i requires 0 <= i < |s| => JStr([s[i]])))
    case _ => None
  }

  /** A value `Get` finds is among the values `Values` lists. */
  lemma {:induction false} GetInValues(fields: seq<(string, Json)>, key: string)
    ensures Get(fields, key).Some? ==> Get(fields, key).value in Values(fields)
  {
    if fields != [] && fields[0].0 != key {
      GetInValues(fields[1..], key);
      assert Values(fields) == [fields[0].1] + Values(fields[1..]);
    }
  }

  /**
   * For a value `for` can walk, truthiness is non-emptiness: `if v:` holds
   * exactly when the loop over `v` visits something.
   */
  lemma TruthyIterate(v: Json)
    requires Iterate(v).Some?
    ensures Truthy(v) <==> Iterate(v).value != []
  {
    if v.JObj? && v.fields != [] {
      assert Iterate(v).value[0] == JStr(v.fields[0].0);
    } else if v.JStr? && v.s != [] {
      assert Iterate(v).value[0] == JStr([v.s[0]]);
    }
  }
}
