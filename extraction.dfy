/**
 * Isolating the JSON payload in the raw text the language model returns:
 * everything from the first opening delimiter to the last closing one,
 * inclusive. Stray delimiters in surrounding prose are not recognised as
 * such; there is no bracket balancing.
 */
module Extraction {
  import opened Wrappers
  import opened Text

  /**
   * `raw[raw.find(open) : raw.rfind(close) + 1]`, or None when either
   * delimiter is missing. When the last `close` precedes the first `open`
   * the Python slice is empty, and so is the payload here.
   */
  function ExtractPayload(raw: string, open: char, close: char): (r: Option<string>)
    ensures r.None? <==> open !in raw || close !in raw
    ensures r.Some? && r.value != [] ==> r.value[0] == open && r.value[|r.value| - 1] == close
    ensures r.Some? ==> |r.value| <= |raw|
  {
    var start := Find(raw, open);
    var end := RFind(raw, close);
    if start == -1 || end == -1 then None
    else Some(Slice(raw, start, end + 1))
  }

  /**
   * The payload is exactly the span from the first `open` (index i) to the
   * last `close` (index j), and empty when j comes before i.
   */
  lemma ExtractSpan(raw: string, open: char, close: char, i: nat, j: nat)
    requires i < |raw| && raw[i] == open && open !in raw[..i]
    requires j < |raw| && raw[j] == close && close !in raw[j + 1..]
    ensures ExtractPayload(raw, open, close) == Some(if i <= j then raw[i..j + 1] else [])
  {
    var start := Find(raw, open);
    var end := RFind(raw, close);
    assert open in raw by { assert raw[i] == open; }
    assert close in raw by { assert raw[j] == close; }
    FirstOccurrenceUnique(raw, open, i, start);
    LastOccurrenceUnique(raw, close, j, end);
  }

  /** Text that already starts with `open` and ends with `close` comes back unchanged. */
  lemma ExtractClean(p: string, open: char, close: char)
    requires |p| > 0 && p[0] == open && p[|p| - 1] == close
    ensures ExtractPayload(p, open, close) == Some(p)
  {
    assert p[..0] == [];
    assert p[|p|..] == [];
    ExtractSpan(p, open, close, 0, |p| - 1);
    assert p[0..|p|] == p;
  }

  /** Extracting twice is extracting once, whenever the first extraction found a non-empty payload. */
  lemma ExtractIdempotent(raw: string, open: char, close: char)
    requires ExtractPayload(raw, open, close).Some? && ExtractPayload(raw, open, close).value != []
    ensures ExtractPayload(ExtractPayload(raw, open, close).value, open, close) == ExtractPayload(raw, open, close)
  {
    ExtractClean(ExtractPayload(raw, open, close).value, open, close);
  }

  /**
   * Commentary before the payload that holds no `open`, and after it that
   * holds no `close`, is cut away.
   */
  lemma ExtractIgnoresWrapping(pre: string, p: string, post: string, open: char, close: char)
    requires open !in pre && close !in post
    requires |p| > 0 && p[0] == open && p[|p| - 1] == close
    ensures ExtractPayload(pre + p + post, open, close) == Some(p)
  {
    var raw := pre + p + post;
    var i, j := |pre|, |pre| + |p| - 1;
    assert raw[..i] == pre;
    assert raw[j + 1..] == post;
    assert raw[i] == p[0];
    assert raw[j] == p[|p| - 1];
    ExtractSpan(raw, open, close, i, j);
    assert raw[i..j + 1] == p;
  }
}
