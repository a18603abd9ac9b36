/** String operations of Python's `str` that the pipeline relies on. */
module Text {

  /** `s.find(c)`: the first index of `c` in `s`, or -1. */
  function Find(s: string, c: char): (r: int)
    ensures -1 <= r < |s|
    ensures r == -1 <==> c !in s
    ensures r >= 0 ==> s[r] == c && c !in s[..r]
  {
    if s == [] then -1
    else if s[0] == c then 0
    else
      var k := Find(s[1..], c);
      assert s[1..][..if k < 0 then 0 else k] == s[1..1 + (if k < 0 then 0 else k)];
      if k == -1 then -1 else k + 1
  }

  /** `s.rfind(c)`: the last index of `c` in `s`, or -1. */
  function RFind(s: string, c: char): (r: int)
    ensures -1 <= r < |s|
    ensures r == -1 <==> c !in s
    ensures r >= 0 ==> s[r] == c && c !in s[r + 1..]
  {
    if s == [] then -1
    else if s[|s| - 1] == c then |s| - 1
    else
      var k := RFind(s[..|s| - 1], c);
      assert s == s[..|s| - 1] + [s[|s| - 1]];
      k
  }

  /** Two first occurrences of a character are the same index. */
  lemma FirstOccurrenceUnique(s: string, c: char, i: nat, k: nat)
    requires i < |s| && s[i] == c && c !in s[..i]
    requires k < |s| && s[k] == c && c !in s[..k]
    ensures i == k
  {
    forall m | 0 <= m < k ensures s[m] != c { assert s[..k][m] == s[m]; }
    forall m | 0 <= m < i ensures s[m] != c { assert s[..i][m] == s[m]; }
  }

  /** Two last occurrences of a character are the same index. */
  lemma LastOccurrenceUnique(s: string, c: char, j: nat, k: nat)
    requires j < |s| && s[j] == c && c !in s[j + 1..]
    requires k < |s| && s[k] == c && c !in s[k + 1..]
    ensures j == k
  {
    forall m | k < m < |s| ensures s[m] != c { assert s[k + 1..][m - k - 1] == s[m]; }
    forall m | j < m < |s| ensures s[m] != c { assert s[j + 1..][m - j - 1] == s[m]; }
  }

  /** `s[i:j]` for bounds inside the string: empty when `j <= i`. */
  function Slice(s: string, i: nat, j: nat): (r: string)
    requires i <= |s| && j <= |s|
  {
    if j <= i then [] else s[i..j]
  }

  /** The characters Python's `str.isspace`, and so `strip()`, treats as white space. */
  predicate IsSpace(c: char) {
    '\t' <= c <= '\r' || '\U{1c}' <= c <= ' ' || c == '\U{85}' || c == '\U{a0}' || c == '\U{1680}'
    || '\U{2000}' <= c <= '\U{200a}' || c == '\U{2028}' || c == '\U{2029}' || c == '\U{202f}'
    || c == '\U{205f}' || c == '\U{3000}'
  }

  /** `not s.strip()`: the string holds nothing but white space. */
  predicate IsBlank(s: string) {
    forall i :: 0 <= i < |s| ==> IsSpace(s[i])
  }

  /** `s.strip()`: the text between the leading and the trailing white space. */
  function Strip(s: string): (r: string)
    ensures r == [] <==> IsBlank(s)
    ensures r != [] ==> !IsSpace(r[0]) && !IsSpace(r[|r| - 1])
    ensures exists i, j :: 0 <= i <= j <= |s| && r == s[i..j] && IsBlank(s[..i]) && IsBlank(s[j..])
  {
    var l := StripLeft(s);
    var r := StripRight(l);
    StripLeftBlank(s);
    StripRightBlank(l);
    BlankEnds(s, l, r);
    r
  }

  /** `s.lstrip()`: drops the leading white space and nothing else. */
  function StripLeft(s: string): (r: string)
    ensures |r| <= |s| && r == s[|s| - |r|..]
    ensures IsBlank(s) <==> r == []
    ensures r != [] ==> !IsSpace(r[0])
  {
    if s == [] || !IsSpace(s[0]) then s else StripLeft(s[1..])
  }

  /** `s.rstrip()`: drops the trailing white space and nothing else. */
  function StripRight(s: string): (r: string)
    ensures IsBlank(s) <==> r == []
    ensures r != [] ==> !IsSpace(r[|r| - 1])
    ensures |r| <= |s| && r == s[..|r|]
    ensures r != [] && s != [] ==> r[0] == s[0]
  {
    if s == [] || !IsSpace(s[|s| - 1]) then s else StripRight(s[..|s| - 1])
  }

  /** Dropping a blank head and then a blank tail leaves an infix with blank ends. */
  lemma BlankEnds(s: string, l: string, r: string)
    requires |l| <= |s| && l == s[|s| - |l|..] && IsBlank(s[..|s| - |l|])
    requires l != [] ==> !IsSpace(l[0])
    requires |r| <= |l| && r == l[..|r|] && IsBlank(l[|r|..])
    requires r != [] ==> !IsSpace(r[|r| - 1])
    ensures r == [] <==> IsBlank(s)
    ensures r != [] ==> !IsSpace(r[0]) && !IsSpace(r[|r| - 1])
    ensures exists i, j :: 0 <= i <= j <= |s| && r == s[i..j] && IsBlank(s[..i]) && IsBlank(s[j..])
  {
    var i := |s| - |l|;
    var j := i + |r|;
    assert r == s[i..j];
    assert s[j..] == l[|r|..];
    if r == [] {
      assert s == s[..i] + l;
    } else {
      assert r[0] == l[0];
      assert s[i] == r[0];
    }
  }

  /** What `lstrip` drops is white space. */
  lemma {:induction false} StripLeftBlank(s: string)
    ensures IsBlank(s[..|s| - |StripLeft(s)|])
  {
    if s != [] && IsSpace(s[0]) {
      StripLeftBlank(s[1..]);
      BlankCons(s, |s| - |StripLeft(s[1..])|);
    }
  }

  /** What `rstrip` drops is white space. */
  lemma {:induction false} StripRightBlank(s: string)
    ensures IsBlank(s[|StripRight(s)|..])
  {
    if s != [] && IsSpace(s[|s| - 1]) {
      StripRightBlank(s[..|s| - 1]);
      BlankSnoc(s, |StripRight(s[..|s| - 1])|);
    }
  }

  /** A space followed by blank text is blank. */
  lemma BlankCons(s: string, d: nat)
    requires 0 < d <= |s| && IsSpace(s[0]) && IsBlank(s[1..][..d - 1])
    ensures IsBlank(s[..d])
  {
    assert s[..d] == [s[0]] + s[1..][..d - 1];
  }

  /** Blank text followed by a space is blank. */
  lemma BlankSnoc(s: string, d: nat)
    requires d < |s| && IsSpace(s[|s| - 1]) && IsBlank(s[..|s| - 1][d..])
    ensures IsBlank(s[d..])
  {
    assert s[d..] == s[..|s| - 1][d..] + [s[|s| - 1]];
  }

  /** `sep.join(xs)` */
  function Join(sep: string, xs: seq<string>): string {
    if xs == [] then []
    else if |xs| == 1 then xs[0]
    else xs[0] + sep + Join(sep, xs[1..])
  }

  /** `s.split(c)`: the pieces between occurrences of `c`; at least one, possibly empty. */
  function Split(s: string, c: char): (r: seq<string>)
    ensures |r| >= 1
    decreases |s|
  {
    var k := Find(s, c);
    if k == -1 then [s] else [s[..k]] + Split(s[k + 1..], c)
  }

  /** Splitting at the first occurrence: a piece without `c`, then the rest. */
  lemma SplitAt(x: string, c: char, rest: string)
    requires c !in x
    ensures Split(x + [c] + rest, c) == [x] + Split(rest, c)
  {
    var s := x + [c] + rest;
    assert s[|x|] == c && s[..|x|] == x;
    FirstOccurrenceUnique(s, c, |x|, Find(s, c));
    assert s[|x| + 1..] == rest;
  }

  /**
   * Joining with a one-character separator that no element contains is
   * undone by splitting at that character.
   */
  lemma {:induction false} SplitJoin(xs: seq<string>, c: char)
    requires xs != []
    requires forall i :: 0 <= i < |xs| ==> c !in xs[i]
    ensures Split(Join([c], xs), c) == xs
  {
    if |xs| == 1 {
      assert Join([c], xs) == xs[0];
    } else {
      SplitJoin(xs[1..], c);
      SplitAt(xs[0], c, Join([c], xs[1..]));
      assert xs == [xs[0]] + xs[1..];
    }
  }
}
