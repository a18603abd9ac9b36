/**
 * Decimal text: `str()` of non-negative integers, zero padding, grouping
 * by thousands, rounding to hundredths, the format `f"{x:,.2f}"`, the text
 * `str()` gives a float, and the subset of `float(s)` that reads plain
 * decimal numerals.
 */
module Numbers {
  import opened Wrappers
  import opened Text
  import opened Json

  function Pow10(n: nat): (r: nat)
    ensures r >= 1
  {
    if n == 0 then 1 else 10 * Pow10(n - 1)
  }

  lemma {:induction false} Pow10Mono(a: nat, b: nat)
    requires a <= b
    ensures Pow10(a) <= Pow10(b)
  {
    if a < b {
      Pow10Mono(a, b - 1);
    }
  }

  function DigitChar(d: nat): char
    requires d < 10
  {
    (48 + d) as char
  }

  predicate AllDigits(s: string) {
    forall i :: 0 <= i < |s| ==> '0' <= s[i] <= '9'
  }

  /** The number a string of decimal digits denotes. */
  function DigitsValue(s: string): nat
    requires AllDigits(s)
  {
    if s == [] then 0 else DigitsValue(s[..|s| - 1]) * 10 + (s[|s| - 1] as int - 48)
  }

  lemma {:induction false} DigitsValueAppend(s: string, t: string)
    requires AllDigits(s) && AllDigits(t)
    ensures AllDigits(s + t)
    ensures DigitsValue(s + t) == DigitsValue(s) * Pow10(|t|) + DigitsValue(t)
  {
    AllDigitsAppend(s, t);
    if t != [] {
      var t' := t[..|t| - 1];
      AllDigitsAppend(s, t');
      assert (s + t)[..|s + t| - 1] == s + t';
      assert (s + t)[|s + t| - 1] == t[|t| - 1];
      DigitsValueAppend(s, t');
      ShiftDigit(DigitsValue(s), Pow10(|t'|), DigitsValue(t'), t[|t| - 1] as int - 48);
    } else {
      assert s + t == s;
    }
  }

  /** Digit strings are closed under concatenation. */
  lemma AllDigitsAppend(s: string, t: string)
    requires AllDigits(s) && AllDigits(t)
    ensures AllDigits(s + t)
  {
    assert forall i | |s| <= i < |s + t| :: (s + t)[i] == t[i - |s|];
  }

  /** One more digit after `a` shifted by `p`, then `b`: the Horner step. */
  lemma ShiftDigit(a: int, p: int, b: int, last: int)
    ensures (a * p + b) * 10 + last == a * (10 * p) + (b * 10 + last)
  {
  }

  /** `str(n)` for a non-negative integer: its decimal digits, without leading zeros. */
  function Digits(n: nat): (r: string)
    ensures |r| >= 1
  {
    if n < 10 then [DigitChar(n)] else Digits(n / 10) + [DigitChar(n % 10)]
  }

  /** The digits read back to the number, start with a zero only for 0, and are as many as the number needs. */
  lemma {:induction false} DigitsRoundTrip(n: nat)
    ensures AllDigits(Digits(n)) && DigitsValue(Digits(n)) == n
    ensures Digits(n)[0] == '0' ==> n == 0
    ensures n < Pow10(|Digits(n)|)
  {
    if n >= 10 {
      DigitsRoundTrip(n / 10);
      DivMod10(n, Pow10(|Digits(n / 10)|));
      AllDigitsAppend(Digits(n / 10), [DigitChar(n % 10)]);
      assert Digits(n)[..|Digits(n)| - 1] == Digits(n / 10);
      assert Pow10(|Digits(n)|) == 10 * Pow10(|Digits(n / 10)|);
    }
  }

  /** The last decimal digit and the rest, and how the rest compares with a power of ten. */
  lemma DivMod10(n: nat, p: nat)
    ensures n == n / 10 * 10 + n % 10 && n % 10 < 10
    ensures n < 10 * p <==> n / 10 < p
  {
  }

  /** The last `width` decimal digits of `n`, with leading zeros: `f"{n:0{width}d}"` when `n < 10^width`. */
  function PadDigits(n: nat, width: nat): (r: string)
    ensures |r| == width
  {
    if width == 0 then [] else PadDigits(n / 10, width - 1) + [DigitChar(n % 10)]
  }

  lemma {:induction false} PadRoundTrip(n: nat, width: nat)
    requires n < Pow10(width)
    ensures AllDigits(PadDigits(n, width)) && DigitsValue(PadDigits(n, width)) == n
  {
    if width > 0 {
      DivMod10(n, Pow10(width - 1));
      PadRoundTrip(n / 10, width - 1);
      AllDigitsAppend(PadDigits(n / 10, width - 1), [DigitChar(n % 10)]);
      assert PadDigits(n, width)[..width - 1] == PadDigits(n / 10, width - 1);
    }
  }

  /** The integer part of `f"{n:,}"`: digits in groups of three, separated by commas. */
  function Grouped(n: nat): string {
    if n < 1000 then Digits(n) else Grouped(n / 1000) + "," + PadDigits(n % 1000, 3)
  }

  /**
   * A leading group of one to three digits (no leading zero unless it is
   * "0"), followed by any number of groups of exactly three digits, each
   * preceded by a comma.
   */
  predicate WellGrouped(s: string) {
    if |s| <= 3 then
      1 <= |s| && AllDigits(s) && (s[0] == '0' ==> |s| == 1)
    else
      s[|s| - 4] == ',' && AllDigits(s[|s| - 3..]) && WellGrouped(s[..|s| - 4]) && s[0] != '0'
  }

  /** The string without its commas. */
  function Ungroup(s: string): string {
    if s == [] then []
    else Ungroup(s[..|s| - 1]) + (if s[|s| - 1] == ',' then [] else [s[|s| - 1]])
  }

  lemma {:induction false} UngroupAppend(s: string, t: string)
    ensures Ungroup(s + t) == Ungroup(s) + Ungroup(t)
  {
    if t != [] {
      var t' := t[..|t| - 1];
      var tail := if t[|t| - 1] == ',' then [] else [t[|t| - 1]];
      assert (s + t)[..|s + t| - 1] == s + t';
      assert (s + t)[|s + t| - 1] == t[|t| - 1];
      UngroupAppend(s, t');
      assert Ungroup(s + t) == (Ungroup(s) + Ungroup(t')) + tail;
      assert Ungroup(t) == Ungroup(t') + tail;
    } else {
      assert s + t == s;
    }
  }

  lemma {:induction false} UngroupDigits(s: string)
    requires AllDigits(s)
    ensures Ungroup(s) == s
  {
    if s != [] {
      UngroupDigits(s[..|s| - 1]);
      assert s == s[..|s| - 1] + [s[|s| - 1]];
    }
  }

  lemma DigitsShort(n: nat)
    requires n < 1000
    ensures |Digits(n)| <= 3
  {
    if n >= 100 {
      assert |Digits(n / 10 / 10)| == 1;
      assert |Digits(n / 10)| == 2;
    } else if n >= 10 {
      assert |Digits(n / 10)| == 1;
    }
  }

  /**
   * Grouping is well formed, starts with a zero only for 0, and removing
   * the commas gives back the digits of `n`.
   */
  lemma {:induction false} GroupedRoundTrip(n: nat)
    ensures WellGrouped(Grouped(n))
    ensures Grouped(n)[0] == '0' ==> n == 0
    ensures AllDigits(Ungroup(Grouped(n))) && DigitsValue(Ungroup(Grouped(n))) == n
  {
    if n < 1000 {
      DigitsRoundTrip(n);
      UngroupDigits(Digits(n));
      DigitsShort(n);
    } else {
      var g, p := Grouped(n / 1000), PadDigits(n % 1000, 3);
      GroupedRoundTrip(n / 1000);
      assert Pow10(3) == 1000 by {
        assert Pow10(1) == 10 && Pow10(2) == 100;
      }
      PadRoundTrip(n % 1000, 3);
      GroupShape(g, p);
      GroupValue(g, p);
      DivMod1000(n);
    }
  }

  /** One more group after a well-grouped text keeps it well grouped, with the same first digit. */
  lemma GroupShape(g: string, p: string)
    requires WellGrouped(g) && g[0] != '0' && |p| == 3 && AllDigits(p)
    ensures WellGrouped(g + "," + p) && (g + "," + p)[0] == g[0]
  {
    var s := g + "," + p;
    assert s[0] == g[0];
    assert s[..|s| - 4] == g;
    assert s[|s| - 3..] == p;
  }

  /** Removing the commas of `g + "," + p` appends the digits of `p`, shifted by three places. */
  lemma GroupValue(g: string, p: string)
    requires AllDigits(Ungroup(g)) && |p| == 3 && AllDigits(p)
    ensures AllDigits(Ungroup(g + "," + p))
    ensures DigitsValue(Ungroup(g + "," + p)) == DigitsValue(Ungroup(g)) * Pow10(3) + DigitsValue(p)
  {
    UngroupAppend(g + ",", p);
    UngroupAppend(g, ",");
    UngroupDigits(p);
    assert Ungroup(",") == [];
    assert Ungroup(g + "," + p) == Ungroup(g) + p;
    DigitsValueAppend(Ungroup(g), p);
  }

  /** Splitting into thousands and the rest. */
  lemma DivMod1000(n: nat)
    ensures n == n / 1000 * 1000 + n % 1000
  {
  }

  /**
   * `n / d` rounded to the nearest integer, ties to the even neighbour: the
   * rounding Python's formatting applies.
   */
  function RoundHalfEven(n: nat, d: nat): nat
    requires d > 0
  {
    var q, r := n / d, n % d;
    if 2 * r > d then q + 1
    else if 2 * r < d then q
    else if q % 2 == 0 then q else q + 1
  }

  /** The rounded quotient is within half a unit of n / d, and even on a tie. */
  lemma RoundHalfEvenNearest(n: nat, d: nat)
    requires d > 0
    ensures var c := RoundHalfEven(n, d);
      2 * (n - d * c) <= d && 2 * (d * c - n) <= d
      && (2 * (n - d * c) == d || 2 * (d * c - n) == d ==> c % 2 == 0)
  {
    var q, r := n / d, n % d;
    assert n == d * q + r;
    assert d * (q + 1) == d * q + d;
  }

  /** |x| in hundredths, rounded half to even. */
  function Cents(x: Decimal): nat {
    if x.exp <= 2 then x.mag * Pow10(2 - x.exp) else RoundHalfEven(x.mag, Pow10(x.exp - 2))
  }

  /** Cents is exact when x has at most two decimals, and the nearest hundredth otherwise. */
  lemma CentsNearest(x: Decimal)
    ensures x.exp <= 2 ==> Cents(x) * Pow10(x.exp) == x.mag * 100
    ensures x.exp > 2 ==> var d := Pow10(x.exp - 2);
      2 * (x.mag - d * Cents(x)) <= d && 2 * (d * Cents(x) - x.mag) <= d
  {
    if x.exp <= 2 {
      assert Pow10(0) == 1 && Pow10(1) == 10 && Pow10(2) == 100;
    } else {
      RoundHalfEvenNearest(x.mag, Pow10(x.exp - 2));
    }
  }

  /** `f"{x:,.2f}"`: sign (kept for negative zero), grouped integer part, two decimals. */
  function FormatFixed2(x: Decimal): string {
    SignText(x.neg) + CentsText(Cents(x))
  }

  /** 1234.5 as `,.2f` writes it: grouped by thousands and padded to two decimals. */
  lemma FormatFixed2Example()
    ensures FormatFixed2(Decimal(false, 12345, 1)) == "1,234.50"
  {
    assert Cents(Decimal(false, 12345, 1)) == 123450 by {
      assert Pow10(1) == 10;
    }
    assert CentsText(123450) == "1,234.50" by {
      assert 123450 / 100 == 1234 && 123450 % 100 == 50;
      GroupedExample();
      assert PadDigits(50, 2) == "50" by {
        assert PadDigits(5, 1) == "5";
      }
    }
  }

  /** The integer part of 1234.5, grouped. */
  lemma GroupedExample()
    ensures Grouped(1234) == "1,234"
  {
    assert 1234 / 1000 == 1 && 1234 % 1000 == 234;
    assert Digits(1) == "1";
    assert PadDigits(234, 3) == "234" by {
      assert PadDigits(2, 1) == "2";
      assert PadDigits(23, 2) == "23";
    }
  }

  /** A negative zero keeps its minus sign: `f"{-0.0:,.2f}"` is "-0.00". */
  lemma FormatFixed2NegativeZero()
    ensures FormatFixed2(Decimal(true, 0, 0)) == "-0.00"
  {
    assert Cents(Decimal(true, 0, 0)) == 0;
    assert Digits(0) == "0";
    assert PadDigits(0, 2) == "00" by {
      assert PadDigits(0, 1) == "0";
    }
  }

  /** An unsigned amount of hundredths as `,.2f` writes it: grouped integer part, point, two digits. */
  function CentsText(c: nat): string {
    Grouped(c / 100) + "." + PadDigits(c % 100, 2)
  }

  /** "-" for a negative number, nothing otherwise. */
  function SignText(neg: bool): string {
    if neg then "-" else ""
  }

  /** Splits off a leading minus sign. */
  function SplitMinus(s: string): (bool, string) {
    if |s| > 0 && s[0] == '-' then (true, s[1..]) else (false, s)
  }

  /** The sign is split off again from a text that starts with a digit. */
  lemma SplitMinusOf(neg: bool, body: string)
    requires |body| > 0 && '0' <= body[0] <= '9'
    ensures SplitMinus(SignText(neg) + body) == (neg, body)
  {
    if neg {
      assert (SignText(neg) + body)[1..] == body;
    } else {
      assert SignText(neg) + body == body;
    }
  }

  /** Reads an unsigned `,.2f` text to its value in hundredths. */
  function ParseUnsignedFixed2(body: string): Option<nat> {
    if |body| < 4 || body[|body| - 3] != '.' then None
    else ParseFixed2Parts(body[..|body| - 3], body[|body| - 2..])
  }

  /** Reads the integer part and the two decimals on either side of the point. */
  function ParseFixed2Parts(whole: string, frac: string): Option<nat> {
    if WellGrouped(whole) && AllDigits(Ungroup(whole)) && AllDigits(frac) then
      Some(DigitsValue(Ungroup(whole)) * 100 + DigitsValue(frac))
    else None
  }

  /** Reads a `,.2f` text back to its sign and its value in hundredths. */
  function ParseFixed2(s: string): Option<(bool, nat)> {
    var (neg, body) := SplitMinus(s);
    WithSign(neg, ParseUnsignedFixed2(body))
  }

  /** An unsigned reading, if any, with its sign attached. */
  function WithSign(neg: bool, c: Option<nat>): Option<(bool, nat)> {
    match c
    case None => None
    case Some(v) => Some((neg, v))
  }

  /** A well-grouped numeral starts with a digit. */
  lemma {:induction false} WellGroupedHead(s: string)
    requires WellGrouped(s)
    ensures |s| >= 1 && '0' <= s[0] <= '9'
  {
    if |s| > 3 {
      WellGroupedHead(s[..|s| - 4]);
      assert s[0] == s[..|s| - 4][0];
    }
  }

  /** Reading a well-grouped integer part, a point and two digits. */
  lemma ParseUnsignedFixed2Of(whole: string, frac: string, q: nat, r: nat)
    requires WellGrouped(whole) && AllDigits(Ungroup(whole)) && DigitsValue(Ungroup(whole)) == q
    requires AllDigits(frac) && |frac| == 2 && DigitsValue(frac) == r
    ensures ParseUnsignedFixed2(whole + "." + frac) == Some(q * 100 + r)
  {
    WellGroupedHead(whole);
    PointSplit(whole, frac);
    PartsValue(whole, frac, q, r);
  }

  /**
   * The point three characters from the end splits `whole + "." + frac`
   * back into its parts, which are then read on their own.
   */
  lemma PointSplit(whole: string, frac: string)
    requires |whole| >= 1 && |frac| == 2
    ensures ParseUnsignedFixed2(whole + "." + frac) == ParseFixed2Parts(whole, frac)
  {
    var body := whole + "." + frac;
    assert |body| >= 4 && body[|body| - 3] == '.';
    assert body[..|body| - 3] == whole && body[|body| - 2..] == frac;
  }

  /** The parts of a `,.2f` text denote the integer part times 100 plus the decimals. */
  lemma PartsValue(whole: string, frac: string, q: nat, r: nat)
    requires WellGrouped(whole) && AllDigits(Ungroup(whole)) && DigitsValue(Ungroup(whole)) == q
    requires AllDigits(frac) && DigitsValue(frac) == r
    ensures ParseFixed2Parts(whole, frac) == Some(q * 100 + r)
  {
  }

  /** Reading a sign, a well-grouped integer part, a point and two digits. */
  lemma ParseFixed2Of(neg: bool, whole: string, frac: string, q: nat, r: nat)
    requires WellGrouped(whole) && AllDigits(Ungroup(whole)) && DigitsValue(Ungroup(whole)) == q
    requires AllDigits(frac) && |frac| == 2 && DigitsValue(frac) == r
    ensures ParseFixed2(SignText(neg) + (whole + "." + frac)) == Some((neg, q * 100 + r))
  {
    var body := whole + "." + frac;
    WellGroupedHead(whole);
    assert body[0] == whole[0];
    SplitMinusOf(neg, body);
    ParseUnsignedFixed2Of(whole, frac, q, r);
  }

  /** A sign and an amount in hundredths, written as `,.2f` writes them, read back. */
  lemma CentsTextRoundTrip(neg: bool, c: nat)
    ensures ParseFixed2(SignText(neg) + CentsText(c)) == Some((neg, c))
  {
    DivMod100(c);
    PartsTextRoundTrip(neg, c / 100, c % 100);
  }

  /** Splitting into hundreds and the rest. */
  lemma DivMod100(c: nat)
    ensures c == c / 100 * 100 + c % 100 && c % 100 < 100
  {
  }

  /** A grouped integer part `q` and two decimals `r`, read back. */
  lemma PartsTextRoundTrip(neg: bool, q: nat, r: nat)
    requires r < 100
    ensures ParseFixed2(SignText(neg) + (Grouped(q) + "." + PadDigits(r, 2))) == Some((neg, q * 100 + r))
  {
    GroupedRoundTrip(q);
    assert Pow10(2) == 100 by {
      assert Pow10(1) == 10;
    }
    PadRoundTrip(r, 2);
    ParseFixed2Of(neg, Grouped(q), PadDigits(r, 2), q, r);
  }

  /** The text `,.2f` writes reads back to the sign and the rounded value. */
  lemma FormatFixed2RoundTrip(x: Decimal)
    ensures ParseFixed2(FormatFixed2(x)) == Some((x.neg, Cents(x)))
  {
    CentsTextRoundTrip(x.neg, Cents(x));
  }

  /**
   * The shape of `,.2f` output: an optional minus sign, a well-grouped
   * integer part, a point and exactly two digits.
   */
  lemma FormatFixed2Shape(x: Decimal)
    ensures var r := FormatFixed2(x);
      var body := if x.neg then r[1..] else r;
      |r| > 0 && |body| >= 4 && (x.neg <==> r[0] == '-') && body[|body| - 3] == '.'
      && AllDigits(body[|body| - 2..]) && WellGrouped(body[..|body| - 3])
  {
    FormatFixed2RoundTrip(x);
    ParsedShape(FormatFixed2(x), x.neg);
  }

  /** A text ParseFixed2 accepts has the `,.2f` shape, with a minus sign exactly when the reading is negative. */
  lemma ParsedShape(s: string, neg: bool)
    requires ParseFixed2(s).Some? && ParseFixed2(s).value.0 == neg
    ensures var body := if neg then s[1..] else s;
      |s| > 0 && |body| >= 4 && (neg <==> s[0] == '-') && body[|body| - 3] == '.'
      && AllDigits(body[|body| - 2..]) && WellGrouped(body[..|body| - 3])
  {
    var body := if neg then s[1..] else s;
    assert SplitMinus(s) == (neg, body);
    WellGroupedHead(body[..|body| - 3]);
    assert body[..|body| - 3][0] == body[0];
  }

  /** How many digits PlainText writes: those of `mag`, and at least one before the point. */
  function PlainWidth(x: Decimal): (w: nat)
    ensures w > x.exp
  {
    if |Digits(x.mag)| > x.exp then |Digits(x.mag)| else x.exp + 1
  }

  /**
   * A number with a fraction, `Decimal(neg, mag, exp)` with at least one
   * decimal: the digits of `mag`, zero-padded so that one digit stands
   * before the point, with the point `exp` digits from the end.
   */
  function PlainText(x: Decimal): string
    requires x.exp >= 1
  {
    var w := PlainWidth(x);
    var d := PadDigits(x.mag, w);
    SignText(x.neg) + (d[..w - x.exp] + "." + d[w - x.exp..])
  }

  /** The padded digits PlainText writes denote `mag`. */
  lemma PlainDigits(x: Decimal)
    ensures AllDigits(PadDigits(x.mag, PlainWidth(x)))
    ensures DigitsValue(PadDigits(x.mag, PlainWidth(x))) == x.mag
  {
    DigitsRoundTrip(x.mag);
    Pow10Mono(|Digits(x.mag)|, PlainWidth(x));
    PadRoundTrip(x.mag, PlainWidth(x));
  }

  /** Two decimals denote the same signed value. */
  predicate SameValue(a: Decimal, b: Decimal) {
    a.neg == b.neg && a.mag * Pow10(b.exp) == b.mag * Pow10(a.exp)
  }

  /**
   * The shortest form with at least one decimal: trailing zeros of the
   * fraction dropped, one "0" decimal kept for a whole number.
   */
  function Trim(x: Decimal): (r: Decimal)
    ensures r.exp >= 1
    decreases x.exp
  {
    if x.exp == 0 then Decimal(x.neg, x.mag * 10, 1)
    else if x.exp > 1 && x.mag % 10 == 0 then Trim(Decimal(x.neg, x.mag / 10, x.exp - 1))
    else x
  }

  /** Trimming does not change the value. */
  lemma {:induction false} TrimSameValue(x: Decimal)
    ensures SameValue(Trim(x), x)
    decreases x.exp
  {
    if x.exp == 0 {
      assert Pow10(1) == 10;
    } else if x.exp > 1 && x.mag % 10 == 0 {
      var y := Decimal(x.neg, x.mag / 10, x.exp - 1);
      var t := Trim(y);
      TrimSameValue(y);
      TenTimes(x.mag);
      ScaleBoth(t.mag, Pow10(y.exp), y.mag, Pow10(t.exp));
    }
  }

  /** A multiple of ten is ten times its tenth. */
  lemma TenTimes(m: nat)
    requires m % 10 == 0
    ensures m == 10 * (m / 10)
  {
  }

  /** Scaling both sides of a cross-multiplied equality by ten. */
  lemma ScaleBoth(a: int, p: int, b: int, q: int)
    requires a * p == b * q
    ensures a * (10 * p) == (10 * b) * q
  {
  }

  /** `str(x)` of a float, in positional notation: the shortest decimals, at least one. */
  function FloatRepr(x: Decimal): string {
    PlainText(Trim(x))
  }

  /** Splits off a leading sign, '-' or '+'; the flag says whether it was '-'. */
  function SplitSign(t: string): (bool, string) {
    if |t| > 0 && (t[0] == '-' || t[0] == '+') then (t[0] == '-', t[1..]) else (false, t)
  }

  /** Reads digits with an optional point, at least one digit in all, to a magnitude and a scale. */
  function ParseUnsignedFloat(body: string): Option<(nat, nat)> {
    var k := Find(body, '.');
    if k == -1 then
      if body != [] && AllDigits(body) then Some((DigitsValue(body), 0)) else None
    else
      var whole, frac := body[..k], body[k + 1..];
      if (whole != [] || frac != []) && AllDigits(whole) && AllDigits(frac) then
        Some((DigitsValue(whole + frac), |frac|))
      else None
  }

  /**
   * The white space `float()` skips around a numeral: tab, line feed,
   * vertical tab, form feed, carriage return and space among the ASCII
   * characters, and every non-ASCII character `str.isspace` accepts. Unlike
   * `strip()`, it does not skip the separators U+001C to U+001F.
   */
  predicate IsFloatSpace(c: char) {
    IsSpace(c) && !('\U{1c}' <= c <= '\U{1f}')
  }

  /** The string holds nothing but white space in the sense of `float()`. */
  predicate IsFloatBlank(s: string) {
    forall i :: 0 <= i < |s| ==> IsFloatSpace(s[i])
  }

  /** Drops the leading white space `float()` skips. */
  function FloatStripLeft(s: string): (r: string)
    ensures |r| <= |s| && r == s[|s| - |r|..]
    ensures r != [] ==> !IsFloatSpace(r[0])
  {
    if s == [] || !IsFloatSpace(s[0]) then s else FloatStripLeft(s[1..])
  }

  /** Drops the trailing white space `float()` skips. */
  function FloatStripRight(s: string): (r: string)
    ensures |r| <= |s| && r == s[..|r|]
    ensures r != [] ==> !IsFloatSpace(r[|r| - 1])
  {
    if s == [] || !IsFloatSpace(s[|s| - 1]) then s else FloatStripRight(s[..|s| - 1])
  }

  /** The text `float()` reads: `s` without the white space around it. */
  function FloatStrip(s: string): (r: string)
    ensures r != [] ==> !IsFloatSpace(r[0]) && !IsFloatSpace(r[|r| - 1])
    ensures exists i, j :: 0 <= i <= j <= |s| && r == s[i..j] && IsFloatBlank(s[..i]) && IsFloatBlank(s[j..])
  {
    var l := FloatStripLeft(s);
    var r := FloatStripRight(l);
    FloatStripLeftBlank(s);
    FloatStripRightBlank(l);
    FloatBlankEnds(s, l, r);
    r
  }

  /** Dropping a blank head and then a blank tail leaves an infix with blank ends. */
  lemma FloatBlankEnds(s: string, l: string, r: string)
    requires |l| <= |s| && l == s[|s| - |l|..] && IsFloatBlank(s[..|s| - |l|])
    requires l != [] ==> !IsFloatSpace(l[0])
    requires |r| <= |l| && r == l[..|r|] && IsFloatBlank(l[|r|..])
    ensures r != [] ==> !IsFloatSpace(r[0])
    ensures exists i, j :: 0 <= i <= j <= |s| && r == s[i..j] && IsFloatBlank(s[..i]) && IsFloatBlank(s[j..])
  {
    var i := |s| - |l|;
    var j := i + |r|;
    assert r == s[i..j];
    assert s[j..] == l[|r|..];
    if r != [] {
      assert r[0] == l[0];
    }
  }

  /** What `FloatStripLeft` drops is white space. */
  lemma {:induction false} FloatStripLeftBlank(s: string)
    ensures IsFloatBlank(s[..|s| - |FloatStripLeft(s)|])
  {
    if s != [] && IsFloatSpace(s[0]) {
      FloatStripLeftBlank(s[1..]);
      FloatBlankCons(s, |s| - |FloatStripLeft(s[1..])|);
    }
  }

  /** What `FloatStripRight` drops is white space. */
  lemma {:induction false} FloatStripRightBlank(s: string)
    ensures IsFloatBlank(s[|FloatStripRight(s)|..])
  {
    if s != [] && IsFloatSpace(s[|s| - 1]) {
      FloatStripRightBlank(s[..|s| - 1]);
      FloatBlankSnoc(s, |FloatStripRight(s[..|s| - 1])|);
    }
  }

  /** A space followed by blank text is blank. */
  lemma FloatBlankCons(s: string, d: nat)
    requires 0 < d <= |s| && IsFloatSpace(s[0]) && IsFloatBlank(s[1..][..d - 1])
    ensures IsFloatBlank(s[..d])
  {
    assert s[..d] == [s[0]] + s[1..][..d - 1];
  }

  /** Blank text followed by a space is blank. */
  lemma FloatBlankSnoc(s: string, d: nat)
    requires d < |s| && IsFloatSpace(s[|s| - 1]) && IsFloatBlank(s[..|s| - 1][d..])
    ensures IsFloatBlank(s[d..])
  {
    assert s[d..] == s[..|s| - 1][d..] + [s[|s| - 1]];
  }

  /**
   * `float(s)` on the texts it reads as plain decimal numerals: white space
   * around, an optional sign, digits with an optional point (at least one
   * digit in all).
   */
  function ParseFloat(s: string): Option<Decimal> {
    var (neg, body) := SplitSign(FloatStrip(s));
    ParseSignedFloat(neg, body)
  }

  /** The number a sign and an unsigned numeral denote. */
  function ParseSignedFloat(neg: bool, body: string): Option<Decimal> {
    match ParseUnsignedFloat(body)
    case None => None
    case Some((mag, exp)) => Some(Decimal(neg, mag, exp))
  }

  /**
   * A plain decimal numeral: digits and at most one point, with at least
   * one digit (the text is neither empty nor a lone point).
   */
  predicate IsNumeral(b: string) {
    b != [] && b != "."
    && (forall i :: 0 <= i < |b| ==> '0' <= b[i] <= '9' || b[i] == '.')
    && (forall i, j :: 0 <= i < j < |b| && b[i] == '.' ==> b[j] != '.')
  }

  /** The text without its points. */
  function DropPoint(b: string): string {
    if b == [] then [] else (if b[0] == '.' then [] else [b[0]]) + DropPoint(b[1..])
  }

  /** How many characters follow the point; 0 without a point. */
  function FractionDigits(b: string): nat {
    if '.' in b then |b| - 1 - Find(b, '.') else 0
  }

  /** Without a point there is nothing to drop. */
  lemma {:induction false} DropPointNone(b: string)
    requires '.' !in b
    ensures DropPoint(b) == b
  {
    if b != [] {
      assert '.' !in b[1..] by {
        forall k | 0 <= k < |b[1..]| ensures b[1..][k] != '.' {
          assert b[1..][k] == b[k + 1];
        }
      }
      DropPointNone(b[1..]);
      assert b == [b[0]] + b[1..];
    }
  }

  /** Dropping the points of a concatenation drops those of each part. */
  lemma {:induction false} DropPointAppend(x: string, y: string)
    ensures DropPoint(x + y) == DropPoint(x) + DropPoint(y)
  {
    if x == [] {
      assert x + y == y;
    } else {
      assert (x + y)[0] == x[0] && (x + y)[1..] == x[1..] + y;
      DropPointAppend(x[1..], y);
    }
  }

  /** Dropping the one point between two point-free parts joins them. */
  lemma DropPointJoin(whole: string, frac: string)
    requires '.' !in whole && '.' !in frac
    ensures DropPoint(whole + "." + frac) == whole + frac
  {
    var w := whole + ".";
    DropPointAppend(w, frac);
    DropPointAppend(whole, ".");
    assert DropPoint(".") == [] by {
      assert "."[0] == '.' && "."[1..] == [];
    }
    DropPointNone(whole);
    DropPointNone(frac);
    assert DropPoint(w) == whole;
  }

  /**
   * Which strings `float()` reads, and to what: after the white space and
   * one optional sign, exactly the numerals; the value is the digits read
   * without the point, scaled by the number of digits after it.
   */
  lemma ParseFloatAccepts(s: string)
    ensures var (neg, b) := SplitSign(FloatStrip(s));
      ParseFloat(s).Some? <==> IsNumeral(b)
    ensures var (neg, b) := SplitSign(FloatStrip(s));
      IsNumeral(b) ==>
        AllDigits(DropPoint(b)) && ParseFloat(s) == Some(Decimal(neg, DigitsValue(DropPoint(b)), FractionDigits(b)))
  {
    var (neg, b) := SplitSign(FloatStrip(s));
    ParseUnsignedAccepts(b);
  }

  /** The unsigned reader accepts exactly the numerals, with the digits and the scale they show. */
  lemma ParseUnsignedAccepts(b: string)
    ensures ParseUnsignedFloat(b).Some? <==> IsNumeral(b)
    ensures IsNumeral(b) ==>
      AllDigits(DropPoint(b)) && ParseUnsignedFloat(b) == Some((DigitsValue(DropPoint(b)), FractionDigits(b)))
  {
    var k := Find(b, '.');
    if k == -1 {
      DropPointNone(b);
      NumeralWithoutPoint(b);
    } else {
      ParseUnsignedWithPoint(b, k);
    }
  }

  /** With its first point at `k`, the unsigned reader reads the digits on either side of it. */
  lemma ParseUnsignedAtPoint(b: string, k: nat)
    requires k < |b| && Find(b, '.') == k
    ensures var whole, frac := b[..k], b[k + 1..];
      ParseUnsignedFloat(b)
        == if (whole != [] || frac != []) && AllDigits(whole) && AllDigits(frac)
           then Some((DigitsValue(whole + frac), |frac|)) else None
  {
  }

  /** ParseUnsignedAccepts for a numeral whose first point is at `k`. */
  lemma ParseUnsignedWithPoint(b: string, k: nat)
    requires k < |b| && Find(b, '.') == k
    ensures ParseUnsignedFloat(b).Some? <==> IsNumeral(b)
    ensures IsNumeral(b) ==>
      AllDigits(DropPoint(b)) && ParseUnsignedFloat(b) == Some((DigitsValue(DropPoint(b)), FractionDigits(b)))
  {
    SplitAtPoint(b, k);
    ParseUnsignedAtPoint(b, k);
    NumeralWithPoint(b[..k], b[k + 1..]);
    if IsNumeral(b) {
      NumeralParts(b, k);
    }
  }

  /** A text is its part before the point at `k`, the point, and its part after. */
  lemma SplitAtPoint(b: string, k: nat)
    requires k < |b| && b[k] == '.'
    ensures b == b[..k] + "." + b[k + 1..]
  {
    assert b[k..] == "." + b[k + 1..];
    assert b == b[..k] + b[k..];
  }

  /** A numeral with its first point at `k`: the point dropped, the digits on either side joined. */
  lemma NumeralParts(b: string, k: nat)
    requires k < |b| && Find(b, '.') == k
    requires AllDigits(b[..k]) && AllDigits(b[k + 1..])
    ensures DropPoint(b) == b[..k] + b[k + 1..] && AllDigits(DropPoint(b))
    ensures FractionDigits(b) == |b[k + 1..]|
  {
    var whole, frac := b[..k], b[k + 1..];
    SplitAtPoint(b, k);
    NoPointInDigits(frac);
    DropPointJoin(whole, frac);
    AllDigitsAppend(whole, frac);
    assert b[k] in b;
  }

  /** A digit string holds no point. */
  lemma NoPointInDigits(d: string)
    requires AllDigits(d)
    ensures '.' !in d
  {
  }

  /** Without a point, a numeral is a non-empty digit string. */
  lemma NumeralWithoutPoint(b: string)
    requires '.' !in b
    ensures IsNumeral(b) <==> b != [] && AllDigits(b)
  {
    forall i | 0 <= i < |b| ensures b[i] != '.' {
      assert b[i] in b;
    }
    if b != [] && AllDigits(b) {
      assert b[0] != '.';
    }
  }

  /** Around its first point, a numeral has digits on both sides, at least one in all. */
  lemma NumeralWithPoint(whole: string, frac: string)
    requires '.' !in whole
    ensures IsNumeral(whole + "." + frac) <==> (whole != [] || frac != []) && AllDigits(whole) && AllDigits(frac)
  {
    var b := whole + "." + frac;
    var k := |whole|;
    assert b[k] == '.';
    assert forall i | 0 <= i < k :: b[i] == whole[i];
    assert forall i | k < i < |b| :: b[i] == frac[i - k - 1];
    if IsNumeral(b) {
      forall i | 0 <= i < |whole| ensures '0' <= whole[i] <= '9' {
        assert whole[i] in whole;
      }
      forall i | 0 <= i < |frac| ensures '0' <= frac[i] <= '9' {
        assert b[k + 1 + i] != '.';
      }
      assert |b| != 1;
    }
    if (whole != [] || frac != []) && AllDigits(whole) && AllDigits(frac) {
      forall i | 0 <= i < |whole| ensures whole[i] != '.' {
        assert whole[i] in whole;
      }
      assert |b| >= 2;
    }
  }

  /**
   * The separator U+001C is white space for `strip()` but not for
   * `float()`: `float("\x1c5")` raises, although `strip()` would drop the
   * separator.
   */
  lemma FloatKeepsSeparator()
    ensures IsSpace('\U{1c}') && !IsFloatSpace('\U{1c}')
    ensures ParseFloat("\U{1c}5").None?
  {
    var s := "\U{1c}5";
    assert !IsFloatSpace(s[0]) && !IsFloatSpace(s[1]);
    assert FloatStripLeft(s) == s;
    assert FloatStripRight(s) == s;
    assert SplitSign(s) == (false, s);
    ParseUnsignedAccepts(s);
  }

  /** Stripping a string that neither starts nor ends with white space changes nothing. */
  lemma FloatStripKeeps(s: string)
    requires s != [] && !IsFloatSpace(s[0]) && !IsFloatSpace(s[|s| - 1])
    ensures FloatStrip(s) == s
  {
  }

  /** Reading digits, a point and more digits. */
  lemma ParseUnsignedFloatOf(whole: string, frac: string)
    requires whole != [] && AllDigits(whole) && AllDigits(frac)
    ensures ParseUnsignedFloat(whole + "." + frac) == Some((DigitsValue(whole + frac), |frac|))
  {
    var body := whole + "." + frac;
    assert body[|whole|] == '.' && body[..|whole|] == whole;
    assert '.' !in whole;
    FirstOccurrenceUnique(body, '.', |whole|, Find(body, '.'));
    assert body[|whole| + 1..] == frac;
  }

  /** A sign and digits without a point read back to the whole number they denote. */
  lemma ReadBackWhole(neg: bool, d: string, n: nat)
    requires d != [] && AllDigits(d) && DigitsValue(d) == n
    ensures ParseFloat(SignText(neg) + d) == Some(Decimal(neg, n, 0))
  {
    assert '0' <= d[0] <= '9' && '0' <= d[|d| - 1] <= '9';
    SignedText(neg, d);
    ParseUnsignedFloatDigits(d, n);
  }

  /** A numeral without a point reads as a whole number. */
  lemma ParseUnsignedFloatDigits(d: string, n: nat)
    requires d != [] && AllDigits(d) && DigitsValue(d) == n
    ensures ParseUnsignedFloat(d) == Some((n, 0))
  {
    assert '.' !in d by {
      forall k | 0 <= k < |d| ensures d[k] != '.' {
        assert '0' <= d[k] <= '9';
      }
    }
  }

  /** The sign is split off again from a text that starts with a digit. */
  lemma SplitSignOf(neg: bool, body: string)
    requires |body| > 0 && '0' <= body[0] <= '9'
    ensures SplitSign(SignText(neg) + body) == (neg, body)
  {
    if neg {
      assert (SignText(neg) + body)[1..] == body;
    } else {
      assert SignText(neg) + body == body;
    }
  }

  /** Reading a sign, digits, a point and more digits. */
  lemma ParseFloatOf(neg: bool, whole: string, frac: string)
    requires whole != [] && frac != [] && AllDigits(whole) && AllDigits(frac)
    ensures ParseFloat(SignText(neg) + (whole + "." + frac))
      == Some(Decimal(neg, DigitsValue(whole + frac), |frac|))
  {
    var body := whole + "." + frac;
    assert body[0] == whole[0] && body[|body| - 1] == frac[|frac| - 1];
    SignedText(neg, body);
    ParseUnsignedFloatOf(whole, frac);
  }

  /** A sign and a numeral that starts and ends with a digit: no white space to strip, and the sign splits off. */
  lemma SignedText(neg: bool, body: string)
    requires |body| > 0 && '0' <= body[0] <= '9' && '0' <= body[|body| - 1] <= '9'
    ensures ParseFloat(SignText(neg) + body) == ParseSignedFloat(neg, body)
  {
    var s := SignText(neg) + body;
    assert s[0] == '-' || s[0] == body[0];
    assert s[|s| - 1] == body[|body| - 1];
    FloatStripKeeps(s);
    SplitSignOf(neg, body);
  }

  /** Both sides of a cut through a digit string are digit strings, and together they are the whole. */
  lemma DigitsCut(d: string, k: nat)
    requires AllDigits(d) && k <= |d|
    ensures AllDigits(d[..k]) && AllDigits(d[k..]) && d[..k] + d[k..] == d
  {
    assert forall i | 0 <= i < |d[k..]| :: d[k..][i] == d[k + i];
  }

  /** A numeral with a fraction reads back to the very decimal that was written. */
  lemma PlainTextRoundTrip(x: Decimal)
    requires x.exp >= 1
    ensures ParseFloat(PlainText(x)) == Some(x)
  {
    var w := PlainWidth(x);
    var d := PadDigits(x.mag, w);
    var whole, frac := d[..w - x.exp], d[w - x.exp..];
    PlainDigits(x);
    DigitsCut(d, w - x.exp);
    ReadBackFloat(x.neg, whole, frac, x.mag, x.exp);
  }

  /** A sign, digits, a point and more digits read back to the decimal they denote. */
  lemma ReadBackFloat(neg: bool, whole: string, frac: string, mag: nat, exp: nat)
    requires whole != [] && frac != [] && AllDigits(whole) && AllDigits(frac)
    requires AllDigits(whole + frac) && DigitsValue(whole + frac) == mag && |frac| == exp
    ensures ParseFloat(SignText(neg) + (whole + "." + frac)) == Some(Decimal(neg, mag, exp))
  {
    ParseFloatOf(neg, whole, frac);
  }

  /** `float(str(x)) == x` for a float x: the text `str` writes reads back to the same value. */
  lemma FloatReprRoundTrip(x: Decimal)
    ensures ParseFloat(FloatRepr(x)).Some? && SameValue(ParseFloat(FloatRepr(x)).value, x)
  {
    PlainTextRoundTrip(Trim(x));
    TrimSameValue(x);
  }
}
