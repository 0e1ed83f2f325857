/**
 * Raw table cells as the file parsers hand them to the analyzer, and the two
 * text operations every variant applies to them: Python's `str.strip()` and the
 * conversion of a numeric literal to a number (`float(...)`, `pd.to_numeric`).
 */
module Cells {
  import opened Wrappers

  /**
   * One cell of a parsed table. `Num` is a value the parser already read as a
   * number (pandas numeric columns), `Text` a string (every csv.DictReader cell,
   * pandas object columns), `Missing` an absent value (None from csv.DictReader
   * for a row shorter than the header, NaN from pandas for an empty cell).
   */
  datatype Cell = Num(value: real) | Text(text: string) | Missing

  /** The characters `str.isspace()` accepts below U+0080. */
  predicate IsSpace(c: char) {
    c == ' ' || c == '\t' || c == '\n' || c == '\r' || c == '\U{0B}' || c == '\U{0C}'
    || c == '\U{1C}' || c == '\U{1D}' || c == '\U{1E}' || c == '\U{1F}'
  }

  predicate AllSpace(s: string) {
    forall i :: 0 <= i < |s| ==> IsSpace(s[i])
  }

  /** `s` with its leading whitespace removed. */
  function TrimLeft(s: string): (r: string)
    ensures |r| <= |s| && r == s[|s| - |r|..]
    ensures r == [] || !IsSpace(r[0])
    ensures AllSpace(s[..|s| - |r|])
  {
    if s != [] && IsSpace(s[0]) then
      var r := TrimLeft(s[1..]);
      assert s[..|s| - |r|] == [s[0]] + s[1..][..|s| - 1 - |r|];
      r
    else s
  }

  /** `s` with its trailing whitespace removed. */
  function TrimRight(s: string): (r: string)
    ensures |r| <= |s| && r == s[..|r|]
    ensures r == [] || !IsSpace(r[|r| - 1])
    ensures AllSpace(s[|r|..])
  {
    if s != [] && IsSpace(s[|s| - 1]) then
      var r := TrimRight(s[..|s| - 1]);
      assert s[|r|..] == s[..|s| - 1][|r|..] + [s[|s| - 1]];
      r
    else s
  }

  /** Python's `s.strip()`: whitespace removed at both ends. */
  function Strip(s: string): (r: string)
    ensures r == [] || (!IsSpace(r[0]) && !IsSpace(r[|r| - 1]))
  {
    TrimRight(TrimLeft(s))
  }

  /** A string that neither starts nor ends with whitespace is its own strip(). */
  lemma StripUnpadded(s: string)
    requires s != [] ==> !IsSpace(s[0]) && !IsSpace(s[|s| - 1])
    ensures Strip(s) == s
  {
    assert TrimLeft(s) == s;
  }

  /** A '-' followed by digits is its own strip(). */
  lemma StripNegatedDigits(s: string)
    requires s != [] && AllDigits(s)
    ensures Strip("-" + s) == "-" + s
  {
    var t := "-" + s;
    assert IsDigit(s[|s| - 1]);
    assert t[0] == '-' && t[|t| - 1] == s[|s| - 1];
    StripUnpadded(t);
  }

  lemma {:induction false} TrimLeftPadding(w: string, s: string)
    requires AllSpace(w)
    ensures TrimLeft(w + s) == TrimLeft(s)
    decreases |w|
  {
    if w != [] {
      assert (w + s)[1..] == w[1..] + s;
      TrimLeftPadding(w[1..], s);
    } else {
      assert w + s == s;
    }
  }

  lemma {:induction false} TrimRightPadding(s: string, w: string)
    requires AllSpace(w)
    ensures TrimRight(s + w) == TrimRight(s)
    decreases |w|
  {
    if w != [] {
      assert (s + w)[..|s + w| - 1] == s + w[..|w| - 1];
      TrimRightPadding(s, w[..|w| - 1]);
    } else {
      assert s + w == s;
    }
  }

  /** Once a non-space character is reached, what follows is kept as it is. */
  lemma {:induction false} TrimLeftAppend(a: string, b: string)
    requires TrimLeft(a) != []
    ensures TrimLeft(a + b) == TrimLeft(a) + b
    decreases |a|
  {
    assert a != [] && (a + b)[0] == a[0];
    if IsSpace(a[0]) {
      assert (a + b)[1..] == a[1..] + b;
      assert TrimLeft(a) == TrimLeft(a[1..]);
      assert TrimLeft(a + b) == TrimLeft(a[1..] + b);
      TrimLeftAppend(a[1..], b);
    } else {
      assert TrimLeft(a) == a && TrimLeft(a + b) == a + b;
    }
  }

  /** Surrounding whitespace never changes what `strip()` returns. */
  lemma StripPadding(w1: string, s: string, w2: string)
    requires AllSpace(w1) && AllSpace(w2)
    ensures Strip(w1 + s + w2) == Strip(s)
  {
    assert w1 + s + w2 == w1 + (s + w2);
    TrimLeftPadding(w1, s + w2);
    if TrimLeft(s) == [] {
      assert AllSpace(s);
      assert AllSpace(s + w2);
      TrimLeftPadding(s + w2, []);
      assert s + w2 + [] == s + w2;
    } else {
      TrimLeftAppend(s, w2);
      TrimRightPadding(TrimLeft(s), w2);
    }
  }

  /** Stripping twice is stripping once. */
  lemma StripIdempotent(s: string)
    ensures Strip(Strip(s)) == Strip(s)
  {
    var r := Strip(s);
    if r != [] {
      assert TrimLeft(r) == r;
      assert TrimRight(r) == r;
    }
  }

  // ----- numeric literals -----

  predicate IsDigit(c: char) {
    '0' <= c <= '9'
  }

  predicate AllDigits(s: string) {
    forall i :: 0 <= i < |s| ==> IsDigit(s[i])
  }

  /** The value of a string of decimal digits; the empty string is 0. */
  function DigitsValue(s: string): (n: nat)
    requires AllDigits(s)
  {
    if s == [] then 0
    else DigitsValue(s[..|s| - 1]) * 10 + ((s[|s| - 1] as int) - ('0' as int))
  }

  function Pow10(n: nat): (p: nat)
    ensures p >= 1
  {
    if n == 0 then 1 else 10 * Pow10(n - 1)
  }

  /** The position of the first '.' in `s`, or `|s|` when there is none. */
  function DotIndex(s: string): (k: nat)
    ensures k <= |s|
    ensures forall i :: 0 <= i < k ==> s[i] != '.'
    ensures k < |s| ==> s[k] == '.'
  {
    if s == [] then 0
    else if s[0] == '.' then 0
    else 1 + DotIndex(s[1..])
  }

  /** An unsigned literal `ddd`, `ddd.`, `.ddd` or `ddd.ddd` (at least one digit). */
  function ParseUnsigned(s: string): (r: Option<real>)
    ensures r.Some? ==> r.value >= 0.0
    ensures r.Some? ==> s != [] && forall i :: 0 <= i < |s| ==> IsDigit(s[i]) || s[i] == '.'
  {
    var k := DotIndex(s);
    var whole := s[..k];
    var frac := if k < |s| then s[k + 1..] else [];
    if |whole| + |frac| == 0 || !AllDigits(whole) || !AllDigits(frac) then None
    else
      assert forall i :: 0 <= i < |s| ==> (i < k ==> s[i] == whole[i]) && (k < i ==> s[i] == frac[i - k - 1]);
      Some(DigitsValue(whole) as real + DigitsValue(frac) as real / Pow10(|frac|) as real)
  }

  /**
   * A decimal literal with an optional sign, the part of Python's `float()` the
   * model covers (no exponent, `inf`, `nan` or digit separators).
   */
  function ParseDecimal(s: string): (r: Option<real>)
    ensures r.Some? ==> s != [] && forall i :: 0 <= i < |s| ==> !IsSpace(s[i])
    ensures r.Some? && r.value < 0.0 ==> s[0] == '-'
  {
    if s != [] && (s[0] == '-' || s[0] == '+') then
      match ParseUnsigned(s[1..])
      case Some(v) => Some(if s[0] == '-' then -v else v)
      case None => None
    else ParseUnsigned(s)
  }

  /** Without a '.', DotIndex points past the end. */
  lemma {:induction false} DotIndexAbsent(s: string)
    requires AllDigits(s)
    ensures DotIndex(s) == |s|
  {
    if s != [] {
      assert IsDigit(s[0]);
      assert AllDigits(s[1..]) by {
        forall i | 0 <= i < |s| - 1
          ensures IsDigit(s[1..][i])
        {
          assert s[1..][i] == s[i + 1];
        }
      }
      DotIndexAbsent(s[1..]);
    }
  }

  lemma ParseUnsignedDigits(s: string)
    requires s != [] && AllDigits(s)
    ensures ParseUnsigned(s) == Some(DigitsValue(s) as real)
  {
    DotIndexAbsent(s);
    assert s[..|s|] == s;
    var frac: string := [];
    assert AllDigits(frac) && DigitsValue(frac) == 0 && Pow10(|frac|) == 1;
  }

  /** A plain string of digits reads as the whole number it spells. */
  lemma ParseDigits(s: string)
    requires s != [] && AllDigits(s)
    ensures ParseDecimal(s) == Some(DigitsValue(s) as real)
  {
    assert IsDigit(s[0]);
    ParseUnsignedDigits(s);
  }

  /** A leading '-' negates the value of the unsigned literal after it. */
  lemma ParseNegated(s: string, v: real)
    requires ParseUnsigned(s) == Some(v)
    ensures ParseDecimal("-" + s) == Some(-v)
  {
    var t := "-" + s;
    assert t != [] && t[0] == '-' && t[1..] == s;
  }

  /** A '-' followed by digits, stripped, reads as the negated whole number `v` they spell. */
  lemma ParseNegatedDigits(s: string, v: real)
    requires s != [] && AllDigits(s) && v == DigitsValue(s) as real
    ensures ParseDecimal(Strip("-" + s)) == Some(-v)
  {
    StripNegatedDigits(s);
    ParseUnsignedDigits(s);
    ParseNegated(s, v);
  }
}
