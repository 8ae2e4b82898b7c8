/**
 * The small part of the Java platform that the modelled classes rely on:
 * the ranges of `int` and `long`, `null` (as `Option`), thrown exceptions
 * (as `Result`), `String` as a sequence of UTF-16 code units, the decimal
 * rendering of an integer used by string
 * concatenation and `Long.toString`, and the decimal parsers
 * `Integer.parseInt(CharSequence, int, int, int)` and `Long.parseLong(String)`.
 */
module JavaLang {

  const MinInt: int := -0x8000_0000
  const MaxInt: int := 0x7fff_ffff
  const MinLong: int := -0x8000_0000_0000_0000
  const MaxLong: int := 0x7fff_ffff_ffff_ffff

  /** A Java `int`. */
  type Int32 = x: int | MinInt <= x <= MaxInt

  /** A Java `long`. */
  type Int64 = x: int | MinLong <= x <= MaxLong

  /**
   * A UTF-16 code unit, the `char` of Java. `String.length`, `substring`
   * and `parseInt`'s bounds count these units, so a character above U+FFFF
   * takes two of them.
   */
  type CodeUnit = u: int | 0 <= u < 0x1_0000

  /** The contents of a Java `String`. */
  type JString = seq<CodeUnit>

  const Minus: CodeUnit := '-' as int
  const Plus: CodeUnit := '+' as int
  const Slash: CodeUnit := '/' as int

  /** All characters of `s` lie in the Basic Multilingual Plane: each is one code unit. */
  ghost predicate Bmp(s: string) {
    forall i :: 0 <= i < |s| ==> s[i] as int < 0x1_0000
  }

  /**
   * The Java `String` holding the text `s`: its UTF-16 encoding. A
   * character above U+FFFF becomes a high and a low surrogate.
   */
  function Utf16(s: string): JString {
    if |s| == 0 then []
    else
      var c := s[0] as int;
      var head: JString := if c < 0x1_0000 then [c]
        else [0xD800 + (c - 0x1_0000) / 0x400, 0xDC00 + (c - 0x1_0000) % 0x400];
      head + Utf16(s[1..])
  }

  /** Text in the Basic Multilingual Plane takes one code unit per character. */
  lemma {:induction false} Utf16OfBmp(s: string)
    requires Bmp(s)
    ensures |Utf16(s)| == |s|
    ensures forall i :: 0 <= i < |s| ==> Utf16(s)[i] == s[i] as int
  {
    if |s| > 0 {
      Utf16OfBmp(s[1..]);
    }
  }

  /** A character above U+FFFF takes two code units: a high surrogate, then a low surrogate. */
  lemma Utf16OfSupplementary(c: char)
    requires c as int >= 0x1_0000
    ensures |Utf16([c])| == 2
    ensures 0xD800 <= Utf16([c])[0] < 0xDC00 && 0xDC00 <= Utf16([c])[1] < 0xE000
  {
    assert [c][1..] == [];
  }

  /** A reference that may be `null` (`None`). */
  datatype Option<T> = None | Some(value: T)

  /** The exceptions the modelled code can raise or let escape. */
  datatype Exception =
    | NullPointer
    | IndexOutOfBounds
    | NumberFormat
    | IllegalArgument
    | ResponseStatus(status: int)

  /** The outcome of a Java call: a value, or the exception it threw. */
  datatype Result<T> = Ok(value: T) | Thrown(error: Exception)

  predicate IsDigit(c: CodeUnit) {
    '0' as int <= c <= '9' as int
  }

  predicate AllDigits(s: JString) {
    forall i :: 0 <= i < |s| ==> IsDigit(s[i])
  }

  function DigitValue(c: CodeUnit): (d: nat)
    requires IsDigit(c)
    ensures d < 10
  {
    c - '0' as int
  }

  function DigitChar(d: nat): (c: CodeUnit)
    requires d < 10
    ensures IsDigit(c) && DigitValue(c) == d
  {
    '0' as int + d
  }

  function Pow10(k: nat): (p: nat)
    ensures p >= 1
  {
    if k == 0 then 1 else 10 * Pow10(k - 1)
  }

  /** The value of a string of decimal digits, most significant first. */
  function DigitsValue(s: JString): nat
    requires AllDigits(s)
  {
    if |s| == 0 then 0 else DigitsValue(s[..|s| - 1]) * 10 + DigitValue(s[|s| - 1])
  }

  /** The shortest decimal digits of `n` (no sign, no leading zero). */
  function NatText(n: nat): (r: JString)
    ensures |r| >= 1 && AllDigits(r)
    ensures r[0] == DigitChar(0) ==> n == 0
  {
    if n < 10 then [DigitChar(n)] else NatText(n / 10) + [DigitChar(n % 10)]
  }

  /**
   * The text Java produces for an integer in string concatenation and in
   * `Integer.toString` / `Long.toString`: a '-' for negative values, then
   * the digits of the magnitude.
   */
  function DecimalText(n: int): (r: JString)
    ensures |r| >= 1 && AllDigits(r[1..])
    ensures r[0] == Minus <==> n < 0
    ensures n >= 0 ==> AllDigits(r)
  {
    if n < 0 then [Minus] + NatText(-n) else NatText(n)
  }

  /**
   * The mathematical value of an optionally signed string of decimal digits
   * (at least one digit), or `None` when the string has another shape.
   */
  function SignedValue(s: JString): Option<int> {
    if |s| == 0 then None
    else if s[0] == Minus || s[0] == Plus then
      if |s| > 1 && AllDigits(s[1..]) then
        Some(if s[0] == Minus then 0 - DigitsValue(s[1..]) else DigitsValue(s[1..]))
      else None
    else if AllDigits(s) then Some(DigitsValue(s))
    else None
  }

  /**
   * The decimal parsers of `Integer` and `Long` applied to a whole string:
   * a well-formed text whose value lies in `[min, max]` gives that value,
   * anything else throws `NumberFormatException`.
   */
  function ParseSigned(s: JString, min: int, max: int): (r: Result<int>)
    ensures r.Ok? ==> min <= r.value <= max
    ensures r.Thrown? ==> r.error == NumberFormat
  {
    match SignedValue(s)
    case None => Thrown(NumberFormat)
    case Some(v) => if min <= v <= max then Ok(v) else Thrown(NumberFormat)
  }

  /**
   * `Integer.parseInt(s, begin, end, 10)` on a non-null `s`: bounds outside
   * the string throw `IndexOutOfBoundsException`, otherwise the code units
   * `[begin, end)` are parsed as an `int`.
   */
  function ParseInt(s: JString, begin: int, end: int): (r: Result<int>)
    ensures r.Ok? ==> 0 <= begin <= end <= |s| && ParseSigned(s[begin..end], MinInt, MaxInt) == r
    ensures r.Thrown? ==> r.error in {IndexOutOfBounds, NumberFormat}
  {
    if 0 <= begin <= end <= |s| then ParseSigned(s[begin..end], MinInt, MaxInt)
    else Thrown(IndexOutOfBounds)
  }

  /** `Long.parseLong(s)` on a non-null `s`. */
  function ParseLong(s: JString): (r: Result<int>)
    ensures r.Ok? ==> MinLong <= r.value <= MaxLong
    ensures r.Thrown? ==> r.error == NumberFormat
  {
    ParseSigned(s, MinLong, MaxLong)
  }

  // ---------------------------------------------------------------------
  // Rendering and parsing are inverse

  lemma DigitsValueSnoc(s: JString, c: CodeUnit)
    requires AllDigits(s) && IsDigit(c)
    ensures AllDigits(s + [c])
    ensures DigitsValue(s + [c]) == DigitsValue(s) * 10 + DigitValue(c)
  {
    assert (s + [c])[..|s|] == s;
  }

  /** The digits of `n` read back as a number give `n`. */
  lemma {:induction false} DigitsValueOfNatText(n: nat)
    ensures DigitsValue(NatText(n)) == n
  {
    if n < 10 {
      assert NatText(n)[..0] == [];
    } else {
      DigitsValueOfNatText(n / 10);
      DigitsValueSnoc(NatText(n / 10), DigitChar(n % 10));
    }
  }

  /** Parsing the decimal text of any integer gives that integer back. */
  lemma SignedValueOfDecimalText(n: int)
    ensures SignedValue(DecimalText(n)) == Some(n)
  {
    var t := DecimalText(n);
    if n < 0 {
      DigitsValueOfNatText(-n);
      assert t[1..] == NatText(-n);
      assert t[0] == Minus && |t| > 1;
    } else {
      DigitsValueOfNatText(n);
      assert IsDigit(t[0]);
    }
  }

  /** `Long.toString` and `Long.parseLong` round-trip on every `long`. */
  lemma ParseLongOfDecimalText(n: int)
    requires MinLong <= n <= MaxLong
    ensures ParseLong(DecimalText(n)) == Ok(n)
  {
    SignedValueOfDecimalText(n);
  }

  /** No decimal text contains `c` unless `c` is a digit or the minus sign. */
  lemma DecimalTextAvoids(n: int, c: CodeUnit)
    requires !IsDigit(c) && c != Minus
    ensures forall i :: 0 <= i < |DecimalText(n)| ==> DecimalText(n)[i] != c
  {
    var t := DecimalText(n);
    forall i | 0 <= i < |t|
      ensures t[i] != c
    {
      if i > 0 {
        assert t[1..][i - 1] == t[i];
      }
    }
  }

  // ---------------------------------------------------------------------
  // Lengths of decimal texts

  /** A number below `10^k` has at most `k` digits. */
  lemma {:induction false} NatTextShort(n: nat, k: nat)
    requires 1 <= k && n < Pow10(k)
    ensures |NatText(n)| <= k
  {
    if n >= 10 {
      NatTextShort(n / 10, k - 1);
    }
  }

  /** A number of at least `10^k` has more than `k` digits. */
  lemma {:induction false} NatTextLong(n: nat, k: nat)
    requires Pow10(k) <= n
    ensures |NatText(n)| > k
  {
    if k > 0 {
      assert n >= 10;
      NatTextLong(n / 10, k - 1);
    }
  }
}
