/**
 * `LendingNumber`, the natural key of a lending: a year, a sequential number
 * and the text `year + "/" + sequential` that combines them. Every
 * constructor computes the three fields once; the value is never changed
 * afterwards, so each constructor is a function returning the new value.
 * A field that Java leaves at its default keeps `null` (`None`) or `0`.
 */
module LendingNumbers {
  import opened JavaLang

  datatype LendingNumber = LendingNumber(text: Option<JString>, year: Int32, sequential: Int32)

  /** The Java expression `year + "/" + sequential`. */
  function Text(year: int, sequential: int): JString {
    DecimalText(year) + [Slash] + DecimalText(sequential)
  }

  /**
   * The state every constructor leaves behind: either nothing was set (the
   * ORM constructor, a failed parse), or the text renders the two numbers.
   */
  ghost predicate Consistent(n: LendingNumber) {
    || (n.text == None && n.year == 0 && n.sequential == 0)
    || n.text == Some(Text(n.year, n.sequential))
  }

  /** `LendingNumber(int year, int sequential)`: no range check at all. */
  function Make(year: Int32, sequential: Int32): (r: LendingNumber)
    ensures Consistent(r) && r.text.Some?
    ensures r.year == year && r.sequential == sequential
  {
    LendingNumber(Some(Text(year, sequential)), year, sequential)
  }

  /**
   * `LendingNumber(int sequential)`: the year is the current year, which
   * the caller supplies here instead of reading the clock.
   */
  function WithCurrentYear(currentYear: Int32, sequential: Int32): (r: LendingNumber)
    ensures r == Make(currentYear, sequential)
  {
    LendingNumber(Some(Text(currentYear, sequential)), currentYear, sequential)
  }

  /** The empty constructor for the ORM: every field keeps its default. */
  function OrmEmpty(): (r: LendingNumber)
    ensures Consistent(r) && r.text.None?
  {
    LendingNumber(None, 0, 0)
  }

  /**
   * `LendingNumber(String)`. The year is parsed from code units `[0, 3)`
   * and the sequential number from `[5, length)`; units 3 and 4 are
   * never looked at. A `NumberFormatException` or
   * `IndexOutOfBoundsException` from either parse is caught and the
   * constructor returns with no field set. A `null` argument makes the
   * first parse throw `NullPointerException`, which is not caught.
   */
  function FromText(lendingNumber: Option<JString>): (r: Result<LendingNumber>)
    ensures r.Thrown? <==> lendingNumber.None?
    ensures r.Thrown? ==> r.error == NullPointer
    ensures r.Ok? ==> Consistent(r.value)
    ensures r.Ok? && r.value.text.Some? ==>
      && |lendingNumber.value| >= 6
      && SignedValue(lendingNumber.value[..3]) == Some(r.value.year)
      && SignedValue(lendingNumber.value[5..]) == Some(r.value.sequential)
  {
    match lendingNumber
    case None => Thrown(NullPointer)
    case Some(s) =>
      match (ParseInt(s, 0, 3), ParseInt(s, 5, |s|))
      case (Ok(year), Ok(sequential)) =>
        assert s[0..3] == s[..3] && s[5..|s|] == s[5..];
        Ok(LendingNumber(Some(Text(year, sequential)), year, sequential))
      case _ => Ok(OrmEmpty())
  }

  /** `toString()`: the stored text, `null` when nothing was set. */
  function ToString(n: LendingNumber): (r: Option<JString>)
    requires Consistent(n)
    ensures r.None? <==> n.text.None?
    ensures r == None || r == Some(Text(n.year, n.sequential))
    ensures r == None ==> n.year == 0 && n.sequential == 0
  {
    n.text
  }

  // ---------------------------------------------------------------------
  // Properties of the string constructor

  /** A string of at most `k` digits denotes a number below `10^k`. */
  lemma {:induction false} FewDigitsBound(s: JString, k: nat)
    requires AllDigits(s) && |s| <= k
    ensures DigitsValue(s) < Pow10(k)
  {
    if |s| > 0 {
      FewDigitsBound(s[..|s| - 1], k - 1);
      assert DigitsValue(s[..|s| - 1]) * 10 <= (Pow10(k - 1) - 1) * 10;
    }
  }

  /** A signed decimal number of at most three characters lies in `[-99, 999]`. */
  lemma ThreeCharacterRange(t: JString)
    requires |t| <= 3 && SignedValue(t).Some?
    ensures -99 <= SignedValue(t).value <= 999
  {
    if t[0] == Minus || t[0] == Plus {
      FewDigitsBound(t[1..], 2);
    } else {
      FewDigitsBound(t, 3);
    }
  }

  /**
   * The string constructor sets the fields exactly when the text has at
   * least six code units, units `[0, 3)` form a signed decimal number and
   * units `[5, length)` form a signed decimal number that fits an `int`;
   * the fields then hold those two numbers. Otherwise it fails silently:
   * no exception, nothing set.
   */
  lemma FromTextSetsFieldsIff(s: JString)
    ensures FromText(Some(s)).Ok?
    ensures FromText(Some(s)).value.text.Some? <==>
      && |s| >= 6
      && SignedValue(s[..3]).Some?
      && SignedValue(s[5..]).Some?
      && MinInt <= SignedValue(s[5..]).value <= MaxInt
    ensures FromText(Some(s)).value.text.Some? ==>
      && FromText(Some(s)).value.year == SignedValue(s[..3]).value
      && FromText(Some(s)).value.sequential == SignedValue(s[5..]).value
  {
    if |s| >= 6 {
      assert s[0..3] == s[..3];
      assert s[5..|s|] == s[5..];
      if SignedValue(s[..3]).Some? {
        ThreeCharacterRange(s[..3]);
      }
    } else if |s| == 5 {
      assert s[5..|s|] == [];
    }
  }

  /** A parsed year always lies in `[-99, 999]`, so it is never a four-digit year. */
  lemma ParsedYearHasAtMostThreeDigits(s: JString)
    requires FromText(Some(s)).value.text.Some?
    ensures -99 <= FromText(Some(s)).value.year <= 999
  {
    ThreeCharacterRange(s[0..3]);
  }

  /**
   * The separator is never inspected: two texts that agree on code units
   * `[0, 3)` and `[5, length)` construct the same lending number.
   */
  lemma FromTextIgnoresSeparator(s: JString, t: JString)
    requires |s| >= 5 && |t| >= 5
    requires s[..3] == t[..3] && s[5..] == t[5..]
    ensures FromText(Some(s)) == FromText(Some(t))
  {
    assert s[0..3] == s[..3] && t[0..3] == t[..3];
    assert s[5..|s|] == s[5..] && t[5..|t|] == t[5..];
  }

  /**
   * Whatever the code unit between the numbers, text made of a four-digit
   * year `y`, that unit and a sequential `q >= 0` parses to `(y / 10, q)`.
   */
  lemma {:induction false} FourDigitYearAnySeparator(y: Int32, sep: CodeUnit, q: Int32)
    requires 1000 <= y <= 9999 && 0 <= q
    ensures FromText(Some(DecimalText(y) + [sep] + DecimalText(q))) == Ok(Make(y / 10, q))
  {
    var head := NatText(y / 10);
    assert NatText(y) == head + [DigitChar(y % 10)];
    assert |head| == 3 by {
      NatTextShort(y / 10, 3);
      NatTextLong(y / 10, 2);
    }
    var s := DecimalText(y) + [sep] + DecimalText(q);
    assert s == head + ([DigitChar(y % 10)] + [sep] + NatText(q));
    assert s[0..3] == head;
    assert s[5..|s|] == NatText(q);
    SignedValueOfDecimalText(y / 10);
    SignedValueOfDecimalText(q);
  }

  /**
   * The text does not round-trip: parsing the text of `(y, q)` for a
   * four-digit year `y` and `q >= 0` drops the last digit of the year.
   */
  lemma FourDigitYearLosesLastDigit(y: Int32, q: Int32)
    requires 1000 <= y <= 9999 && 0 <= q
    ensures FromText(Some(Text(y, q))) == Ok(Make(y / 10, q))
    ensures Make(y / 10, q) != Make(y, q)
  {
    FourDigitYearAnySeparator(y, Slash, q);
  }

  /**
   * The examples: "2024/23" (the text `2024 + "/" + 23`) gives "202/23",
   * and "2024-23" is accepted with the same result.
   */
  lemma FromTextExamples()
    ensures FromText(Some(Text(2024, 23))) == Ok(Make(202, 23))
    ensures ToString(FromText(Some(Text(2024, 23))).value) == Some(Text(202, 23))
    ensures FromText(Some(DecimalText(2024) + [Minus] + DecimalText(23))) == Ok(Make(202, 23))
  {
    FourDigitYearAnySeparator(2024, Slash, 23);
    FourDigitYearAnySeparator(2024, Minus, 23);
  }

  /**
   * A trailing segment, as in "2024/23/extra", makes the parse fail
   * silently: the sequential part then holds a '/', so nothing is set.
   */
  lemma TrailingSegmentSetsNothing(y: Int32, q: Int32, rest: JString)
    requires 1000 <= y <= 9999 && 0 <= q
    ensures FromText(Some(Text(y, q) + [Slash] + rest)) == Ok(OrmEmpty())
  {
    assert |NatText(y)| == 4 by {
      NatTextShort(y, 4);
      NatTextLong(y, 3);
    }
    var s := Text(y, q) + [Slash] + rest;
    var tail := s[5..|s|];
    assert tail == NatText(q) + [Slash] + rest;
    assert !IsDigit(tail[|NatText(q)|]);
    assert IsDigit(tail[0]);
    assert SignedValue(tail) == None;
  }

  /**
   * Indices count UTF-16 code units, and a character above U+FFFF occupies
   * two of them. After a three-digit year such a character fills both
   * skipped positions, so "202😀1" is read as year 202 and sequential 1.
   */
  lemma SupplementaryCharacterFillsTheGap(y: Int32, c: char, q: Int32)
    requires 100 <= y <= 999 && c as int >= 0x1_0000 && 0 <= q
    ensures FromText(Some(DecimalText(y) + Utf16([c]) + DecimalText(q))) == Ok(Make(y, q))
  {
    assert |NatText(y)| == 3 by {
      NatTextShort(y, 3);
      NatTextLong(y, 2);
    }
    Utf16OfSupplementary(c);
    var s := DecimalText(y) + Utf16([c]) + DecimalText(q);
    assert s[0..3] == NatText(y);
    assert s[5..|s|] == NatText(q);
    SignedValueOfDecimalText(y);
    SignedValueOfDecimalText(q);
  }

  /**
   * After a four-digit year, a character above U+FFFF leaves its low
   * surrogate at index 5, so "2024😀23" sets nothing.
   */
  lemma SupplementaryCharacterAfterFourDigitYear(y: Int32, c: char, q: Int32)
    requires 1000 <= y <= 9999 && c as int >= 0x1_0000 && 0 <= q
    ensures FromText(Some(DecimalText(y) + Utf16([c]) + DecimalText(q))) == Ok(OrmEmpty())
  {
    assert |NatText(y)| == 4 by {
      NatTextShort(y, 4);
      NatTextLong(y, 3);
    }
    Utf16OfSupplementary(c);
    var s := DecimalText(y) + Utf16([c]) + DecimalText(q);
    var tail := s[5..|s|];
    assert tail[0] == Utf16([c])[1];
    assert SignedValue(tail) == None;
  }

  // ---------------------------------------------------------------------
  // Properties of the (year, sequential) constructors

  /** For a four-digit year and a non-negative sequential the text has 6 to 15 characters, within `@Size(min = 6, max = 32)`. */
  lemma {:induction false} TextLengthWithinSize(y: Int32, q: Int32)
    requires 1000 <= y <= 9999 && 0 <= q
    ensures 6 <= |ToString(Make(y, q)).value| <= 15
  {
    NatTextShort(y, 4);
    NatTextLong(y, 3);
    assert Pow10(10) == 10000000000;
    NatTextShort(q, 10);
  }

  /**
   * No validation: a negative sequential number is stored, where the unit
   * tests expect `IllegalArgumentException`: the text of `(2024, -1)` is
   * "2024/-1". (A future year is stored as well: `Make` throws nothing.)
   */
  lemma NegativeSequentialIsStored()
    ensures ToString(Make(2024, -1)) == Some(Utf16("2024/-1"))
  {
    assert NatText(2024) == [DigitChar(2), DigitChar(0), DigitChar(2), DigitChar(4)] by {
      assert NatText(202) == NatText(20) + [DigitChar(2)];
      assert NatText(20) == NatText(2) + [DigitChar(0)];
    }
    assert DecimalText(-1) == [Minus, DigitChar(1)];
    assert Text(2024, -1) == [DigitChar(2), DigitChar(0), DigitChar(2), DigitChar(4), Slash, Minus, DigitChar(1)];
    UnitsOf2024SlashMinus1();
  }

  lemma UnitsOf2024SlashMinus1()
    ensures Utf16("2024/-1") == [DigitChar(2), DigitChar(0), DigitChar(2), DigitChar(4), Slash, Minus, DigitChar(1)]
  {
    Utf16OfBmp("2024/-1");
  }

  /** A `null` text escapes as `NullPointerException`, not the `IllegalArgumentException` the unit tests expect. */
  lemma NullTextIsNotIllegalArgument()
    ensures FromText(None) == Thrown(NullPointer)
  {
  }

  // ---------------------------------------------------------------------
  // The evidently intended string constructor

  /** `LendingNumber(String)` with the year read from characters `[0, 4)`. */
  function FromTextCorrected(lendingNumber: Option<JString>): (r: Result<LendingNumber>)
    ensures r.Thrown? <==> lendingNumber.None?
    ensures r.Ok? ==> Consistent(r.value)
  {
    match lendingNumber
    case None => Thrown(NullPointer)
    case Some(s) =>
      match (ParseInt(s, 0, 4), ParseInt(s, 5, |s|))
      case (Ok(year), Ok(sequential)) => Ok(LendingNumber(Some(Text(year, sequential)), year, sequential))
      case _ => Ok(OrmEmpty())
  }

  /** With the corrected slice, the text of a four-digit year round-trips. */
  lemma {:induction false} CorrectedRoundTrip(y: Int32, q: Int32)
    requires 1000 <= y <= 9999 && 0 <= q
    ensures FromTextCorrected(ToString(Make(y, q))) == Ok(Make(y, q))
  {
    assert |NatText(y)| == 4 by {
      NatTextShort(y, 4);
      NatTextLong(y, 3);
    }
    var s := Text(y, q);
    assert s[0..4] == NatText(y);
    assert s[5..|s|] == NatText(q);
    SignedValueOfDecimalText(y);
    SignedValueOfDecimalText(q);
  }
}
