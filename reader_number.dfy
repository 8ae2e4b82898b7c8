/**
 * `ReaderNumber`, the natural key of a reader: the single text
 * `year + "/" + number`, computed once by the constructor.
 */
module ReaderNumbers {
  import opened JavaLang
  import LendingNumbers

  datatype ReaderNumber = ReaderNumber(text: Option<JString>)

  /** `ReaderNumber(int year, int number)`: any two ints are accepted. */
  function Make(year: Int32, number: Int32): (r: ReaderNumber)
    ensures r.text.Some?
  {
    ReaderNumber(Some(DecimalText(year) + [Slash] + DecimalText(number)))
  }

  /** The protected empty constructor for the ORM: the text stays `null`. */
  function OrmEmpty(): (r: ReaderNumber)
    ensures r.text.None?
  {
    ReaderNumber(None)
  }

  /** How many times `c` occurs in `s`. */
  function Occurrences(c: CodeUnit, s: JString): nat {
    if |s| == 0 then 0 else (if s[0] == c then 1 else 0) + Occurrences(c, s[1..])
  }

  /** The index of the first '/' in `s`, or `|s|` when there is none. */
  function FirstSlash(s: JString): (i: nat)
    ensures i <= |s|
    ensures forall k :: 0 <= k < i ==> s[k] != Slash
    ensures i < |s| ==> s[i] == Slash
  {
    if |s| == 0 || s[0] == Slash then 0 else 1 + FirstSlash(s[1..])
  }

  /**
   * Reads a `year/number` text back: the two signed decimal numbers on
   * either side of the first '/'.
   */
  function Components(text: JString): Option<(int, int)> {
    var i := FirstSlash(text);
    if i == |text| then None
    else
      match (SignedValue(text[..i]), SignedValue(text[i + 1..]))
      case (Some(a), Some(b)) => Some((a, b))
      case _ => None
  }

  lemma {:induction false} OccurrencesAppend(c: CodeUnit, s: JString, t: JString)
    ensures Occurrences(c, s + t) == Occurrences(c, s) + Occurrences(c, t)
  {
    if |s| > 0 {
      assert (s + t)[1..] == s[1..] + t;
      OccurrencesAppend(c, s[1..], t);
    } else {
      assert s + t == t;
    }
  }

  lemma {:induction false} OccurrencesAbsent(c: CodeUnit, s: JString)
    requires forall i :: 0 <= i < |s| ==> s[i] != c
    ensures Occurrences(c, s) == 0
  {
    if |s| > 0 {
      OccurrencesAbsent(c, s[1..]);
    }
  }

  /** The text holds exactly one '/': decimal renderings of ints never contain one. */
  lemma ExactlyOneSlash(year: Int32, number: Int32)
    ensures Occurrences(Slash, Make(year, number).text.value) == 1
  {
    var a, b := DecimalText(year), DecimalText(number);
    DecimalTextAvoids(year, Slash);
    DecimalTextAvoids(number, Slash);
    OccurrencesAbsent(Slash, a);
    OccurrencesAbsent(Slash, b);
    OccurrencesAppend(Slash, a, [Slash]);
    OccurrencesAppend(Slash, a + [Slash], b);
  }

  /** Splitting the text at its '/' recovers both numbers. */
  lemma ComponentsOfMake(year: Int32, number: Int32)
    ensures Components(Make(year, number).text.value) == Some((year, number))
  {
    var a, b := DecimalText(year), DecimalText(number);
    var t := a + [Slash] + b;
    DecimalTextAvoids(year, Slash);
    var i := FirstSlash(t);
    assert t[|a|] == Slash;
    assert i == |a|;
    assert t[..i] == a;
    assert t[i + 1..] == b;
    SignedValueOfDecimalText(year);
    SignedValueOfDecimalText(number);
  }

  /** Distinct `(year, number)` pairs give distinct reader numbers. */
  lemma MakeInjective(y1: Int32, n1: Int32, y2: Int32, n2: Int32)
    requires Make(y1, n1) == Make(y2, n2)
    ensures y1 == y2 && n1 == n2
  {
    ComponentsOfMake(y1, n1);
    ComponentsOfMake(y2, n2);
  }

  /** The format is the one of `LendingNumber`: the same pair gives the same text. */
  lemma SameFormatAsLendingNumber(year: Int32, number: Int32)
    ensures Make(year, number).text == LendingNumbers.ToString(LendingNumbers.Make(year, number))
  {
  }
}
