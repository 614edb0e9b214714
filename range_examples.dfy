/** The worked cases of `extract_avg`: well-formed ranges and the inputs it turns into `None`. */
module RangeExamples {
  import opened Wrappers
  import opened Text
  import opened Decimal
  import opened Frame
  import opened Ranges

  /** A range of two whole numbers written without spaces gives their mean. */
  lemma RangeOfDigits(a: string, b: string)
    requires |a| > 0 && AllDigits(a) && |b| > 0 && AllDigits(b)
    ensures ExtractAvg(Str(a + "-" + b)) == Some((DigitsValue(a) + DigitsValue(b)) as real / 2.0)
  {
    DigitsWithoutSpaces(a);
    DigitsWithoutSpaces(b);
    ExtractAvgOfNumbers(a, b, DigitsValue(a) as real, DigitsValue(b) as real);
  }

  /** Spaces around the hyphen are dropped: "a - b" gives the same mean as "a-b". */
  lemma SpacedRangeOfDigits(a: string, b: string)
    requires |a| > 0 && AllDigits(a) && |b| > 0 && AllDigits(b)
    ensures ExtractAvg(Str(a + " - " + b)) == Some((DigitsValue(a) + DigitsValue(b)) as real / 2.0)
  {
    DigitsWithoutSpaces(a);
    DigitsWithoutSpaces(b);
    SpacesAroundHyphen(a, b);
    ExtractAvgIgnoresSpaces(a + " - " + b);
    RangeOfDigits(a, b);
  }

  lemma SpacesAroundHyphen(a: string, b: string)
    requires RemoveSpaces(a) == a && RemoveSpaces(b) == b
    ensures RemoveSpaces(a + " - " + b) == a + "-" + b
  {
    ReplaceCharConcat(a + " - ", b, ' ');
    ReplaceCharConcat(a, " - ", ' ');
    assert RemoveSpaces(" - ") == "-" by {
      ReplaceCharConcat(" ", "- ", ' ');
      ReplaceCharConcat("-", " ", ' ');
      assert " - " == " " + "- " && "- " == "-" + " ";
    }
  }

  /** "22-25" gives 23.5. */
  lemma ExampleRange()
    ensures ExtractAvg(Str("22-25")) == Some(23.5)
  {
    Digits2("22", 22);
    Digits2("25", 25);
    RangeOfDigits("22", "25");
    assert "22-25" == "22" + "-" + "25";
  }

  /** "10 - 13" gives 11.5. */
  lemma ExampleSpacedRange()
    ensures ExtractAvg(Str("10 - 13")) == Some(11.5)
  {
    Digits2("10", 10);
    Digits2("13", 13);
    SpacedRangeOfDigits("10", "13");
    assert "10 - 13" == "10" + " - " + "13";
  }

  /** A lone number, the empty text and a negative bound give `None`. */
  lemma ExampleHyphenCount()
    ensures ExtractAvg(Str("22")) == None
    ensures ExtractAvg(Str("")) == None
    ensures ExtractAvg(Str("-5-10")) == None
  {
    ExtractAvgNeedsOneHyphen("22");
    ExtractAvgNeedsOneHyphen("");
    ExtractAvgNeedsOneHyphen("-5-10");
  }

  /** An empty end gives `None`. */
  lemma ExampleEmptyEnd()
    ensures ExtractAvg(Str("22-")) == None
  {
    Number("22", 22);
    Empty();
    assert "22-" == "22" + "-" + "";
    ExtractAvgBadPiece("22", "");
  }

  /** A non-numeric end gives `None`. */
  lemma ExampleTextEnd()
    ensures ExtractAvg(Str("N/A-5")) == None
  {
    NotApplicable();
    Number("5", 5);
    assert "N/A-5" == "N/A" + "-" + "5";
    ExtractAvgBadPiece("N/A", "5");
  }

  lemma Number(s: string, n: nat)
    requires |s| > 0 && AllDigits(s) && DigitsValue(s) == n
    ensures '-' !in s && RemoveSpaces(s) == s && ParseDecimal(RemoveSpaces(s)) == Some(n as real)
  {
    DigitsWithoutSpaces(s);
  }

  lemma Empty()
    ensures RemoveSpaces("") == "" && ParseDecimal("") == None
  {
  }

  lemma NotApplicable()
    ensures '-' !in "N/A" && RemoveSpaces("N/A") == "N/A" && ParseDecimal("N/A") == None
  {
    ParsedCharsNone("N/A", 0);
  }

  /** A two-digit text is a number with the value of its two digits. */
  lemma Digits2(s: string, n: nat)
    requires |s| == 2 && IsDigit(s[0]) && IsDigit(s[1]) && n == 10 * Digit(s[0]) + Digit(s[1])
    ensures AllDigits(s) && DigitsValue(s) == n
  {
    var t := s[1..];
    assert t[0] == s[1] && t[1..] == [];
    assert AllDigits(t);
    calc {
      DigitsValue(s);
      DigitsFrom(10 * 0 + Digit(s[0]), t);
      DigitsFrom(10 * Digit(s[0]) + Digit(t[0]), t[1..]);
      n;
    }
  }
}
