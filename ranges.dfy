/**
  `extract_avg` (app.py): the representative value of a range such as
  "22-25" is the mean of its two ends. It never raises: a cell that is not a
  string, a text that does not split into exactly two pieces at '-', or a
  piece that is not a number all give `None`.
 */
module Ranges {
  import opened Wrappers
  import opened Text
  import opened Decimal
  import opened Frame

  /** `range_str.replace(' ', '')`. */
  function RemoveSpaces(s: string): string
  {
    ReplaceAll(s, " ")
  }

  function ExtractAvg(c: Cell): (r: Option<real>)
    ensures !c.Str? ==> r == None
  {
    if !c.Str? then None
    else
      var parts := Split(RemoveSpaces(c.s), '-');
      if |parts| != 2 then None
      else MeanOf(ParseDecimal(parts[0]), ParseDecimal(parts[1]))
  }

  /** `(float(low) + float(high)) / 2`, or `None` when either conversion fails. */
  function MeanOf(low: Option<real>, high: Option<real>): Option<real>
  {
    if low.Some? && high.Some? then Some((low.value + high.value) / 2.0) else None
  }

  /** Removing spaces keeps every hyphen, and only removes spaces. */
  lemma RemoveSpacesKeepsHyphens(s: string)
    ensures CountChar(RemoveSpaces(s), '-') == CountChar(s, '-')
  {
    ReplaceAllKeepsOtherChars(s, " ", '-');
  }

  lemma RemoveSpacesAround(a: string, b: string)
    requires '-' !in a && '-' !in b
    ensures RemoveSpaces(a + "-" + b) == RemoveSpaces(a) + "-" + RemoveSpaces(b)
    ensures '-' !in RemoveSpaces(a) && '-' !in RemoveSpaces(b)
  {
    ReplaceCharConcat(a + "-", b, ' ');
    ReplaceCharConcat(a, "-", ' ');
    CharNotOccurs("-", ' ');
    ReplaceAllAbsent("-", " ");
    CountCharZero(a, '-');
    CountCharZero(b, '-');
    RemoveSpacesKeepsHyphens(a);
    RemoveSpacesKeepsHyphens(b);
    CountCharZero(RemoveSpaces(a), '-');
    CountCharZero(RemoveSpaces(b), '-');
  }

  /**
    A text with one hyphen between two hyphen-free sides gives a value exactly
    when both sides, with their spaces removed, are numbers, and the value is
    their mean.
   */
  lemma {:induction false} ExtractAvgOfRange(a: string, b: string)
    requires '-' !in a && '-' !in b
    ensures ExtractAvg(Str(a + "-" + b)) == MeanOf(ParseDecimal(RemoveSpaces(a)), ParseDecimal(RemoveSpaces(b)))
  {
    RemoveSpacesAround(a, b);
    SplitPair(RemoveSpaces(a), RemoveSpaces(b), '-');
    assert RemoveSpaces(a) + "-" + RemoveSpaces(b) == RemoveSpaces(a) + ['-'] + RemoveSpaces(b);
  }

  /** Any number of hyphens other than one (none, as in "22"; two, as in "-5-10") gives `None`. */
  lemma ExtractAvgNeedsOneHyphen(s: string)
    requires CountChar(s, '-') != 1
    ensures ExtractAvg(Str(s)) == None
  {
    RemoveSpacesKeepsHyphens(s);
  }

  /** Spaces never matter: they are removed before anything else is looked at. */
  lemma ExtractAvgIgnoresSpaces(s: string)
    ensures ExtractAvg(Str(s)) == ExtractAvg(Str(RemoveSpaces(s)))
  {
    ReplaceCharIdempotent(s, ' ');
  }

  /** The representative value lies between the two ends of the range. */
  lemma ExtractAvgBetween(a: string, b: string)
    requires '-' !in a && '-' !in b
    requires ExtractAvg(Str(a + "-" + b)).Some?
    ensures var low, high, m := ParseDecimal(RemoveSpaces(a)), ParseDecimal(RemoveSpaces(b)), ExtractAvg(Str(a + "-" + b));
      low.Some? && high.Some? &&
      (low.value <= m.value <= high.value || high.value <= m.value <= low.value)
  {
    ExtractAvgOfRange(a, b);
  }

  /** Swapping the two ends does not change the value. */
  lemma ExtractAvgSymmetric(a: string, b: string)
    requires '-' !in a && '-' !in b
    ensures ExtractAvg(Str(a + "-" + b)) == ExtractAvg(Str(b + "-" + a))
  {
    ExtractAvgOfRange(a, b);
    ExtractAvgOfRange(b, a);
  }

  /** Since every piece is free of '-', a minus sign never reaches the number syntax: values are never negative. */
  lemma ExtractAvgNonNegative(c: Cell)
    requires ExtractAvg(c).Some?
    ensures ExtractAvg(c).value >= 0.0
  {
    var parts := Split(RemoveSpaces(c.s), '-');
    ParsedNonNegative(parts[0]);
    ParsedNonNegative(parts[1]);
  }

  /** A piece that does not parse spoils the whole range. */
  lemma ExtractAvgBadPiece(a: string, b: string)
    requires '-' !in a && '-' !in b
    requires ParseDecimal(RemoveSpaces(a)) == None || ParseDecimal(RemoveSpaces(b)) == None
    ensures ExtractAvg(Str(a + "-" + b)) == None
  {
    ExtractAvgOfRange(a, b);
  }

  /** When both ends are numbers `low` and `high`, the value of the range is `(low + high) / 2`. */
  lemma ExtractAvgOfNumbers(a: string, b: string, low: real, high: real)
    requires '-' !in a && '-' !in b
    requires ParseDecimal(RemoveSpaces(a)) == Some(low) && ParseDecimal(RemoveSpaces(b)) == Some(high)
    ensures ExtractAvg(Str(a + "-" + b)) == Some((low + high) / 2.0)
  {
    MeanOfNumbers(ParseDecimal(RemoveSpaces(a)), ParseDecimal(RemoveSpaces(b)), low, high);
    ExtractAvgFromMean(a, b, (low + high) / 2.0);
  }

  lemma MeanOfNumbers(x: Option<real>, y: Option<real>, low: real, high: real)
    requires x == Some(low) && y == Some(high)
    ensures MeanOf(x, y) == Some((low + high) / 2.0)
  {
  }

  lemma ExtractAvgFromMean(a: string, b: string, m: real)
    requires '-' !in a && '-' !in b
    requires MeanOf(ParseDecimal(RemoveSpaces(a)), ParseDecimal(RemoveSpaces(b))) == Some(m)
    ensures ExtractAvg(Str(a + "-" + b)) == Some(m)
  {
    ExtractAvgOfRange(a, b);
  }

  lemma DigitsWithoutSpaces(s: string)
    requires |s| > 0 && AllDigits(s)
    ensures RemoveSpaces(s) == s
    ensures ParseDecimal(s) == Some(DigitsValue(s) as real)
    ensures '-' !in s
  {
    assert ' ' !in s by {
      forall k | 0 <= k < |s| ensures s[k] != ' ' {
        assert IsDigit(s[k]);
      }
    }
    assert '-' !in s by {
      forall k | 0 <= k < |s| ensures s[k] != '-' {
        assert IsDigit(s[k]);
      }
    }
    CharNotOccurs(s, ' ');
    ReplaceAllAbsent(s, " ");
    DigitsParse(s);
  }
}
