/**
  Worked cases of the preprocessing: why the strip steps must run in the
  order written, and what one row of the table becomes.
 */
module PipelineExamples {
  import opened Wrappers
  import opened Text
  import opened Decimal
  import opened Frame
  import opened Ranges
  import opened Pipeline
  import opened RangeExamples

  /** Removing " inches" from "(ma inchesle)" joins the text around it into " (male)". */
  lemma InchesJoinMale(x: string)
    requires ' ' !in x
    ensures ReplaceAll(x + " (ma" + " inches" + "le)", " inches") == x + " (male)"
  {
    var pat := " inches";
    var tail := "(ma" + pat + "le)";
    assert x + " (ma" + pat + "le)" == x + ([' '] + tail);
    ReplaceAllSkip(x, [' '] + tail, pat);
    assert ([' '] + tail)[1] != pat[1];
    ReplaceAllKeep(' ', tail, pat);
    assert tail == "(ma" + (pat + "le)");
    ReplaceAllSkip("(ma", pat + "le)", pat);
    ReplaceAllFront(pat, "le)");
    assert ReplaceAll("le)", pat) == "le)";
    assert x + ([' '] + ("(ma" + "le)")) == x + " (male)";
  }

  /** Before that step there is no " (male)" to remove. */
  lemma NoMaleYet(x: string)
    requires ' ' !in x
    ensures ReplaceAll(x + " (ma" + " inches" + "le)", " (male)") == x + " (ma" + " inches" + "le)"
  {
    var tail := "(ma" + ([' '] + ("inches" + "le)"));
    assert x + " (ma" + " inches" + "le)" == x + ([' '] + tail);
    ReplaceAllSkip(x, [' '] + tail, " (male)");
    MaleTailKept();
  }

  lemma MaleTailKept()
    ensures var tail := [' '] + ("(ma" + ([' '] + ("inches" + "le)")));
      ReplaceAll(tail, " (male)") == tail
  {
    var pat := " (male)";
    var rest := "inches" + "le)";
    var tail := "(ma" + ([' '] + rest);
    assert ([' '] + tail)[4] != pat[4];
    ReplaceAllKeep(' ', tail, pat);
    ReplaceAllSkip("(ma", [' '] + rest, pat);
    assert ([' '] + rest)[1] != pat[1];
    ReplaceAllKeep(' ', rest, pat);
    NoSpace(rest, pat);
  }

  /** A trailing unit that starts with a space is removed from a text without spaces. */
  lemma SuffixRemoved(x: string, pat: string)
    requires |pat| > 0 && pat[0] == ' ' && ' ' !in x
    ensures ReplaceAll(x + pat, pat) == x
  {
    ReplaceAllSkip(x, pat, pat);
    assert pat == pat + "";
    ReplaceAllFront(pat, "");
    assert x + "" == x;
  }

  /** A trailing word that the pattern does not match survives. */
  lemma SuffixKept(x: string, word: string, pat: string)
    requires |pat| > 0 && pat[0] == ' ' && ' ' !in x && ' ' !in word
    requires !OccursAt([' '] + word, pat, 0)
    ensures ReplaceAll(x + [' '] + word, pat) == x + [' '] + word
  {
    assert x + [' '] + word == x + ([' '] + word);
    ReplaceAllSkip(x, [' '] + word, pat);
    ReplaceAllKeep(' ', word, pat);
    NoSpace(word, pat);
  }

  /** A text without spaces is untouched by a pattern that starts with one. */
  lemma NoSpace(s: string, pat: string)
    requires |pat| > 0 && pat[0] == ' ' && ' ' !in s
    ensures ReplaceAll(s, pat) == s
  {
    assert s == s + "";
    ReplaceAllSkip(s, "", pat);
  }

  /** " (TOY)" does not occur in " (male)". */
  lemma NoToyInMale(x: string)
    requires ' ' !in x
    ensures ReplaceAll(x + " (male)", " (TOY)") == x + " (male)"
  {
    assert x + " (male)" == x + [' '] + "(male)";
    assert ([' '] + "(male)")[..6][2] != (" (TOY)")[2];
    SuffixKept(x, "(male)", " (TOY)");
  }

  /**
    Where the patterns cannot overlap, the order does not matter: "60 pounds
    (male)" loses both words whichever is removed first.
   */
  lemma DisjointSuffixesCommute(x: string)
    requires ' ' !in x
    ensures StrReplace(StrReplace(Str(x + " pounds" + " (male)"), " (male)"), " pounds") == Str(x)
    ensures StrReplace(StrReplace(Str(x + " pounds" + " (male)"), " pounds"), " (male)") == Str(x)
  {
    MaleFirst(x);
    SuffixRemoved(x, " pounds");
    PoundsFirst(x);
    SuffixRemoved(x, " (male)");
  }

  lemma MaleFirst(x: string)
    requires ' ' !in x
    ensures ReplaceAll(x + " pounds" + " (male)", " (male)") == x + " pounds"
  {
    assert x + " pounds" + " (male)" == x + " pounds (male)";
    ReplaceAllSkip(x, " pounds (male)", " (male)");
    MaleAfterPounds();
  }

  lemma MaleAfterPounds()
    ensures ReplaceAll(" pounds (male)", " (male)") == " pounds"
  {
    var pat := " (male)";
    var tail := "pounds" + pat;
    assert " pounds (male)" == [' '] + tail;
    assert ([' '] + tail)[..7][1] != pat[1];
    ReplaceAllKeep(' ', tail, pat);
    ReplaceAllSkip("pounds", pat, pat);
    assert pat == pat + "";
    ReplaceAllFront(pat, "");
  }

  lemma PoundsFirst(x: string)
    requires ' ' !in x
    ensures ReplaceAll(x + " pounds" + " (male)", " pounds") == x + " (male)"
  {
    var pat := " pounds";
    ReplaceAllSkip(x, pat + " (male)", pat);
    assert x + pat + " (male)" == x + (pat + " (male)");
    ReplaceAllFront(pat, " (male)");
    assert " (male)" == [' '] + "(male)";
    assert ([' '] + "(male)")[..7][1] != pat[1];
    ReplaceAllKeep(' ', "(male)", pat);
    NoSpace("(male)", pat);
  }

  /** A number followed by " (male)" is no number, even with its spaces removed. */
  lemma MaleNotNumber(x: string)
    requires ' ' !in x
    ensures ParseDecimal(RemoveSpaces(x + " (male)")) == None
  {
    var tail := "(male)";
    MaleSpacesRemoved(x);
    assert (x + tail)[|x|] == '(' && !IsNumeral('(');
    ParsedCharsNone(x + tail, |x|);
  }

  lemma MaleSpacesRemoved(x: string)
    requires ' ' !in x
    ensures RemoveSpaces(x + " (male)") == x + "(male)"
  {
    var tail := "(male)";
    assert x + " (male)" == x + (" " + tail);
    ReplaceAllSkip(x, " " + tail, " ");
    ReplaceAllFront(" ", tail);
    NoSpace(tail, " ");
  }

  /**
    The order of the height steps matters. In the order written, any
    space-free range followed by " (ma inchesle)" loses " inches", the join
    " (male)" is then removed, and the range is what is left. With
    " (male)" removed before " inches" the join survives.
   */
  lemma StripOrderMatters(x: string)
    requires ' ' !in x
    ensures StripHeight(Str(x + " (ma" + " inches" + "le)")) == Str(x)
    ensures StrReplace(StrReplace(StrReplace(Str(x + " (ma" + " inches" + "le)"), " (male)"), " inches"), " (TOY)")
      == Str(x + " (male)")
  {
    InchesJoinMale(x);
    SuffixRemoved(x, " (male)");
    NoSpace(x, " (TOY)");
    NoMaleYet(x);
    NoToyInMale(x);
  }

  /** A range of two whole numbers has no space. */
  lemma RangeNoSpace(a: string, b: string)
    requires AllDigits(a) && AllDigits(b)
    ensures ' ' !in a + "-" + b && '-' !in a && '-' !in b
  {
    assert !IsDigit(' ') && !IsDigit('-');
    var x := a + "-" + b;
    forall i | 0 <= i < |x| ensures x[i] != ' ' {
      if i < |a| { assert x[i] == a[i]; } else if i > |a| { assert x[i] == b[i - |a| - 1]; }
    }
  }

  /** For a range of two whole numbers, the order written gives its mean as the height. */
  lemma StripOrderKeeps(a: string, b: string)
    requires |a| > 0 && AllDigits(a) && |b| > 0 && AllDigits(b)
    ensures Measure(StripHeight(Str(a + "-" + b + " (ma" + " inches" + "le)"))) ==
      Num((DigitsValue(a) + DigitsValue(b)) as real / 2.0)
  {
    RangeNoSpace(a, b);
    StripOrderMatters(a + "-" + b);
    MeasureOfRange(a, b);
  }

  /** A range of two whole numbers measures as their mean. */
  lemma MeasureOfRange(a: string, b: string)
    requires |a| > 0 && AllDigits(a) && |b| > 0 && AllDigits(b)
    ensures Measure(Str(a + "-" + b)) == Num((DigitsValue(a) + DigitsValue(b)) as real / 2.0)
  {
    RangeOfDigits(a, b);
  }

  /** The other order leaves the height missing. */
  lemma StripOrderLoses(a: string, b: string)
    requires |a| > 0 && AllDigits(a) && |b| > 0 && AllDigits(b)
    ensures var c := Str(a + "-" + b + " (ma" + " inches" + "le)");
      Measure(StrReplace(StrReplace(StrReplace(c, " (male)"), " inches"), " (TOY)")) == NaN
  {
    var x := a + "-" + b;
    RangeNoSpace(a, b);
    StripOrderMatters(x);
    assert ' ' !in b;
    MaleNotNumber(b);
    assert x + " (male)" == a + "-" + (b + " (male)");
    assert '-' !in b + " (male)";
    ExtractAvgBadPiece(a, b + " (male)");
  }

  /** The breed group "Herding »", say, becomes "Herding". */
  lemma GroupCleaned(g: string)
    requires ' ' !in g
    ensures StripGroup(Str(g + " »")) == Str(g)
  {
    SuffixRemoved(g, " »");
  }

  /** A height such as "22-25 inches" becomes the mean of its ends. */
  lemma HeightCleaned(a: string, b: string)
    requires |a| > 0 && AllDigits(a) && |b| > 0 && AllDigits(b)
    ensures Measure(StripHeight(Str(a + "-" + b + " inches"))) == Num((DigitsValue(a) + DigitsValue(b)) as real / 2.0)
  {
    var x := a + "-" + b;
    RangeNoSpace(a, b);
    SuffixRemoved(x, " inches");
    NoSpace(x, " (male)");
    NoSpace(x, " (TOY)");
    MeasureOfRange(a, b);
  }

  /**
    A height with a qualifier, such as "22-25 inches (male)", becomes the mean
    of its ends: " inches" goes first, then " (male)", and " (TOY)" finds
    nothing.
   */
  lemma QualifiedHeightCleaned(a: string, b: string)
    requires |a| > 0 && AllDigits(a) && |b| > 0 && AllDigits(b)
    ensures Measure(StripHeight(Str(a + "-" + b + " inches" + " (male)"))) == Num((DigitsValue(a) + DigitsValue(b)) as real / 2.0)
  {
    var x := a + "-" + b;
    RangeNoSpace(a, b);
    InchesBeforeMale(x);
    SuffixRemoved(x, " (male)");
    NoSpace(x, " (TOY)");
    MeasureOfRange(a, b);
  }

  /** Removing " inches" from "x inches (male)" leaves "x (male)". */
  lemma InchesBeforeMale(x: string)
    requires ' ' !in x
    ensures ReplaceAll(x + " inches" + " (male)", " inches") == x + " (male)"
  {
    var pat := " inches";
    assert x + pat + " (male)" == x + (pat + " (male)");
    ReplaceAllSkip(x, pat + " (male)", pat);
    ReplaceAllFront(pat, " (male)");
    assert " (male)" == [' '] + "(male)";
    assert (" (male)")[1] != pat[1];
    ReplaceAllKeep(' ', "(male)", pat);
    NoSpace("(male)", pat);
  }

  /** A weight such as "60-70 pounds" becomes the mean of its ends. */
  lemma WeightCleaned(a: string, b: string)
    requires |a| > 0 && AllDigits(a) && |b| > 0 && AllDigits(b)
    ensures Measure(StripWeight(Str(a + "-" + b + " pounds"))) == Num((DigitsValue(a) + DigitsValue(b)) as real / 2.0)
  {
    RangeNoSpace(a, b);
    WeightStripped(a + "-" + b);
    MeasureOfRange(a, b);
  }

  /** Of the three weight patterns only " pounds" occurs in a range followed by " pounds". */
  lemma WeightStripped(x: string)
    requires ' ' !in x
    ensures StripWeight(Str(x + " pounds")) == Str(x)
  {
    assert x + " pounds" == x + [' '] + "pounds";
    assert ([' '] + "pounds")[..6][1] != (" (TOY)")[1];
    SuffixKept(x, "pounds", " (TOY)");
    assert ([' '] + "pounds")[..7][1] != (" (male)")[1];
    SuffixKept(x, "pounds", " (male)");
    SuffixRemoved(x, " pounds");
  }

  /** A life expectancy such as "10-13 years" becomes the mean of its ends. */
  lemma LifeCleaned(a: string, b: string)
    requires |a| > 0 && AllDigits(a) && |b| > 0 && AllDigits(b)
    ensures Measure(StripLife(Str(a + "-" + b + " years"))) == Num((DigitsValue(a) + DigitsValue(b)) as real / 2.0)
  {
    RangeNoSpace(a, b);
    SuffixRemoved(a + "-" + b, " years");
    MeasureOfRange(a, b);
  }

  /**
    A row of the table end to end: the breed name stays, the group loses its
    marker, and each range, with its unit and qualifier, becomes its mean.
   */
  lemma CleanRowExample()
    ensures CleanRow(Row(Str("X"), Str("Herding" + " »"), Str("22" + "-" + "25" + " inches" + " (male)"),
                         Str("60" + "-" + "70" + " pounds"), Str("10" + "-" + "13" + " years"), []))
         == Row(Str("X"), Str("Herding"), Num(23.5), Num(65.0), Num(11.5), [])
  {
    GroupCleaned("Herding");
    Digits2("22", 22);
    Digits2("25", 25);
    QualifiedHeightCleaned("22", "25");
    Digits2("60", 60);
    Digits2("70", 70);
    WeightCleaned("60", "70");
    Digits2("10", 10);
    Digits2("13", 13);
    LifeCleaned("10", "13");
  }
}
