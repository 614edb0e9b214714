/**
  The preprocessing of the dog-breed table (app.py, top of the file): drop
  duplicate rows, strip unit words from the text columns in a fixed order,
  turn each range into its mean, and coerce the three measurement columns to
  numbers. Each column step is one whole-column reassignment, as in the
  source; `CleanRow` is what the steps do to one row.
 */
module Pipeline {
  import opened Wrappers
  import opened Text
  import opened Decimal
  import opened Frame
  import opened Dedup
  import opened Ranges

  /**
    `.str.replace(pat, "", regex=False)` on one cell: a string loses every
    occurrence of `pat`; a cell that is not a string (a number, or NaN) comes
    out as NaN.
   */
  function StrReplace(c: Cell, pat: string): (r: Cell)
    ensures c.Str? <==> r.Str?
    ensures c.Str? ==> r.s == ReplaceAll(c.s, pat) && |r.s| <= |c.s|
    ensures !c.Str? ==> r == NaN
  {
    if c.Str? then Str(ReplaceAll(c.s, pat)) else NaN
  }

  /** `Series.apply(extract_avg)` on one cell: the mean of the range, or NaN where it gives `None`. */
  function ApplyExtract(c: Cell): (r: Cell)
    ensures !r.Str?
  {
    match ExtractAvg(c)
    case Some(x) => Num(x)
    case None => NaN
  }

  /** `pd.to_numeric(..., errors='coerce')` on one cell: a string becomes its number, or NaN when it is none. */
  function ToNumeric(c: Cell): (r: Cell)
    ensures !r.Str?
  {
    if c.Str? then
      (var v := ParseDecimal(c.s); if v.Some? then Num(v.value) else NaN)
    else c
  }

  /** The breed group column: the " »" marker is removed. */
  function StripGroup(c: Cell): Cell
  {
    StrReplace(c, " »")
  }

  /** The height column: " inches", then " (male)", then " (TOY)". */
  function StripHeight(c: Cell): Cell
  {
    StrReplace(StrReplace(StrReplace(c, " inches"), " (male)"), " (TOY)")
  }

  /** The weight column: " (TOY)", then " (male)", then " pounds". */
  function StripWeight(c: Cell): Cell
  {
    StrReplace(StrReplace(StrReplace(c, " (TOY)"), " (male)"), " pounds")
  }

  /** The life expectancy column: " years". */
  function StripLife(c: Cell): Cell
  {
    StrReplace(c, " years")
  }

  /** A measurement column after stripping, range extraction and coercion. */
  function Measure(stripped: Cell): Cell
  {
    ToNumeric(ApplyExtract(stripped))
  }

  /** What preprocessing does to one row; the breed name and the other columns are left alone. */
  function CleanRow(r: Row): Row
  {
    Row(r.breed, StripGroup(r.group), Measure(StripHeight(r.height)), Measure(StripWeight(r.weight)),
        Measure(StripLife(r.life)), r.others)
  }

  /** The table after preprocessing: one cleaned row per row that survives deduplication, in order. */
  function Cleaned(raw: seq<Row>): (df: seq<Row>)
    ensures |df| == |DropDuplicates(raw)|
  {
    var rows := DropDuplicates(raw);
    seq(|rows|, i requires 0 <= i < |rows| => CleanRow(rows[i]))
  }

  /** The preprocessing as the source writes it: one reassignment of `df` per line. */
  method Preprocess(raw: seq<Row>) returns (df: seq<Row>)
    ensures df == Cleaned(raw)
  {
    df := DropDuplicates(raw);
    df := StripUnits(df);
    df := ExtractAverages(df);
    df := CoerceNumeric(df);
  }

  /** The eight `.str.replace` lines, in the order written. */
  method StripUnits(rows: seq<Row>) returns (df: seq<Row>)
    ensures |df| == |rows|
    ensures forall i :: 0 <= i < |df| ==>
      df[i] == rows[i].(group := StripGroup(rows[i].group), height := StripHeight(rows[i].height),
                        weight := StripWeight(rows[i].weight), life := StripLife(rows[i].life))
  {
    df := MapColumn(rows, BreedGroup, c => StrReplace(c, " »"));
    df := MapColumn(df, Height, c => StrReplace(c, " inches"));
    df := MapColumn(df, Height, c => StrReplace(c, " (male)"));
    df := MapColumn(df, Height, c => StrReplace(c, " (TOY)"));
    df := MapColumn(df, Weight, c => StrReplace(c, " (TOY)"));
    df := MapColumn(df, Weight, c => StrReplace(c, " (male)"));
    df := MapColumn(df, Weight, c => StrReplace(c, " pounds"));
    df := MapColumn(df, LifeExpectancy, c => StrReplace(c, " years"));
    forall i | 0 <= i < |df|
      ensures df[i] == rows[i].(group := StripGroup(rows[i].group), height := StripHeight(rows[i].height),
                                weight := StripWeight(rows[i].weight), life := StripLife(rows[i].life))
    {
      RowsEqual(df[i], rows[i].(group := StripGroup(rows[i].group), height := StripHeight(rows[i].height),
                                weight := StripWeight(rows[i].weight), life := StripLife(rows[i].life)));
    }
  }

  /** The three `.apply(extract_avg)` lines. */
  method ExtractAverages(rows: seq<Row>) returns (df: seq<Row>)
    ensures |df| == |rows|
    ensures forall i :: 0 <= i < |df| ==>
      df[i] == rows[i].(height := ApplyExtract(rows[i].height), weight := ApplyExtract(rows[i].weight),
                        life := ApplyExtract(rows[i].life))
  {
    df := MapColumn(rows, Height, ApplyExtract);
    df := MapColumn(df, Weight, ApplyExtract);
    df := MapColumn(df, LifeExpectancy, ApplyExtract);
    forall i | 0 <= i < |df|
      ensures df[i] == rows[i].(height := ApplyExtract(rows[i].height), weight := ApplyExtract(rows[i].weight),
                                life := ApplyExtract(rows[i].life))
    {
      RowsEqual(df[i], rows[i].(height := ApplyExtract(rows[i].height), weight := ApplyExtract(rows[i].weight),
                                life := ApplyExtract(rows[i].life)));
    }
  }

  /** The three `pd.to_numeric(..., errors='coerce')` lines. */
  method CoerceNumeric(rows: seq<Row>) returns (df: seq<Row>)
    ensures |df| == |rows|
    ensures forall i :: 0 <= i < |df| ==>
      df[i] == rows[i].(height := ToNumeric(rows[i].height), weight := ToNumeric(rows[i].weight),
                        life := ToNumeric(rows[i].life))
  {
    df := MapColumn(rows, Height, ToNumeric);
    df := MapColumn(df, Weight, ToNumeric);
    df := MapColumn(df, LifeExpectancy, ToNumeric);
    forall i | 0 <= i < |df|
      ensures df[i] == rows[i].(height := ToNumeric(rows[i].height), weight := ToNumeric(rows[i].weight),
                                life := ToNumeric(rows[i].life))
    {
      RowsEqual(df[i], rows[i].(height := ToNumeric(rows[i].height), weight := ToNumeric(rows[i].weight),
                                life := ToNumeric(rows[i].life)));
    }
  }

  /** A strip step leaves a string in which the pattern does not occur as it was. */
  lemma StrReplaceAbsent(c: Cell, pat: string)
    requires c.Str? && !Occurs(c.s, pat)
    ensures StrReplace(c, pat) == c
  {
    ReplaceAllAbsent(c.s, pat);
  }

  /** A strip step shortens a string exactly when the pattern occurs in it. */
  lemma StrReplaceShortens(c: Cell, pat: string)
    requires c.Str? && |pat| > 0
    ensures |StrReplace(c, pat).s| < |c.s| <==> Occurs(c.s, pat)
  {
    ReplaceAllShortensIffOccurs(c.s, pat);
  }

  /** Coercion after range extraction changes nothing: the column already holds only numbers and NaN. */
  lemma CoercionIsIdentity(c: Cell)
    ensures ToNumeric(ApplyExtract(c)) == ApplyExtract(c)
  {
  }

  /** Coercing twice is coercing once. */
  lemma ToNumericIdempotent(c: Cell)
    ensures ToNumeric(ToNumeric(c)) == ToNumeric(c)
  {
  }

  /**
    A cleaned measurement is a number or missing, never text; a number came
    from a text cell and is never negative.
   */
  lemma MeasureValues(c: Cell)
    ensures !Measure(c).Str?
    ensures Measure(c).Num? ==> c.Str? && Measure(c).x >= 0.0
    ensures !c.Str? ==> Measure(c) == NaN
  {
    if Measure(c).Num? {
      ExtractAvgNonNegative(c);
    }
  }

  /**
    Cleaning is not idempotent: on object columns that hold numbers, running
    the cleaning steps again on a cleaned row loses every measurement,
    because `.str` turns numbers into NaN. (On float64 columns, as the
    program's cleaned table has, `.str` raises instead.)
   */
  lemma CleanTwiceLosesMeasures(r: Row)
    ensures var again := CleanRow(CleanRow(r));
      again.height == NaN && again.weight == NaN && again.life == NaN
  {
    MeasureValues(StripHeight(r.height));
    MeasureValues(StripWeight(r.weight));
    MeasureValues(StripLife(r.life));
  }

  /**
    Every distinct input row appears in the table, cleaned, and every row of
    the table is the cleaned form of an input row; there are no more rows than
    in the input.
   */
  lemma CleanedRows(raw: seq<Row>)
    ensures |Cleaned(raw)| <= |raw|
    ensures forall r :: r in raw ==> CleanRow(r) in Cleaned(raw)
    ensures forall x :: x in Cleaned(raw) ==> exists r :: r in raw && x == CleanRow(r)
  {
    var rows, df := DropDuplicates(raw), Cleaned(raw);
    SameRows(raw);
    forall r | r in raw ensures CleanRow(r) in df {
      var k :| 0 <= k < |rows| && rows[k] == r;
      assert df[k] == CleanRow(r);
    }
    forall x | x in df ensures exists r :: r in raw && x == CleanRow(r) {
      var k :| 0 <= k < |df| && df[k] == x;
      assert rows[k] in raw;
    }
  }
}
