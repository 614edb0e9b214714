# Dog breed dashboard: cleaning and filtering, modelled in Dafny

`app.py` is a Streamlit dashboard over a table of dog breeds. Before it
draws anything, it cleans the table in a fixed sequence of steps:

- It drops duplicate rows.
- It strips unit words from four text columns: " »" from the breed group;
  " inches", " (male)" and " (TOY)" from the height; " (TOY)", " (male)" and
  " pounds" from the weight; " years" from the life expectancy.
- It turns each range text such as "22-25" into its mean with
  `extract_avg`.
- It coerces the three measurement columns to numbers.

The sidebar then filters the cleaned rows in three steps:

- It keeps a row when its height, weight and life expectancy all lie within
  the integer slider bounds.
- It narrows to one breed group, unless "All" is chosen.
- It narrows to the chosen breeds, when any are chosen.

The sidebar also shows the total and filtered row counts.

This project models that core and proves its properties. The modules are:

- `Text`: Python's `str.replace(pat, "")` and `str.split(sep)` with a
  one-character separator.
- `Seqs`: pandas boolean indexing (`df[mask]`) and selection by a row
  predicate.
- `Frame`: cells, rows and whole-column reassignment. A cell is a string, a
  number or NaN, as in a pandas object column.
- `Dedup`: `drop_duplicates()`, written as pandas computes it:
  `df[~df.duplicated(keep='first')]`.
- `Decimal`: the number syntax used in place of Python's `float()`. It
  accepts plain decimals only and computes exact real values.
- `DecimalShape`: a grammar for exactly the texts `Decimal` accepts.
- `Ranges`: `extract_avg`.
- `Pipeline`: the preprocessing. `Preprocess` mirrors the source's run of
  `df = ...` reassignments, one per line. It is proved equal to `Cleaned`,
  which maps `CleanRow` over the deduplicated rows.
- `Filters`: the filter. `ApplyFilters` mirrors the source's reassignments
  of `filtered_df`. It is proved equal to `Filtered`, which selects by the
  predicate `Keep`.
- `RangeExamples` and `PipelineExamples`: worked cases.

Two properties of the code are worth stating outright:

- **Strip order matters.** Removing one word can join the text around it
  into another pattern, which a later step then removes.
  - `PipelineExamples.StripOrderMatters` proves this for the height column.
    Removing " inches" from "…(ma inchesle)" creates " (male)", which the
    next step removes.
  - `PipelineExamples.StripOrderKeeps` and `StripOrderLoses` show what
    follows. The written order gives the mean of the range. Removing
    " (male)" first leaves the height missing.
  - Where the patterns cannot overlap, as in "60 pounds (male)", the result
    is the same in either order (`PipelineExamples.DisjointSuffixesCommute`).
- **Cleaning is not idempotent.** The program's own cleaned table has
  float64 measurement columns, because `pd.to_numeric` returns float64. A
  second pass over that table raises `AttributeError` at the first `.str`,
  on the height column (app.py:9). On object columns that hold numbers,
  `.str.replace` turns each number into NaN, and `extract_avg` gives `None`
  for anything that is not a string. Cleaning such a row again therefore
  loses every measurement (`Pipeline.CleanTwiceLosesMeasures`).

## Model

| member | source | states |
|---|---|---|
| Text.ReplaceAll | app.py:8-15 | a strip step never makes a text longer |
| Text.ReplaceAllAbsent | app.py:8-15 | a strip step is the identity when the pattern does not occur |
| Text.ReplaceAllShortensIffOccurs | app.py:8-15 | a strip step (non-empty pattern) shortens the text exactly when the pattern occurs in it |
| Text.ReplaceAllSkip | app.py:8-15 | the left-to-right scan keeps a prefix that holds no character starting the pattern |
| Text.ReplaceAllKeepsOtherChars | app.py:21 | removing spaces never changes how many hyphens a text has |
| Text.ReplaceCharRemovesAll | app.py:21 | after removing every space, no space is left |
| Text.ReplaceCharConcat | app.py:21 | removing spaces distributes over concatenation |
| Text.ReplaceCharIdempotent | app.py:21 | removing spaces twice is the same as removing them once |
| Text.Split | app.py:22 | `split('-')` gives one more piece than there are hyphens, and no piece holds a hyphen |
| Text.SplitNoSeparator | app.py:22 | a text without a hyphen splits into itself alone |
| Text.SplitPair | app.py:22 | `a-b`, with no hyphen in `a` or `b`, splits into exactly `[a, b]` |
| Text.JoinSplit | app.py:22 | joining the pieces with the separator gives back the text |
| Seqs.Mask | app.py:49-57 | boolean indexing never gives more rows than it was given |
| Seqs.MaskIndices | app.py:49-57 | the selected positions are in range, selected, strictly increasing and complete |
| Seqs.MaskAt | app.py:49-57 | `df[mask]` holds, in order, exactly the rows at the selected positions |
| Seqs.MaskMember | app.py:49-57 | a row is in `df[mask]` exactly when it stands at some selected position |
| Seqs.WhereIndices | app.py:49-57 | selection gives an order-preserving subsequence: the passing rows at increasing positions, and all of them |
| Seqs.WhereMember | app.py:49-57 | a row survives selection exactly when it was present and passes the condition |
| Seqs.WhereCongruent | app.py:49-57 | conditions that agree on every row select the same rows |
| Seqs.WhereWhere | app.py:54-57 | refining a selection by a second condition equals selecting by both at once |
| Frame.MapColumn | app.py:8-35 | a column reassignment applies the function to each cell of that column; the row count, the order and every other column are unchanged |
| Dedup.Duplicated | app.py:7 | `duplicated()` gives one flag per row |
| Dedup.KeepsFirstOccurrences | app.py:7 | `drop_duplicates()` keeps, in their original order, exactly the rows with no identical earlier row |
| Dedup.Distinct | app.py:7 | no two rows of the result are identical |
| Dedup.SameRows | app.py:7 | every distinct input row is kept, and nothing else appears |
| Dedup.Examples | app.py:7 | `[a, a]` becomes `[a]`; `[a, b, a]` becomes `[a, b]` |
| Decimal.Shift | app.py:23 | moving the decimal point left keeps a non-negative value non-negative |
| Decimal.ScanWhole | app.py:23 | every value read by the whole-part scan is non-negative |
| Decimal.ScanFrac | app.py:23 | every value read by the fractional-part scan is non-negative |
| Decimal.NatToString | app.py:23 | the decimal text of a natural number is a non-empty run of digits |
| Decimal.DigitsAppend | app.py:23 | appending a digit multiplies the value by ten and adds the digit |
| Decimal.NatToStringValue | app.py:23 | the digits of `n` have the value `n` |
| Decimal.ScanWholeDigits | app.py:23 | the whole-part scan of a run of digits gives their value |
| Decimal.ScanFracDigits | app.py:23 | the fractional scan of a run of digits shifts their value right by the places read |
| Decimal.ScanWholePoint | app.py:23 | the digits before the point become the whole part that the fractional scan starts from |
| Decimal.DigitsParse | app.py:23 | a non-empty run of digits parses to its value |
| Decimal.SignedDigitsParse | app.py:23 | "+" before a non-empty run of digits gives its value, "-" the negated value |
| Decimal.PointParse | app.py:23 | `w.f` parses to `w + f / 10^len(f)` when at least one side has digits |
| Decimal.PointUnsigned | app.py:23 | the unsigned reading of `w.f` is `w + f / 10^len(f)` |
| Decimal.PointScan | app.py:23 | the digits before the point become the whole part, and the fractional scan starts after the point |
| Decimal.FracValue | app.py:23 | the fractional scan of `f` adds `f / 10^len(f)` to the whole part |
| Decimal.NatToStringParses | app.py:23 | round trip: the text of `n` parses back to `n` |
| Decimal.TrimStartSlice | app.py:23 | leading-whitespace removal drops only whitespace and keeps a suffix that does not start with whitespace |
| Decimal.TrimEndSlice | app.py:23 | trailing-whitespace removal drops only whitespace and keeps a prefix that does not end with whitespace |
| Decimal.TrimSlice | app.py:23 | the trimmed text is a slice of the input, and everything outside it is whitespace |
| Decimal.TrimIdempotent | app.py:23 | trimming twice is trimming once |
| Decimal.ParseTrimmed | app.py:23 | surrounding whitespace never changes the parsed value |
| Decimal.ScanWholeChars | app.py:23 | an accepted unsigned text holds only digits and points, and at least one digit |
| Decimal.ScanFracChars | app.py:23 | an accepted fractional part holds only digits |
| Decimal.TrimmedChars | app.py:23 | an accepted trimmed text holds only signs, digits and points, and at least one digit |
| Decimal.ParsedChars | app.py:23-25 | a text that parses holds only whitespace, signs, digits and points, and at least one digit |
| Decimal.ParsedCharsNone | app.py:23-25 | in the model's number syntax, a text holding any other character (a letter, a slash, a bracket) is rejected, as the `ValueError` path (`None`) |
| Decimal.ParsedNonNegative | app.py:23 | a text without a minus sign never parses to a negative value |
| Decimal.ExampleWhole | app.py:23 | "22" is 22; "-7" is -7 |
| Decimal.ExamplePadded | app.py:23 | " 2.5\n" is 2.5 |
| Decimal.ExampleRejected | app.py:23-25 | "", ".", "1.2.3" and "N/A" are not numbers |
| DecimalShape.ScanFracAccepts | app.py:23 | the fractional scan accepts exactly a run of digits, given a digit somewhere |
| DecimalShape.ScanWholeAccepts | app.py:23 | the unsigned scan accepts exactly digits, or digits, one point and digits, with at least one digit |
| DecimalShape.ParseDecimalAccepts | app.py:23-25 | the model's number syntax accepts exactly optional whitespace, an optional sign and that unsigned shape; every other text takes the `ValueError` path (`None`) |
| DecimalShape.TwoPointsRejected | app.py:23-25 | "1.2.3" has only numeral characters but is not a number |
| Ranges.ExtractAvg | app.py:18-26 | a cell that is not a string gives `None` instead of raising |
| Ranges.RemoveSpacesKeepsHyphens | app.py:21-22 | removing spaces keeps every hyphen |
| Ranges.RemoveSpacesAround | app.py:21-22 | removing spaces from `a-b` removes them from each side and adds no hyphen |
| Ranges.ExtractAvgOfRange | app.py:20-25 | for `a-b` with no other hyphen, the result is the mean of the two space-free sides when both parse, and `None` otherwise |
| Ranges.ExtractAvgNeedsOneHyphen | app.py:22-25 | any number of hyphens other than one gives `None`, so a negative end never parses |
| Ranges.ExtractAvgIgnoresSpaces | app.py:21 | the result is the same once the spaces are removed |
| Ranges.ExtractAvgBetween | app.py:23 | the result lies between the two ends |
| Ranges.ExtractAvgSymmetric | app.py:23 | swapping the two ends does not change the result |
| Ranges.ExtractAvgNonNegative | app.py:22-23 | the result is never negative |
| Ranges.ExtractAvgBadPiece | app.py:23-25 | an end that is not a number gives `None` |
| Ranges.ExtractAvgOfNumbers | app.py:21-23 | when both ends parse to `low` and `high`, the result is `(low + high) / 2` |
| Ranges.ExtractAvgFromMean | app.py:21-23 | the result of a two-sided range is the mean of its parsed ends |
| Ranges.DigitsWithoutSpaces | app.py:21-23 | a run of digits holds no space and no hyphen, and parses to its value |
| RangeExamples.RangeOfDigits | app.py:21-23 | for two non-empty digit runs `a` and `b`, "a-b" gives the mean of their values |
| RangeExamples.SpacedRangeOfDigits | app.py:21-23 | "a - b" gives the same mean as "a-b" |
| RangeExamples.SpacesAroundHyphen | app.py:21 | removing spaces from "a - b" gives "a-b" when `a` and `b` have no spaces |
| RangeExamples.ExampleRange | app.py:21-23 | "22-25" gives 23.5 |
| RangeExamples.ExampleSpacedRange | app.py:21-23 | "10 - 13" gives 11.5 |
| RangeExamples.ExampleHyphenCount | app.py:22-25 | "22", "" and "-5-10" give `None` |
| RangeExamples.ExampleEmptyEnd | app.py:23-25 | "22-" gives `None` |
| RangeExamples.ExampleTextEnd | app.py:23-25 | "N/A-5" gives `None` |
| Pipeline.StrReplace | app.py:8-15 | `.str.replace` on a string deletes every occurrence of the pattern and never lengthens it; every other cell becomes NaN |
| Pipeline.ApplyExtract | app.py:28-30 | `apply(extract_avg)` leaves no string in the column |
| Pipeline.ToNumeric | app.py:33-35 | `to_numeric(errors='coerce')` leaves no string in the column |
| Pipeline.Cleaned | app.py:7-35 | the cleaned table has one row per row kept by deduplication |
| Pipeline.Preprocess | app.py:7-35 | the run of reassignments produces exactly `Cleaned(raw)`: each kept row, in order, with each column cleaned by its own steps |
| Pipeline.StripUnits | app.py:8-15 | the eight strip lines rewrite the group, height, weight and life columns by their strip sequences, in the order written, and nothing else |
| Pipeline.ExtractAverages | app.py:28-30 | the three apply lines replace each measurement by its range mean or NaN, and nothing else |
| Pipeline.CoerceNumeric | app.py:33-35 | the three coercion lines coerce each measurement, and nothing else |
| Pipeline.StrReplaceAbsent | app.py:8-15 | a strip step leaves a cell alone when its pattern does not occur |
| Pipeline.StrReplaceShortens | app.py:8-15 | a strip step shortens a text cell exactly when its pattern occurs |
| Pipeline.CoercionIsIdentity | app.py:28-35 | coercion after extraction changes nothing |
| Pipeline.ToNumericIdempotent | app.py:33-35 | coercing twice is coercing once |
| Pipeline.MeasureValues | app.py:8-35 | a cleaned measurement is a number or NaN; a number came from a text cell and is never negative; a non-text cell becomes NaN |
| Pipeline.CleanTwiceLosesMeasures | app.py:8-35 | on object columns holding numbers, cleaning a cleaned row makes all three measurements NaN |
| Pipeline.CleanedRows | app.py:7-35 | the cleaned table has at most as many rows as the input; the cleaned form of every input row is in it, and every row in it is the cleaned form of an input row |
| PipelineExamples.InchesJoinMale | app.py:9 | removing " inches" from "x (ma inchesle)" gives "x (male)" |
| PipelineExamples.NoMaleYet | app.py:10 | removing " (male)" leaves "x (ma inchesle)" unchanged |
| PipelineExamples.MaleTailKept | app.py:10 | removing " (male)" leaves " (ma inchesle)" unchanged |
| PipelineExamples.SuffixRemoved | app.py:8-15 | a trailing unit word is removed from a text without spaces |
| PipelineExamples.SuffixKept | app.py:8-15 | a trailing word that the pattern does not match survives |
| PipelineExamples.NoSpace | app.py:8-15 | a text without spaces is untouched by every strip pattern, since each starts with a space |
| PipelineExamples.NoToyInMale | app.py:11 | " (TOY)" leaves "x (male)" alone |
| PipelineExamples.DisjointSuffixesCommute | app.py:12-14 | "x pounds (male)" loses both words in either order |
| PipelineExamples.MaleFirst | app.py:13 | removing " (male)" from "x pounds (male)" gives "x pounds" |
| PipelineExamples.MaleAfterPounds | app.py:13 | removing " (male)" from " pounds (male)" gives " pounds" |
| PipelineExamples.PoundsFirst | app.py:14 | removing " pounds" from "x pounds (male)" gives "x (male)" |
| PipelineExamples.MaleNotNumber | app.py:21-23 | "x (male)" is no number once its spaces are gone |
| PipelineExamples.MaleSpacesRemoved | app.py:21 | removing spaces from "x (male)" gives "x(male)" |
| PipelineExamples.StripOrderMatters | app.py:9-11 | the height steps in the order written clean "x (ma inchesle)" to "x"; removing " (male)" first leaves "x (male)" |
| PipelineExamples.StripOrderKeeps | app.py:9-35 | in the written order, such a height becomes the mean of the range |
| PipelineExamples.MeasureOfRange | app.py:28-35 | a range of two digit runs measures as their mean |
| PipelineExamples.StripOrderLoses | app.py:9-35 | in the other order, the height is lost |
| PipelineExamples.GroupCleaned | app.py:8 | a group such as "Herding »" becomes "Herding" |
| PipelineExamples.HeightCleaned | app.py:9-35 | a height such as "22-26 inches" becomes the mean of its ends |
| PipelineExamples.QualifiedHeightCleaned | app.py:9-35 | a height with a qualifier, such as "22-25 inches (male)", becomes the mean of its ends: two strip rules act one after the other |
| PipelineExamples.InchesBeforeMale | app.py:9 | removing " inches" from "x inches (male)" leaves "x (male)" |
| PipelineExamples.WeightCleaned | app.py:12-35 | a weight such as "50-70 pounds" becomes the mean of its ends |
| PipelineExamples.WeightStripped | app.py:12-14 | only " pounds" is removed from "x pounds" |
| PipelineExamples.LifeCleaned | app.py:15-35 | a life expectancy such as "12-14 years" becomes the mean of its ends |
| PipelineExamples.CleanRowExample | app.py:8-35 | one row end to end: the breed stays, "Herding »" becomes "Herding", "22-25 inches (male)" becomes 23.5, "60-70 pounds" 65 and "10-13 years" 11.5 |
| Filters.ApplyFilters | app.py:49-57 | the mask and the two conditional refinements produce exactly `Filtered(df, sel)` |
| Filters.FilteredSubsequence | app.py:49-57 | the shown rows are the passing rows of the table at increasing positions, and all of them |
| Filters.FilteredMember | app.py:49-57 | a row is shown exactly when it is in the table, all three measurements are within bounds, the group matches unless "All" is chosen, and the breed is chosen if any breed is |
| Filters.FilteredHasMeasures | app.py:49-53 | a shown row has all three measurements present and each within its inclusive bounds, so a row with NaN is never shown |
| Filters.FilteredCount | app.py:116-117 | the filtered count never exceeds the total count |
| Filters.OnlyBounds | app.py:54-57 | with "All" and no breeds chosen, only the bounds decide |
| Filters.RefinementsNarrow | app.py:54-57 | the group and breed refinements only remove rows |
| Filters.Truncate | app.py:43-45 | `int(x)` is the integer part of `x`, truncated toward zero |
| Filters.TruncatedMaximum | app.py:43-53 | with default bounds `int(min)` and `int(max)`, a row at the maximum is shown exactly when the maximum is whole |
| Filters.FilterExample | app.py:49-53 | with life expectancies 11.5, NaN and 14.0 and bounds 12 to 15, only the 14.0 row is shown |

## Left out

- The Streamlit widgets, tabs, charts, CSV download and breed comparison
  view (app.py:38-117, apart from the counts at 116-117). They are UI. The
  filter takes the widget values as a `Selection`: free integer bounds, a
  group name and a list of breeds.
- Reading `dog_data.csv` (app.py:6). The raw table is the parameter of
  `Pipeline.Preprocess`. Columns other than the five used are carried along
  in `Row.others`.
- Decimal.ParseDecimal: Python's `float()` also accepts exponents, `inf`,
  `nan`, underscores between digits, non-ASCII decimal digits and further
  whitespace (Unicode spaces, and the separators \x1c to \x1f). The model
  accepts only plain ASCII decimals with the ASCII whitespace listed in
  `Decimal.IsSpace`. Values are exact reals, without IEEE rounding.
- Pipeline.ToNumeric: pandas' `to_numeric` parser is approximated by the
  same decimal syntax. The model never feeds it a string
  (`Pipeline.CoercionIsIdentity`).
- Ranges.ExtractAvg: it takes a `Cell` (string, number or NaN) rather than
  an optional string. A missing value is `NaN`, and `None` results are
  stored as `NaN` by `Pipeline.ApplyExtract`, as pandas does in a float
  column.
- Pipeline.StrReplace: it models `.str` on an object column, where
  non-strings become NaN. On a column pandas has typed as float, `.str`
  raises `AttributeError`; that case is not modelled.
- Pipeline.CleanTwiceLosesMeasures: it states the outcome on object columns
  that hold numbers. The program's cleaned table has float64 measurement
  columns, and a second pass over it raises `AttributeError` at app.py:9
  instead; that error path is not modelled.
- Filters.Within: comparing a string cell with a number would raise
  `TypeError` in pandas. The model treats it as "not within". Cleaned
  measurement columns hold no strings (`Pipeline.MeasureValues`), so the
  case never arises there.
- The slider defaults come from the column minimum and maximum
  (app.py:43-45). The model states only their consequence for a fractional
  maximum (`Filters.TruncatedMaximum`), not how the sliders are built.
- Computing the group and breed options from the table (app.py:42, 46). It
  is UI, and the filter does not depend on it.
