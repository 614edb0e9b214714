/**
  The sidebar filter of the dashboard (app.py, "Apply Filters"): a row is
  kept when its three measurements lie within the slider bounds, then the
  selection is narrowed to one breed group unless "All" is chosen, then to
  the chosen breeds when any are chosen. The widgets themselves are not
  modelled; their values are the fields of a `Selection`.
 */
module Filters {
  import opened Seqs
  import opened Frame

  /** The two integer ends of a range slider, both included. */
  datatype Bounds = Bounds(lo: int, hi: int)

  /** Everything the sidebar hands to the filter. */
  datatype Selection = Selection(group: string, height: Bounds, weight: Bounds, life: Bounds, breeds: seq<string>)

  /**
    `(col >= lo) & (col <= hi)` on one cell: true only for a number within
    bounds, since every comparison with NaN is false.
   */
  predicate Within(c: Cell, b: Bounds)
  {
    c.Num? && b.lo as real <= c.x <= b.hi as real
  }

  /** The mask of the first selection: all three measurements within their bounds. */
  predicate InRanges(sel: Selection, r: Row)
  {
    Within(r.height, sel.height) && Within(r.weight, sel.weight) && Within(r.life, sel.life)
  }

  /** `filtered_df["Breed Group"] == breed_group`. */
  predicate InGroup(group: string, r: Row)
  {
    r.group == Str(group)
  }

  /** `filtered_df["Breed"].isin(selected_breeds)`. */
  predicate InBreeds(breeds: seq<string>, r: Row)
  {
    r.breed.Str? && r.breed.s in breeds
  }

  /** Whether a row survives all three steps of the filter. */
  predicate Keep(sel: Selection, r: Row)
  {
    InRanges(sel, r) &&
    (sel.group == "All" || InGroup(sel.group, r)) &&
    (|sel.breeds| == 0 || InBreeds(sel.breeds, r))
  }

  function KeepFn(sel: Selection): Row -> bool
  {
    r => Keep(sel, r)
  }

  /** The rows the dashboard shows: those of `df` that `Keep` accepts, in their order. */
  function Filtered(df: seq<Row>, sel: Selection): seq<Row>
  {
    Where(df, KeepFn(sel))
  }

  /** The filter as the source writes it: a masked selection, then up to two refinements of `filtered_df`. */
  method ApplyFilters(df: seq<Row>, sel: Selection) returns (filtered: seq<Row>)
    ensures filtered == Filtered(df, sel)
  {
    var ranges: Row -> bool := r => InRanges(sel, r);
    filtered := Where(df, ranges);
    ghost var p := ranges;
    if sel.group != "All" {
      var group: Row -> bool := r => InGroup(sel.group, r);
      WhereWhere(df, p, group);
      filtered := Where(filtered, group);
      p := And(p, group);
    }
    assert forall r :: p(r) == (InRanges(sel, r) && (sel.group == "All" || InGroup(sel.group, r)));
    if |sel.breeds| > 0 {
      var breeds: Row -> bool := r => InBreeds(sel.breeds, r);
      WhereWhere(df, p, breeds);
      filtered := Where(filtered, breeds);
      p := And(p, breeds);
    }
    assert forall r :: p(r) == Keep(sel, r);
    WhereCongruent(df, p, KeepFn(sel));
  }

  /** The filtered rows are an order-preserving selection of the table: each stands at a later position than the one before. */
  lemma FilteredSubsequence(df: seq<Row>, sel: Selection)
    ensures var idx, f := MaskIndices(MaskOf(df, KeepFn(sel))), Filtered(df, sel);
      |f| == |idx| &&
      (forall k :: 0 <= k < |idx| ==> idx[k] < |df| && f[k] == df[idx[k]]) &&
      (forall k1, k2 :: 0 <= k1 < k2 < |idx| ==> idx[k1] < idx[k2]) &&
      (forall i :: 0 <= i < |df| && Keep(sel, df[i]) ==> i in idx)
  {
    WhereIndices(df, KeepFn(sel));
  }

  /** A row is shown exactly when it is in the table and passes every condition of the filter. */
  lemma FilteredMember(df: seq<Row>, sel: Selection, r: Row)
    ensures r in Filtered(df, sel) <==> r in df && Keep(sel, r)
  {
    WhereMember(df, KeepFn(sel), r);
  }

  /** A row with a missing or non-numeric measurement is never shown. */
  lemma FilteredHasMeasures(df: seq<Row>, sel: Selection, r: Row)
    requires r in Filtered(df, sel)
    ensures r.height.Num? && r.weight.Num? && r.life.Num?
    ensures sel.height.lo as real <= r.height.x <= sel.height.hi as real
    ensures sel.weight.lo as real <= r.weight.x <= sel.weight.hi as real
    ensures sel.life.lo as real <= r.life.x <= sel.life.hi as real
  {
    FilteredMember(df, sel, r);
  }

  /** "Filtered Breeds" never exceeds "Total Breeds". */
  lemma FilteredCount(df: seq<Row>, sel: Selection)
    ensures |Filtered(df, sel)| <= |df|
  {
    WhereIndices(df, KeepFn(sel));
  }

  /** With the group "All" and no breed chosen, only the slider bounds decide. */
  lemma OnlyBounds(df: seq<Row>, sel: Selection, r: Row)
    requires sel.group == "All" && |sel.breeds| == 0
    ensures r in Filtered(df, sel) <==> r in df && InRanges(sel, r)
  {
    FilteredMember(df, sel, r);
  }

  /** Choosing a group or breeds only ever removes rows from what the bounds alone would show. */
  lemma RefinementsNarrow(df: seq<Row>, sel: Selection, r: Row)
    requires r in Filtered(df, sel)
    ensures r in Filtered(df, sel.(group := "All", breeds := []))
  {
    FilteredMember(df, sel, r);
    FilteredMember(df, sel.(group := "All", breeds := []), r);
  }

  /** Python's `int(x)`: the integer part, truncated toward zero. */
  function Truncate(x: real): (n: int)
    ensures x >= 0.0 ==> n as real <= x < n as real + 1.0
    ensures x < 0.0 ==> n as real - 1.0 < x <= n as real
  {
    if x >= 0.0 then x.Floor else -((-x).Floor)
  }

  /**
    The default slider bounds are `int()` of the column's minimum and
    maximum. A row at a maximum with a fractional part, such as 25.5, lies
    above the truncated upper bound and is not shown; a whole maximum is.
   */
  lemma TruncatedMaximum(lo: real, hi: real)
    requires 0.0 <= lo <= hi
    ensures Within(Num(hi), Bounds(Truncate(lo), Truncate(hi))) <==> hi == hi.Floor as real
  {
  }

  /**
    Three rows with the same height and weight and life expectancies of
    11.5, NaN and 14.0; with the life expectancy bounds 12 to 15 only the
    last one is shown.
   */
  lemma FilterExample(a: Row, b: Row, c: Row)
    requires a.height == b.height == c.height == Num(20.0)
    requires a.weight == b.weight == c.weight == Num(50.0)
    requires a.life == Num(11.5) && b.life == NaN && c.life == Num(14.0)
    ensures Filtered([a, b, c], Selection("All", Bounds(10, 30), Bounds(40, 60), Bounds(12, 15), [])) == [c]
  {
    var sel := Selection("All", Bounds(10, 30), Bounds(40, 60), Bounds(12, 15), []);
    var p := KeepFn(sel);
    assert !p(a) && !p(b) && p(c);
    WhereSnoc([], a, p);
    assert [a] == [] + [a];
    WhereSnoc([a], b, p);
    assert [a, b] == [a] + [b];
    WhereSnoc([a, b], c, p);
    assert [a, b, c] == [a, b] + [c];
    assert Where([], p) == [] by { assert MaskOf([], p) == []; }
  }
}
