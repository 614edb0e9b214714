/**
  The slice of a pandas data frame the pipeline uses: the cells of an
  object-typed column, the rows of the dog-breed table and whole-column
  reassignment. Selecting rows by a mask is in module Seqs.
 */
module Frame {

  /** One cell of an object column: a string, a float, or the missing marker NaN. */
  datatype Cell = Str(s: string) | Num(x: real) | NaN

  /** The columns the pipeline reads or rewrites. */
  datatype Column = Breed | BreedGroup | Height | Weight | LifeExpectancy

  /**
    One row of the table; `others` holds the cells of every further column of
    the input file, which the pipeline carries along unchanged.
   */
  datatype Row = Row(breed: Cell, group: Cell, height: Cell, weight: Cell, life: Cell, others: seq<Cell>)
  {
    function Get(col: Column): Cell
    {
      match col
      case Breed => breed
      case BreedGroup => group
      case Height => height
      case Weight => weight
      case LifeExpectancy => life
    }

    /** The row with the cell of `col` replaced by `v`. */
    function With(col: Column, v: Cell): (r: Row)
      ensures r.Get(col) == v
      ensures forall c :: c != col ==> r.Get(c) == Get(c)
      ensures r.others == others
    {
      match col
      case Breed => this.(breed := v)
      case BreedGroup => this.(group := v)
      case Height => this.(height := v)
      case Weight => this.(weight := v)
      case LifeExpectancy => this.(life := v)
    }
  }

  /** Two rows that agree on every named column and on the other columns are the same row. */
  lemma RowsEqual(a: Row, b: Row)
    requires forall c :: a.Get(c) == b.Get(c)
    requires a.others == b.others
    ensures a == b
  {
    assert a.Get(Breed) == b.Get(Breed) && a.Get(BreedGroup) == b.Get(BreedGroup);
    assert a.Get(Height) == b.Get(Height) && a.Get(Weight) == b.Get(Weight);
    assert a.Get(LifeExpectancy) == b.Get(LifeExpectancy);
  }

  /**
    `df[col] = f(df[col])`: every row gets `f` of its own cell in `col`; the
    number of rows, their order and every other column stay as they were.
   */
  function MapColumn(df: seq<Row>, col: Column, f: Cell -> Cell): (r: seq<Row>)
    ensures |r| == |df|
    ensures forall i :: 0 <= i < |df| ==> r[i].Get(col) == f(df[i].Get(col))
    ensures forall i, c :: 0 <= i < |df| && c != col ==> r[i].Get(c) == df[i].Get(c)
    ensures forall i :: 0 <= i < |df| ==> r[i].others == df[i].others
  {
    seq(|df|, i requires 0 <= i < |df| => df[i].With(col, f(df[i].Get(col))))
  }
}
