/**
  `df.drop_duplicates()` with pandas' defaults: a row identical in every
  column to an earlier row is dropped (`keep='first'`), implemented as pandas
  does it, `df[~df.duplicated()]`. Missing cells compare equal to each other
  here, as they do in `duplicated`.
 */
module Dedup {
  import opened Seqs

  /** `duplicated(keep='first')`: marks each entry that has an identical entry before it. */
  function Duplicated<T(==)>(s: seq<T>): (d: seq<bool>)
    ensures |d| == |s|
  {
    seq(|s|, i requires 0 <= i < |s| => s[i] in s[..i])
  }

  /** `~mask`. */
  function Not(m: seq<bool>): (r: seq<bool>)
    ensures |r| == |m|
  {
    seq(|m|, i requires 0 <= i < |m| => !m[i])
  }

  function DropDuplicates<T(==)>(s: seq<T>): seq<T>
  {
    Mask(s, Not(Duplicated(s)))
  }

  /**
    The rows kept are exactly the first occurrences, at increasing positions
    of the input: order is preserved and each kept row stands where it
    first appeared.
   */
  lemma KeepsFirstOccurrences<T>(s: seq<T>)
    ensures var idx, r := MaskIndices(Not(Duplicated(s))), DropDuplicates(s);
      |r| == |idx| &&
      (forall k :: 0 <= k < |idx| ==> idx[k] < |s| && r[k] == s[idx[k]]) &&
      (forall k1, k2 :: 0 <= k1 < k2 < |idx| ==> idx[k1] < idx[k2]) &&
      (forall i :: 0 <= i < |s| ==> (i in idx <==> s[i] !in s[..i]))
  {
    var m := Not(Duplicated(s));
    MaskAt(s, m);
  }

  /** No two rows of the result are identical. */
  lemma Distinct<T>(s: seq<T>)
    ensures var r := DropDuplicates(s);
      forall k1, k2 :: 0 <= k1 < k2 < |r| ==> r[k1] != r[k2]
  {
    var r, idx := DropDuplicates(s), MaskIndices(Not(Duplicated(s)));
    KeepsFirstOccurrences(s);
    forall k1, k2 | 0 <= k1 < k2 < |r| ensures r[k1] != r[k2] {
      var i1, i2 := idx[k1], idx[k2];
      assert i2 in idx;
      assert s[i1] == s[..i2][i1];
    }
  }

  /** Every distinct input row is kept, and nothing else appears. */
  lemma SameRows<T>(s: seq<T>)
    ensures forall x :: x in DropDuplicates(s) <==> x in s
  {
    var r, idx := DropDuplicates(s), MaskIndices(Not(Duplicated(s)));
    KeepsFirstOccurrences(s);
    forall x ensures x in r <==> x in s {
      if x in s {
        var i := FirstIndex(s, x);
        var k :| 0 <= k < |idx| && idx[k] == i;
        assert r[k] == x;
      }
      if x in r {
        var k :| 0 <= k < |r| && r[k] == x;
        assert s[idx[k]] == x;
      }
    }
  }

  /** Two identical rows become one; a later repeat is dropped and the first kept. */
  lemma Examples<T>(a: T, b: T)
    requires a != b
    ensures DropDuplicates([a, a]) == [a]
    ensures DropDuplicates([a, b, a]) == [a, b]
  {
    assert [a, a][..1] == [a];
    assert Duplicated([a, a]) == [false, true];
    assert Not([false, true]) == [true, false];
    assert [true, false][..1] == [true];
    assert Mask([a], [true]) == [a];
    assert Mask([a, a], [true, false]) == [a];
    assert [a, b, a][..1] == [a];
    assert [a, b, a][..2] == [a, b];
    assert Duplicated([a, b, a]) == [false, false, true];
    assert Not([false, false, true]) == [true, true, false];
    assert [true, true, false][..2] == [true, true];
    assert [true, true][..1] == [true];
    assert Mask([a, b], [true, true]) == [a, b];
    assert Mask([a, b, a], [true, true, false]) == [a, b];
  }
}
