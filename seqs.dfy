/**
  Sequence operations under pandas' row selection: boolean indexing
  (`df[mask]`), masks computed from a row predicate, and the first position
  of a value.
 */
module Seqs {

  /** The position of the first `x` in `s`. */
  function FirstIndex<T(==)>(s: seq<T>, x: T): (k: nat)
    requires x in s
    ensures k < |s| && s[k] == x && x !in s[..k]
  {
    if s[0] == x then 0
    else
      assert x in s[1..] by { assert s == [s[0]] + s[1..]; }
      var k := FirstIndex(s[1..], x);
      assert s[..k + 1] == [s[0]] + s[1..][..k];
      k + 1
  }

  /** `s[m]` for a boolean mask `m` as long as `s`: the entries where `m` is true, in order. */
  function Mask<T>(s: seq<T>, m: seq<bool>): (r: seq<T>)
    requires |m| == |s|
    ensures |r| <= |s|
  {
    if |s| == 0 then []
    else Mask(s[..|s| - 1], m[..|m| - 1]) + (if m[|m| - 1] then [s[|s| - 1]] else [])
  }

  /** The positions where `m` is true, in increasing order. */
  function MaskIndices(m: seq<bool>): (idx: seq<nat>)
    ensures forall k :: 0 <= k < |idx| ==> idx[k] < |m| && m[idx[k]]
    ensures forall k1, k2 :: 0 <= k1 < k2 < |idx| ==> idx[k1] < idx[k2]
    ensures forall i :: 0 <= i < |m| && m[i] ==> i in idx
  {
    if |m| == 0 then []
    else
      var init := MaskIndices(m[..|m| - 1]);
      init + (if m[|m| - 1] then [|m| - 1] else [])
  }

  /** Boolean indexing keeps exactly the positions the mask selects, in their original order. */
  lemma {:induction false} MaskAt<T>(s: seq<T>, m: seq<bool>)
    requires |m| == |s|
    ensures |Mask(s, m)| == |MaskIndices(m)|
    ensures forall k :: 0 <= k < |Mask(s, m)| ==> Mask(s, m)[k] == s[MaskIndices(m)[k]]
  {
    if |s| > 0 {
      var s', m' := s[..|s| - 1], m[..|m| - 1];
      MaskAt(s', m');
      forall k | 0 <= k < |MaskIndices(m')| ensures MaskIndices(m')[k] < |s'| {
      }
    }
  }

  /** An entry is kept by boolean indexing exactly when it stands at a selected position. */
  lemma MaskMember<T>(s: seq<T>, m: seq<bool>, x: T)
    requires |m| == |s|
    ensures x in Mask(s, m) <==> exists i :: 0 <= i < |s| && m[i] && s[i] == x
  {
    MaskAt(s, m);
    var r, idx := Mask(s, m), MaskIndices(m);
    if x in r {
      var k :| 0 <= k < |r| && r[k] == x;
      assert m[idx[k]] && s[idx[k]] == x;
    }
    if i :| 0 <= i < |s| && m[i] && s[i] == x {
      var k :| 0 <= k < |idx| && idx[k] == i;
      assert r[k] == x;
    }
  }

  /** The mask that tests `p` on every entry of `s`, as `p(df)` does on a column. */
  function MaskOf<T>(s: seq<T>, p: T -> bool): (m: seq<bool>)
    ensures |m| == |s|
    ensures forall i :: 0 <= i < |s| ==> m[i] == p(s[i])
  {
    seq(|s|, i requires 0 <= i < |s| => p(s[i]))
  }

  /** The entries of `s` that satisfy `p`, in order: `df[p(df)]`. */
  function Where<T>(s: seq<T>, p: T -> bool): seq<T>
  {
    Mask(s, MaskOf(s, p))
  }

  lemma {:induction false} WhereSnoc<T>(s: seq<T>, x: T, p: T -> bool)
    ensures Where(s + [x], p) == Where(s, p) + (if p(x) then [x] else [])
  {
    var t := s + [x];
    assert t[..|t| - 1] == s;
    assert MaskOf(t, p)[..|t| - 1] == MaskOf(s, p);
  }

  /**
    Selection is an order-preserving subsequence: the kept entries are those
    at the increasing positions where `p` holds, and no others.
   */
  lemma WhereIndices<T>(s: seq<T>, p: T -> bool)
    ensures var idx := MaskIndices(MaskOf(s, p));
      |Where(s, p)| == |idx| <= |s| &&
      (forall k :: 0 <= k < |idx| ==> idx[k] < |s| && Where(s, p)[k] == s[idx[k]] && p(s[idx[k]])) &&
      (forall k1, k2 :: 0 <= k1 < k2 < |idx| ==> idx[k1] < idx[k2]) &&
      (forall i :: 0 <= i < |s| && p(s[i]) ==> i in idx)
  {
    MaskAt(s, MaskOf(s, p));
  }

  /** An entry survives selection exactly when it was there and satisfies `p`. */
  lemma WhereMember<T>(s: seq<T>, p: T -> bool, x: T)
    ensures x in Where(s, p) <==> x in s && p(x)
  {
    MaskMember(s, MaskOf(s, p), x);
  }

  /** Selections on predicates that agree on every entry give the same rows. */
  lemma {:induction false} WhereCongruent<T>(s: seq<T>, p: T -> bool, q: T -> bool)
    requires forall i :: 0 <= i < |s| ==> p(s[i]) == q(s[i])
    ensures Where(s, p) == Where(s, q)
  {
    if |s| > 0 {
      var s' := s[..|s| - 1];
      WhereCongruent(s', p, q);
      WhereSnoc(s', s[|s| - 1], p);
      WhereSnoc(s', s[|s| - 1], q);
      assert s' + [s[|s| - 1]] == s;
    }
  }

  /** The conjunction of two row predicates, as `&` combines two masks. */
  function And<T>(p: T -> bool, q: T -> bool): T -> bool
  {
    x => p(x) && q(x)
  }

  /** Refining a selection by a second predicate is selecting by both at once. */
  lemma {:induction false} WhereWhere<T>(s: seq<T>, p: T -> bool, q: T -> bool)
    ensures Where(Where(s, p), q) == Where(s, And(p, q))
  {
    if |s| > 0 {
      var s', x := s[..|s| - 1], s[|s| - 1];
      assert s' + [x] == s;
      WhereWhere(s', p, q);
      WhereSnoc(s', x, p);
      WhereSnoc(s', x, And(p, q));
      assert And(p, q)(x) == (p(x) && q(x));
      if p(x) {
        assert Where(s, p) == Where(s', p) + [x];
        WhereSnoc(Where(s', p), x, q);
      } else {
        assert Where(s, p) == Where(s', p);
        assert Where(s, And(p, q)) == Where(s', And(p, q));
      }
    }
  }
}
