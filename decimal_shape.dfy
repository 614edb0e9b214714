/**
  Exactly which texts the number syntax of `Decimal` accepts: optional
  surrounding whitespace, an optional sign, then digits with at most one
  decimal point and at least one digit in all.
 */
module DecimalShape {
  import opened Wrappers
  import opened Decimal

  /** `t` is digits, a '.' at position `k`, then digits. */
  predicate PointAt(t: string, k: int)
  {
    0 <= k < |t| && t[k] == '.' && AllDigits(t[..k]) && AllDigits(t[k + 1..])
  }

  /**
    The shape of an unsigned decimal: a run of digits, or digits, one point and
    digits; with at least one digit in all unless `any` says one was read before.
   */
  predicate UnsignedShape(t: string, any: bool)
  {
    (AllDigits(t) && (any || |t| > 0)) || (exists k :: 0 <= k < |t| && PointAt(t, k) && (any || |t| > 1))
  }

  /** The texts the model's number syntax accepts: optional whitespace, an optional sign, then an unsigned decimal. */
  predicate IsDecimalText(s: string)
  {
    var t := Trim(s);
    var signed := |t| > 0 && (t[0] == '+' || t[0] == '-');
    UnsignedShape(if signed then t[1..] else t, false)
  }

  /** The fractional scan accepts exactly a run of digits, given a digit somewhere. */
  lemma {:induction false} ScanFracAccepts(t: string, whole: nat, frac: nat, places: nat, any: bool)
    ensures ScanFrac(t, whole, frac, places, any).Some? <==> AllDigits(t) && (any || |t| > 0)
    decreases |t|
  {
    if |t| > 0 {
      assert AllDigits(t) <==> IsDigit(t[0]) && AllDigits(t[1..]) by {
        if IsDigit(t[0]) && AllDigits(t[1..]) {
          forall i | 0 <= i < |t| ensures IsDigit(t[i]) {
            if i > 0 { assert t[i] == t[1..][i - 1]; }
          }
        }
      }
      if IsDigit(t[0]) {
        ScanFracAccepts(t[1..], whole, 10 * frac + Digit(t[0]), places + 1, true);
      }
    }
  }

  /** A '.' at position `k + 1` of `t` is a '.' at position `k` of `t[1..]`, when `t` starts with a digit. */
  lemma PointShift(t: string, k: int)
    requires |t| > 0 && IsDigit(t[0])
    ensures PointAt(t, k + 1) <==> PointAt(t[1..], k)
  {
    if 0 <= k < |t| - 1 {
      var u := t[1..];
      assert u[k] == t[k + 1];
      assert u[k + 1..] == t[k + 2..];
      assert t[..k + 1] == [t[0]] + u[..k];
      var p, q := t[..k + 1], u[..k];
      if AllDigits(p) {
        forall i | 0 <= i < |q| ensures IsDigit(q[i]) {
          assert q[i] == p[i + 1];
        }
      }
      if AllDigits(q) {
        forall i | 0 <= i < |p| ensures IsDigit(p[i]) {
          if i > 0 { assert p[i] == q[i - 1]; }
        }
      }
    }
  }

  /** A point anywhere but at the front comes after a digit. */
  lemma PointAfterDigit(t: string, k: int)
    requires PointAt(t, k)
    ensures k == 0 || IsDigit(t[0])
  {
    if k > 0 {
      assert t[..k][0] == t[0];
    }
  }

  /** The whole-part scan accepts exactly the texts of the unsigned shape. */
  lemma {:induction false} ScanWholeAccepts(t: string, acc: nat, any: bool)
    ensures ScanWhole(t, acc, any).Some? <==> UnsignedShape(t, any)
    decreases |t|
  {
    if |t| == 0 {
      assert !exists k :: PointAt(t, k);
    } else if IsDigit(t[0]) {
      var u := t[1..];
      ScanWholeAccepts(u, 10 * acc + Digit(t[0]), true);
      assert AllDigits(t) <==> AllDigits(u) by {
        if AllDigits(u) {
          forall i | 0 <= i < |t| ensures IsDigit(t[i]) {
            if i > 0 { assert t[i] == u[i - 1]; }
          }
        }
      }
      if exists k :: PointAt(t, k) {
        var k :| PointAt(t, k);
        assert t[k] == '.';
        PointShift(t, k - 1);
        assert PointAt(u, k - 1);
      }
      if exists k :: PointAt(u, k) {
        var k :| PointAt(u, k);
        PointShift(t, k);
        assert PointAt(t, k + 1) && |t| > 1;
      }
    } else if t[0] == '.' {
      ScanFracAccepts(t[1..], acc, 0, 0, any);
      if exists k :: PointAt(t, k) {
        var k :| PointAt(t, k);
        PointAfterDigit(t, k);
      }
      if AllDigits(t[1..]) {
        assert t[..0] == [] && t[0 + 1..] == t[1..];
        assert PointAt(t, 0);
      }
    } else {
      if exists k :: PointAt(t, k) {
        var k :| PointAt(t, k);
        PointAfterDigit(t, k);
      }
    }
  }

  /** `ParseDecimal` accepts exactly the texts of `IsDecimalText`: whitespace, an optional sign and an unsigned decimal. */
  lemma ParseDecimalAccepts(s: string)
    ensures ParseDecimal(s).Some? <==> IsDecimalText(s)
  {
    var t := Trim(s);
    var signed := |t| > 0 && (t[0] == '+' || t[0] == '-');
    ScanWholeAccepts(if signed then t[1..] else t, 0, false);
  }

  /** Two points are one too many: "1.2.3" has the characters of a number but not its shape. */
  lemma TwoPointsRejected()
    ensures !IsDecimalText("1.2.3")
  {
    ParseDecimalAccepts("1.2.3");
    assert ParseDecimal("1.2.3") == None;
  }
}
