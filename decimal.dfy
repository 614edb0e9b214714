/**
  The number syntax that `extract_avg` hands each range token to (Python's
  `float(token)`), restricted to plain decimals: surrounding whitespace is
  ignored, then an optional sign, then digits with at most one decimal
  point, at least one digit in all. Values are exact reals.
 */
module Decimal {
  import opened Wrappers

  predicate IsDigit(c: char) { '0' <= c <= '9' }

  predicate AllDigits(s: string)
  {
    forall i :: 0 <= i < |s| ==> IsDigit(s[i])
  }

  /** The whitespace the model's number syntax strips from both ends of a number. */
  predicate IsSpace(c: char)
  {
    c == ' ' || c == '\t' || c == '\n' || c == '\r' || c == '\U{B}' || c == '\U{C}'
  }

  /** Characters that can appear in a text `ParseDecimal` accepts. */
  predicate IsNumeral(c: char)
  {
    IsDigit(c) || c == '.' || c == '+' || c == '-' || IsSpace(c)
  }

  function Digit(c: char): (d: nat)
    requires IsDigit(c)
    ensures d < 10
  {
    c as int - '0' as int
  }

  /** The value of the digits `s` written after digits worth `acc`: each digit moves the value one place left. */
  function DigitsFrom(acc: nat, s: string): nat
    requires AllDigits(s)
    decreases |s|
  {
    if |s| == 0 then acc else DigitsFrom(10 * acc + Digit(s[0]), s[1..])
  }

  /** The value of a string of decimal digits, most significant first. */
  function DigitsValue(s: string): nat
    requires AllDigits(s)
  {
    DigitsFrom(0, s)
  }

  /** Drops leading whitespace. */
  function TrimStart(s: string): (r: string)
    ensures |r| <= |s|
  {
    if |s| > 0 && IsSpace(s[0]) then TrimStart(s[1..]) else s
  }

  /** Drops trailing whitespace. */
  function TrimEnd(s: string): (r: string)
    ensures |r| <= |s|
  {
    if |s| > 0 && IsSpace(s[|s| - 1]) then TrimEnd(s[..|s| - 1]) else s
  }

  function Trim(s: string): string
  {
    TrimEnd(TrimStart(s))
  }

  /** `x / 10^places`, one decimal place at a time. */
  function Shift(x: real, places: nat): (v: real)
    ensures x >= 0.0 ==> v >= 0.0
  {
    if places == 0 then x else Shift(x, places - 1) / 10.0
  }

  /**
    Reads the whole part of an unsigned decimal from the left: `acc` is the
    value of the digits read so far and `any` says whether there was one.
    A '.' passes on to the fractional part; any other character rejects.
   */
  function ScanWhole(t: string, acc: nat, any: bool): (r: Option<real>)
    ensures r.Some? ==> r.value >= 0.0
    decreases |t|
  {
    if |t| == 0 then (if any then Some(acc as real) else None)
    else if IsDigit(t[0]) then ScanWhole(t[1..], 10 * acc + Digit(t[0]), true)
    else if t[0] == '.' then ScanFrac(t[1..], acc, 0, 0, any)
    else None
  }

  /**
    Reads the fractional part: `frac` is the value of its `places` digits read
    so far. A second '.' or any other non-digit rejects.
   */
  function ScanFrac(t: string, whole: nat, frac: nat, places: nat, any: bool): (r: Option<real>)
    ensures r.Some? ==> r.value >= 0.0
    decreases |t|
  {
    if |t| == 0 then (if any then Some(whole as real + Shift(frac as real, places)) else None)
    else if IsDigit(t[0]) then ScanFrac(t[1..], whole, 10 * frac + Digit(t[0]), places + 1, true)
    else None
  }

  /** An unsigned decimal: digits with at most one '.', and at least one digit. */
  function ParseUnsigned(t: string): Option<real>
  {
    ScanWhole(t, 0, false)
  }

  /** `float(s)` on plain decimal text; `None` where `float` raises `ValueError`. */
  function ParseDecimal(s: string): Option<real>
  {
    var t := Trim(s);
    var signed := |t| > 0 && (t[0] == '+' || t[0] == '-');
    WithSign(signed && t[0] == '-', ParseUnsigned(if signed then t[1..] else t))
  }

  /** The value, negated after a minus sign. */
  function WithSign(negative: bool, r: Option<real>): Option<real>
  {
    if r.None? then None else if negative then Some(-r.value) else r
  }

  /** The decimal digits of `n`, as `str(n)` writes them. */
  function NatToString(n: nat): (s: string)
    ensures |s| > 0 && AllDigits(s)
  {
    var d := ['0' + (n % 10) as char];
    if n < 10 then d else NatToString(n / 10) + d
  }

  /** Appending a digit multiplies the value so far by ten and adds the digit. */
  lemma {:induction false} DigitsAppend(acc: nat, s: string, c: char)
    requires AllDigits(s) && IsDigit(c)
    ensures AllDigits(s + [c])
    ensures DigitsFrom(acc, s + [c]) == 10 * DigitsFrom(acc, s) + Digit(c)
    decreases |s|
  {
    assert forall i :: 0 <= i < |s| ==> (s + [c])[i] == s[i];
    if |s| > 0 {
      assert (s + [c])[1..] == s[1..] + [c];
      DigitsAppend(10 * acc + Digit(s[0]), s[1..], c);
    }
  }

  lemma {:induction false} NatToStringValue(n: nat)
    ensures DigitsValue(NatToString(n)) == n
  {
    var d := ['0' + (n % 10) as char];
    if n < 10 {
      assert DigitsValue(d) == DigitsFrom(n % 10, d[1..]);
    } else {
      NatToStringValue(n / 10);
      DigitsAppend(0, NatToString(n / 10), d[0]);
    }
  }

  /** Scanning the whole part of a run of digits gives the value of those digits. */
  lemma {:induction false} ScanWholeDigits(t: string, acc: nat, any: bool)
    requires AllDigits(t)
    ensures ScanWhole(t, acc, any) == if any || |t| > 0 then Some(DigitsFrom(acc, t) as real) else None
    decreases |t|
  {
    if |t| > 0 {
      ScanWholeDigits(t[1..], 10 * acc + Digit(t[0]), true);
    }
  }

  /** Scanning a fractional part of digits shifts their value right by the number of places read. */
  lemma {:induction false} ScanFracDigits(t: string, whole: nat, frac: nat, places: nat, any: bool)
    requires AllDigits(t)
    ensures ScanFrac(t, whole, frac, places, any) ==
      if any || |t| > 0 then Some(whole as real + Shift(DigitsFrom(frac, t) as real, places + |t|)) else None
    decreases |t|
  {
    if |t| > 0 {
      ScanFracDigits(t[1..], whole, 10 * frac + Digit(t[0]), places + 1, true);
    }
  }

  /** The digits before the point make up the whole part the fractional scan starts from. */
  lemma {:induction false} ScanWholePoint(a: string, b: string, acc: nat, any: bool)
    requires AllDigits(a)
    ensures ScanWhole(a + ['.'] + b, acc, any) == ScanFrac(b, DigitsFrom(acc, a), 0, 0, any || |a| > 0)
    decreases |a|
  {
    var t := a + ['.'] + b;
    if |a| == 0 {
      assert t[0] == '.' && t[1..] == b;
    } else {
      assert t[0] == a[0] && t[1..] == a[1..] + ['.'] + b;
      ScanWholePoint(a[1..], b, 10 * acc + Digit(a[0]), true);
    }
  }

  /** A text that neither starts nor ends with whitespace, and has no sign, is read as an unsigned decimal. */
  lemma UnsignedText(s: string)
    requires |s| > 0 && !IsSpace(s[0]) && !IsSpace(s[|s| - 1])
    requires s[0] != '+' && s[0] != '-'
    ensures ParseDecimal(s) == ParseUnsigned(s)
  {
    assert TrimStart(s) == s;
    assert TrimEnd(s) == s;
  }

  /** A non-empty run of digits parses to its value. */
  lemma DigitsParse(s: string)
    requires |s| > 0 && AllDigits(s)
    ensures ParseDecimal(s) == Some(DigitsValue(s) as real)
  {
    assert IsDigit(s[0]) && IsDigit(s[|s| - 1]);
    UnsignedText(s);
    ScanWholeDigits(s, 0, false);
  }

  /** A sign before a non-empty run of digits is read as that sign: "+22" is 22 and "-22" is -22. */
  lemma SignedDigitsParse(sign: char, t: string)
    requires sign == '+' || sign == '-'
    requires |t| > 0 && AllDigits(t)
    ensures ParseDecimal([sign] + t) == Some(if sign == '-' then -(DigitsValue(t) as real) else DigitsValue(t) as real)
  {
    var s := [sign] + t;
    assert s[|s| - 1] == t[|t| - 1] && IsDigit(t[|t| - 1]);
    assert TrimStart(s) == s;
    assert TrimEnd(s) == s;
    assert s[1..] == t;
    ScanWholeDigits(t, 0, false);
  }

  /** `whole.frac`, with at least one digit on either side of the point, parses to `whole + frac / 10^|frac|`. */
  lemma PointParse(whole: string, frac: string)
    requires AllDigits(whole) && AllDigits(frac) && |whole| + |frac| > 0
    ensures ParseDecimal(whole + "." + frac) == Some(DigitsValue(whole) as real + Shift(DigitsValue(frac) as real, |frac|))
  {
    var s := whole + ['.'] + frac;
    PointEnds(whole, frac);
    UnsignedText(s);
    PointUnsigned(whole, frac);
    assert whole + "." + frac == s;
  }

  lemma PointEnds(whole: string, frac: string)
    requires AllDigits(whole) && AllDigits(frac)
    ensures var s := whole + ['.'] + frac;
      !IsSpace(s[0]) && s[0] != '+' && s[0] != '-' && !IsSpace(s[|s| - 1])
  {
    var s := whole + ['.'] + frac;
    if |whole| > 0 { assert s[0] == whole[0]; } else { assert s[0] == '.'; }
    if |frac| > 0 { assert s[|s| - 1] == frac[|frac| - 1]; } else { assert s[|s| - 1] == '.'; }
  }

  lemma PointUnsigned(whole: string, frac: string)
    requires AllDigits(whole) && AllDigits(frac) && |whole| + |frac| > 0
    ensures ParseUnsigned(whole + ['.'] + frac) == Some(DigitsValue(whole) as real + Shift(DigitsValue(frac) as real, |frac|))
  {
    PointScan(whole, frac);
    FracValue(frac, DigitsValue(whole), |whole| > 0);
  }

  /** The unsigned reading of `whole.frac` is the fractional scan started from the value of `whole`. */
  lemma PointScan(whole: string, frac: string)
    requires AllDigits(whole)
    ensures ParseUnsigned(whole + ['.'] + frac) == ScanFrac(frac, DigitsValue(whole), 0, 0, |whole| > 0)
  {
    ScanWholePoint(whole, frac, 0, false);
  }

  /** The fractional scan of a run of digits, from its start, adds their value shifted by their count. */
  lemma FracValue(frac: string, whole: nat, any: bool)
    requires AllDigits(frac) && (any || |frac| > 0)
    ensures ScanFrac(frac, whole, 0, 0, any) == Some(whole as real + Shift(DigitsValue(frac) as real, |frac|))
  {
    ScanFracDigits(frac, whole, 0, 0, any);
  }

  /** Round trip: the text of a natural number parses back to that number. */
  lemma NatToStringParses(n: nat)
    ensures ParseDecimal(NatToString(n)) == Some(n as real)
  {
    NatToStringValue(n);
    DigitsParse(NatToString(n));
  }

  /** What `TrimStart` drops is whitespace, and what it keeps is a suffix not starting with whitespace. */
  lemma {:induction false} TrimStartSlice(s: string)
    ensures |TrimStart(s)| <= |s| && TrimStart(s) == s[|s| - |TrimStart(s)|..]
    ensures forall j :: 0 <= j < |s| - |TrimStart(s)| ==> IsSpace(s[j])
    ensures |TrimStart(s)| > 0 ==> !IsSpace(TrimStart(s)[0])
  {
    if |s| > 0 && IsSpace(s[0]) {
      var u := s[1..];
      TrimStartSlice(u);
      assert TrimStart(s) == TrimStart(u);
      assert u[|u| - |TrimStart(u)|..] == s[|s| - |TrimStart(s)|..];
      forall j | 1 <= j < |s| - |TrimStart(s)| ensures IsSpace(s[j]) {
        assert s[j] == u[j - 1];
      }
    }
  }

  /** What `TrimEnd` drops is whitespace, and what it keeps is a prefix not ending with whitespace. */
  lemma {:induction false} TrimEndSlice(s: string)
    ensures |TrimEnd(s)| <= |s| && TrimEnd(s) == s[..|TrimEnd(s)|]
    ensures forall j :: |TrimEnd(s)| <= j < |s| ==> IsSpace(s[j])
    ensures |TrimEnd(s)| > 0 ==> !IsSpace(TrimEnd(s)[|TrimEnd(s)| - 1])
  {
    if |s| > 0 && IsSpace(s[|s| - 1]) {
      var u := s[..|s| - 1];
      TrimEndSlice(u);
      forall j | |TrimEnd(s)| <= j < |s| - 1 ensures IsSpace(s[j]) {
        assert s[j] == u[j];
      }
    }
  }

  /** `Trim(s)` is the slice of `s` starting at `TrimOffset(s)`; everything around it is whitespace. */
  function TrimOffset(s: string): nat
  {
    |s| - |TrimStart(s)|
  }

  lemma TrimSlice(s: string)
    ensures TrimOffset(s) + |Trim(s)| <= |s|
    ensures Trim(s) == s[TrimOffset(s)..TrimOffset(s) + |Trim(s)|]
    ensures forall i :: 0 <= i < |s| && !(TrimOffset(s) <= i < TrimOffset(s) + |Trim(s)|) ==> IsSpace(s[i])
  {
    var u := TrimStart(s);
    var t := TrimEnd(u);
    var p := TrimOffset(s);
    TrimStartSlice(s);
    TrimEndSlice(u);
    forall i | 0 <= i < |s| && !(p <= i < p + |t|) ensures IsSpace(s[i]) {
      if i >= p {
        assert s[i] == u[i - p];
      }
    }
  }

  /** Trimming twice is trimming once. */
  lemma TrimIdempotent(s: string)
    ensures Trim(Trim(s)) == Trim(s)
  {
    var u := TrimStart(s);
    var t := TrimEnd(u);
    TrimStartSlice(s);
    TrimEndSlice(u);
    if |t| > 0 {
      assert t[0] == u[0];
      assert TrimStart(t) == t;
      assert TrimEnd(t) == t;
    }
  }

  /** Surrounding whitespace never changes the value. */
  lemma ParseTrimmed(s: string)
    ensures ParseDecimal(Trim(s)) == ParseDecimal(s)
  {
    TrimIdempotent(s);
  }

  /** Every character the whole-part scan accepts is a digit or a point; without an earlier digit, one of them is a digit. */
  lemma {:induction false} ScanWholeChars(t: string, acc: nat, any: bool)
    requires ScanWhole(t, acc, any).Some?
    ensures forall j :: 0 <= j < |t| ==> IsDigit(t[j]) || t[j] == '.'
    ensures any || exists j :: 0 <= j < |t| && IsDigit(t[j])
    decreases |t|
  {
    if |t| > 0 {
      if IsDigit(t[0]) {
        ScanWholeChars(t[1..], 10 * acc + Digit(t[0]), true);
      } else {
        ScanFracChars(t[1..], acc, 0, 0, any);
        if !any {
          var j :| 0 <= j < |t[1..]| && IsDigit(t[1..][j]);
          assert IsDigit(t[j + 1]);
        }
      }
      forall j | 1 <= j < |t| ensures IsDigit(t[j]) || t[j] == '.' {
        assert t[j] == t[1..][j - 1];
      }
    }
  }

  /** Every character the fractional scan accepts is a digit; without an earlier digit, there is one. */
  lemma {:induction false} ScanFracChars(t: string, whole: nat, frac: nat, places: nat, any: bool)
    requires ScanFrac(t, whole, frac, places, any).Some?
    ensures AllDigits(t)
    ensures any || exists j :: 0 <= j < |t| && IsDigit(t[j])
    decreases |t|
  {
    if |t| > 0 {
      ScanFracChars(t[1..], whole, 10 * frac + Digit(t[0]), places + 1, true);
      forall j | 1 <= j < |t| ensures IsDigit(t[j]) {
        assert t[j] == t[1..][j - 1];
      }
    }
  }

  /** The trimmed text of an accepted value: a sign, digits and points only, and at least one digit. */
  lemma TrimmedChars(t: string)
    requires ParseDecimal(t).Some? && Trim(t) == t
    ensures forall j :: 0 <= j < |t| ==> IsNumeral(t[j])
    ensures exists j :: 0 <= j < |t| && IsDigit(t[j])
  {
    if |t| > 0 && (t[0] == '+' || t[0] == '-') {
      var body := t[1..];
      ScanWholeChars(body, 0, false);
      forall j | 1 <= j < |t| ensures IsNumeral(t[j]) {
        assert t[j] == body[j - 1];
      }
      var j :| 0 <= j < |body| && IsDigit(body[j]);
      assert t[j + 1] == body[j];
    } else {
      ScanWholeChars(t, 0, false);
    }
  }

  /**
    A text that parses is made only of whitespace, signs, digits and points,
    and contains a digit; so an empty token, or one with any other character
    (a letter, a slash), is rejected.
   */
  lemma ParsedChars(s: string)
    requires ParseDecimal(s).Some?
    ensures forall i :: 0 <= i < |s| ==> IsNumeral(s[i])
    ensures exists i :: 0 <= i < |s| && IsDigit(s[i])
  {
    var t := Trim(s);
    var p := TrimOffset(s);
    TrimSlice(s);
    ParseTrimmed(s);
    TrimIdempotent(s);
    TrimmedChars(t);
    forall i | p <= i < p + |t| ensures IsNumeral(s[i]) {
      assert s[i] == t[i - p];
    }
    var j :| 0 <= j < |t| && IsDigit(t[j]);
    assert s[p + j] == t[j];
  }

  /** Contrapositive of `ParsedChars`, for one offending character. */
  lemma ParsedCharsNone(s: string, i: nat)
    requires i < |s| && !IsNumeral(s[i])
    ensures ParseDecimal(s) == None
  {
    if ParseDecimal(s).Some? {
      ParsedChars(s);
    }
  }

  /** Without a minus sign in the text, an accepted value is never negative. */
  lemma ParsedNonNegative(s: string)
    requires '-' !in s && ParseDecimal(s).Some?
    ensures ParseDecimal(s).value >= 0.0
  {
    var t := Trim(s);
    TrimSlice(s);
    if |t| > 0 {
      assert t[0] == s[TrimOffset(s)];
    }
  }

  /** Whole numbers, with or without a sign. */
  lemma ExampleWhole()
    ensures ParseDecimal("22") == Some(22.0)
    ensures ParseDecimal("-7") == Some(-7.0)
  {
  }

  /** Whitespace around the number is ignored, and "2.5" is two and a half. */
  lemma ExamplePadded()
    ensures ParseDecimal(" 2.5\n") == Some(2.5)
  {
    assert TrimStart(" 2.5\n") == "2.5\n";
    assert TrimEnd("2.5\n") == "2.5";
    ParseTrimmed(" 2.5\n");
    PointParse("2", "5");
    assert "2" + "." + "5" == "2.5";
  }

  /** No digit, a second point, or a letter: not a number. */
  lemma ExampleRejected()
    ensures ParseDecimal("") == None
    ensures ParseDecimal(".") == None
    ensures ParseDecimal("1.2.3") == None
    ensures ParseDecimal("N/A") == None
  {
    ParsedCharsNone("N/A", 0);
  }
}
