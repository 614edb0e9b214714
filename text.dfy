/**
  The two Python string operations the cleaning pipeline relies on:
  `s.replace(pat, "")` (every strip step, and the removal of spaces inside
  `extract_avg`) and `s.split(sep)` with a one-character separator.
 */
module Text {

  /** `pat` occurs in `s` starting at position `i`. */
  predicate OccursAt(s: string, pat: string, i: nat)
  {
    i + |pat| <= |s| && s[i..i + |pat|] == pat
  }

  predicate Occurs(s: string, pat: string)
  {
    exists i: nat | i <= |s| :: OccursAt(s, pat, i)
  }

  /** Number of occurrences of the character `c` in `s`. */
  function CountChar(s: string, c: char): nat
  {
    if |s| == 0 then 0 else (if s[0] == c then 1 else 0) + CountChar(s[1..], c)
  }

  /**
    `s.replace(pat, "")`: scanning from the left, every non-overlapping
    occurrence of `pat` is deleted; the scan resumes right after a deleted
    occurrence, so text joined by a deletion is not rescanned. An empty
    pattern leaves the string as it is.
   */
  function ReplaceAll(s: string, pat: string): (r: string)
    ensures |r| <= |s|
    decreases |s|
  {
    if |pat| == 0 || |s| < |pat| then s
    else if s[..|pat|] == pat then ReplaceAll(s[|pat|..], pat)
    else [s[0]] + ReplaceAll(s[1..], pat)
  }

  /** `sep.join(parts)`. */
  function Join(parts: seq<string>, sep: char): string
    requires |parts| > 0
  {
    if |parts| == 1 then parts[0] else parts[0] + [sep] + Join(parts[1..], sep)
  }

  /**
    `s.split(sep)` for a one-character separator: the pieces between
    separators, with empty pieces kept; there is one more piece than there
    are separators.
   */
  function Split(s: string, sep: char): (parts: seq<string>)
    ensures |parts| == CountChar(s, sep) + 1
    ensures forall k :: 0 <= k < |parts| ==> sep !in parts[k]
  {
    if |s| == 0 then [""]
    else
      var rest := Split(s[1..], sep);
      if s[0] == sep then [""] + rest
      else [[s[0]] + rest[0]] + rest[1..]
  }

  lemma {:induction false} CountCharConcat(a: string, b: string, c: char)
    ensures CountChar(a + b, c) == CountChar(a, c) + CountChar(b, c)
  {
    if |a| > 0 {
      assert (a + b)[1..] == a[1..] + b;
      CountCharConcat(a[1..], b, c);
    } else {
      assert a + b == b;
    }
  }

  lemma {:induction false} CountCharZero(s: string, c: char)
    ensures CountChar(s, c) == 0 <==> c !in s
  {
    if |s| > 0 {
      CountCharZero(s[1..], c);
      assert s == [s[0]] + s[1..];
    }
  }

  /** Python's `replace` is the identity when the pattern does not occur. */
  lemma {:induction false} ReplaceAllAbsent(s: string, pat: string)
    requires !Occurs(s, pat)
    ensures ReplaceAll(s, pat) == s
    decreases |s|
  {
    if |pat| == 0 || |s| < |pat| {
    } else {
      assert !OccursAt(s, pat, 0);
      assert s[0..|pat|] == s[..|pat|];
      forall i: nat ensures !OccursAt(s[1..], pat, i) {
        if OccursAt(s[1..], pat, i) {
          assert s[1..][i..i + |pat|] == s[i + 1..i + 1 + |pat|];
          assert OccursAt(s, pat, i + 1);
        }
      }
      ReplaceAllAbsent(s[1..], pat);
      assert s == [s[0]] + s[1..];
    }
  }

  /**
    A strip step shortens the string exactly when the pattern occurs in it
    (for a non-empty pattern); otherwise it gives back the same string.
   */
  lemma {:induction false} ReplaceAllShortensIffOccurs(s: string, pat: string)
    requires |pat| > 0
    ensures |ReplaceAll(s, pat)| < |s| <==> Occurs(s, pat)
    decreases |s|
  {
    if Occurs(s, pat) {
      var i: nat :| OccursAt(s, pat, i);
      if s[..|pat|] == pat {
      } else {
        assert OccursAt(s, pat, i);
        assert i != 0 by { assert s[0..|pat|] == s[..|pat|]; }
        assert 1 <= i && i + |pat| <= |s|;
        assert s[1..][i - 1..i - 1 + |pat|] == s[i..i + |pat|];
        assert OccursAt(s[1..], pat, i - 1);
        ReplaceAllShortensIffOccurs(s[1..], pat);
      }
    } else {
      ReplaceAllAbsent(s, pat);
    }
  }

  /** Removing a pattern never changes how often a character foreign to the pattern occurs. */
  lemma {:induction false} ReplaceAllKeepsOtherChars(s: string, pat: string, d: char)
    requires d !in pat
    ensures CountChar(ReplaceAll(s, pat), d) == CountChar(s, d)
    decreases |s|
  {
    if |pat| == 0 || |s| < |pat| {
    } else if s[..|pat|] == pat {
      ReplaceAllKeepsOtherChars(s[|pat|..], pat, d);
      assert s == pat + s[|pat|..];
      CountCharConcat(pat, s[|pat|..], d);
      CountCharZero(pat, d);
    } else {
      ReplaceAllKeepsOtherChars(s[1..], pat, d);
      CountCharConcat([s[0]], ReplaceAll(s[1..], pat), d);
      assert [s[0]][1..] == [];
    }
  }

  /** A one-character pattern never survives its own removal. */
  lemma {:induction false} ReplaceCharRemovesAll(s: string, c: char)
    ensures c !in ReplaceAll(s, [c])
    decreases |s|
  {
    if |s| > 0 {
      ReplaceCharRemovesAll(s[1..], c);
      assert s[..1] == [s[0]];
    }
  }

  /** For a one-character pattern, `c !in s` is exactly "the pattern does not occur". */
  lemma CharNotOccurs(s: string, c: char)
    requires c !in s
    ensures !Occurs(s, [c])
  {
    forall i: nat | i <= |s| ensures !OccursAt(s, [c], i) {
      if i + 1 <= |s| {
        assert s[i..i + 1][0] == s[i];
      }
    }
  }

  /** Removing one character distributes over concatenation. */
  lemma {:induction false} ReplaceCharConcat(a: string, b: string, c: char)
    ensures ReplaceAll(a + b, [c]) == ReplaceAll(a, [c]) + ReplaceAll(b, [c])
  {
    if |a| == 0 {
      assert a + b == b;
    } else {
      assert (a + b)[..1] == a[..1] == [a[0]];
      assert (a + b)[1..] == a[1..] + b;
      ReplaceCharConcat(a[1..], b, c);
    }
  }

  /** Removing a single character twice is the same as removing it once. */
  lemma ReplaceCharIdempotent(s: string, c: char)
    ensures ReplaceAll(ReplaceAll(s, [c]), [c]) == ReplaceAll(s, [c])
  {
    ReplaceCharRemovesAll(s, c);
    CharNotOccurs(ReplaceAll(s, [c]), c);
    ReplaceAllAbsent(ReplaceAll(s, [c]), [c]);
  }

  /** A prefix that does not hold the pattern's first character is kept as it is. */
  lemma {:induction false} ReplaceAllSkip(a: string, b: string, pat: string)
    requires |pat| > 0 && pat[0] !in a
    ensures ReplaceAll(a + b, pat) == a + ReplaceAll(b, pat)
    decreases |a|
  {
    if |a| == 0 {
      assert a + b == b;
    } else {
      var rest := a[1..] + b;
      assert a + b == [a[0]] + rest;
      assert !OccursAt([a[0]] + rest, pat, 0) by {
        if |pat| <= |a + b| {
          assert ([a[0]] + rest)[0..|pat|][0] == a[0];
        }
      }
      ReplaceAllKeep(a[0], rest, pat);
      ReplaceAllSkip(a[1..], b, pat);
      assert [a[0]] + a[1..] == a;
    }
  }

  /** An occurrence at the front is deleted, and the scan resumes right after it. */
  lemma ReplaceAllFront(pat: string, b: string)
    requires |pat| > 0
    ensures ReplaceAll(pat + b, pat) == ReplaceAll(b, pat)
  {
    assert (pat + b)[..|pat|] == pat;
    assert (pat + b)[|pat|..] == b;
  }

  /** A character where the pattern does not start is kept. */
  lemma ReplaceAllKeep(c: char, b: string, pat: string)
    requires |pat| > 0 && !OccursAt([c] + b, pat, 0)
    ensures ReplaceAll([c] + b, pat) == [c] + ReplaceAll(b, pat)
  {
    var s := [c] + b;
    assert s[0] == c && s[1..] == b;
    if |s| >= |pat| {
      assert s[0..|pat|] == s[..|pat|];
    }
  }

  lemma {:induction false} SplitNoSeparator(s: string, sep: char)
    requires sep !in s
    ensures Split(s, sep) == [s]
  {
    if |s| > 0 {
      SplitNoSeparator(s[1..], sep);
      assert s == [s[0]] + s[1..];
    }
  }

  /** Splitting `a + sep + b`, where neither side holds the separator, gives back the two sides. */
  lemma {:induction false} SplitPair(a: string, b: string, sep: char)
    requires sep !in a && sep !in b
    ensures Split(a + [sep] + b, sep) == [a, b]
  {
    var s := a + [sep] + b;
    if |a| == 0 {
      assert s[1..] == b;
      SplitNoSeparator(b, sep);
    } else {
      assert s[1..] == a[1..] + [sep] + b;
      SplitPair(a[1..], b, sep);
      assert [a[0]] + a[1..] == a;
    }
  }

  /** Joining the pieces of a split with the same separator restores the string. */
  lemma {:induction false} JoinSplit(s: string, sep: char)
    ensures Join(Split(s, sep), sep) == s
  {
    if |s| > 0 {
      var rest := Split(s[1..], sep);
      JoinSplit(s[1..], sep);
      if s[0] == sep {
        assert ([""] + rest)[1..] == rest;
      } else {
        var parts := [[s[0]] + rest[0]] + rest[1..];
        if |rest| == 1 {
          assert s == [s[0]] + s[1..];
        } else {
          assert parts[1..] == rest[1..];
          assert Join(rest, sep) == rest[0] + [sep] + Join(rest[1..], sep);
          assert s == [s[0]] + s[1..];
        }
      }
    }
  }
}
