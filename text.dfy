/**
 * The string primitives the program leans on, as ECMAScript defines them:
 * the `\s` class and `trim`, `\d`, `toLowerCase` (for ASCII letters),
 * `includes`, the number of matches of a literal global regular expression,
 * `replace` of a literal with the `g` flag, and `parseInt` of a digit string.
 * Strings are sequences of characters; lengths count characters.
 */
module Text {

  /** ECMAScript WhiteSpace and LineTerminator: the class `\s`, and what `trim` removes. */
  predicate IsWhitespace(c: char)
  {
    c == '\t' || c == '\n' || c == '\U{B}' || c == '\U{C}' || c == '\r' || c == ' '
    || c == '\U{A0}' || c == '\U{1680}' || ('\U{2000}' <= c <= '\U{200A}')
    || c == '\U{2028}' || c == '\U{2029}' || c == '\U{202F}' || c == '\U{205F}'
    || c == '\U{3000}' || c == '\U{FEFF}'
  }

  /** ECMAScript LineTerminator: the characters `.` does not match. */
  predicate IsLineTerminator(c: char)
  {
    c == '\n' || c == '\r' || c == '\U{2028}' || c == '\U{2029}'
  }

  /** `\d` */
  predicate IsDigit(c: char)
  {
    '0' <= c <= '9'
  }

  predicate AllWhitespace(s: string)
  {
    forall i :: 0 <= i < |s| ==> IsWhitespace(s[i])
  }

  function LowerChar(c: char): char
  {
    if 'A' <= c <= 'Z' then (c as int + 32) as char else c
  }

  /** `toLowerCase`, for ASCII letters; every other character is kept. */
  function Lower(s: string): (r: string)
    ensures |r| == |s|
  {
    seq(|s|, i requires 0 <= i < |s| => LowerChar(s[i]))
  }

  predicate StartsWith(s: string, p: string)
  {
    |p| <= |s| && s[..|p|] == p
  }

  /** `w` occurs in `t` at position `i`. */
  predicate OccursAt(t: string, w: string, i: nat)
  {
    i + |w| <= |t| && t[i..i + |w|] == w
  }

  /** `t.includes(w)`, scanning from the left. */
  function Contains(t: string, w: string): bool
  {
    StartsWith(t, w) || (t != [] && Contains(t[1..], w))
  }

  /** `includes` holds exactly when the word occurs somewhere. */
  lemma {:induction false} ContainsIff(t: string, w: string)
    ensures Contains(t, w) <==> exists i :: 0 <= i <= |t| && OccursAt(t, w, i)
  {
    if StartsWith(t, w) {
      assert OccursAt(t, w, 0);
    } else if t != [] {
      ContainsIff(t[1..], w);
      if Contains(t[1..], w) {
        var i :| 0 <= i <= |t[1..]| && OccursAt(t[1..], w, i);
        assert t[1..][i..i + |w|] == t[i + 1..i + 1 + |w|];
        assert OccursAt(t, w, i + 1);
      }
      if i :| 0 <= i <= |t| && OccursAt(t, w, i) {
        assert i != 0;
        assert t[1..][i - 1..i - 1 + |w|] == t[i..i + |w|];
        assert OccursAt(t[1..], w, i - 1);
      }
    }
  }

  /** Non-overlapping occurrences of a non-empty `w` in `t`, found left to right. */
  function CountFrom(t: string, w: string): nat
    requires |w| > 0
    decreases |t|
  {
    if |t| < |w| then 0
    else if t[..|w|] == w then 1 + CountFrom(t[|w|..], w)
    else CountFrom(t[1..], w)
  }

  /**
   * `t.match(new RegExp(w, 'g'))` counted, for `w` without metacharacters:
   * left-to-right non-overlapping matches; the empty pattern matches at every
   * position, `|t| + 1` times.
   */
  function MatchCount(t: string, w: string): nat
  {
    if w == [] then |t| + 1 else CountFrom(t, w)
  }

  /** A word is counted zero times exactly when it does not occur. */
  lemma {:induction false} CountZeroIff(t: string, w: string)
    requires |w| > 0
    ensures MatchCount(t, w) == 0 <==> !Contains(t, w)
    decreases |t|
  {
    if |t| < |w| {
      if t != [] {
        CountZeroIff(t[1..], w);
      }
    } else if t[..|w|] != w {
      CountZeroIff(t[1..], w);
    }
  }

  /** Matches do not overlap, so they never need more characters than the text has. */
  lemma {:induction false} CountBound(t: string, w: string)
    requires |w| > 0
    ensures MatchCount(t, w) * |w| <= |t|
    decreases |t|
  {
    if |t| >= |w| {
      if t[..|w|] == w {
        CountBound(t[|w|..], w);
        assert (1 + CountFrom(t[|w|..], w)) * |w| == |w| + CountFrom(t[|w|..], w) * |w|;
      } else {
        CountBound(t[1..], w);
      }
    }
  }

  /** A word whose first character is absent from `t` does not occur in `t`. */
  lemma {:induction false} AbsentHeadNotContained(t: string, w: string)
    requires |w| > 0 && w[0] !in t
    ensures !Contains(t, w)
  {
    if t != [] {
      assert t[0] != w[0];
      AbsentHeadNotContained(t[1..], w);
    }
  }

  /** `s.replace(/pat/g, rep)` for a literal, non-empty `pat`: left to right, non-overlapping. */
  function ReplaceAll(s: string, pat: string, rep: string): string
    requires |pat| > 0
    decreases |s|
  {
    if StartsWith(s, pat) then rep + ReplaceAll(s[|pat|..], pat, rep)
    else if s == [] then []
    else [s[0]] + ReplaceAll(s[1..], pat, rep)
  }

  /** Replacing a literal that does not occur changes nothing. */
  lemma {:induction false} ReplaceAbsent(s: string, pat: string, rep: string)
    requires |pat| > 0 && !Contains(s, pat)
    ensures ReplaceAll(s, pat, rep) == s
  {
    if s != [] {
      ReplaceAbsent(s[1..], pat, rep);
      assert s == [s[0]] + s[1..];
    }
  }

  /** `trimStart`; also what a greedy `\s*` at the front skips. */
  function TrimStart(s: string): (r: string)
    ensures |r| <= |s| && r == s[|s| - |r|..]
    ensures r == [] || !IsWhitespace(r[0])
  {
    if s != [] && IsWhitespace(s[0]) then TrimStart(s[1..]) else s
  }

  /** What `trimStart` removes is whitespace. */
  lemma {:induction false} TrimStartCut(s: string)
    ensures AllWhitespace(s[..|s| - |TrimStart(s)|])
  {
    if s != [] && IsWhitespace(s[0]) {
      TrimStartCut(s[1..]);
      var cut, rest := s[..|s| - |TrimStart(s)|], s[1..][..|s| - 1 - |TrimStart(s)|];
      assert cut == [s[0]] + rest;
    }
  }

  /** `trimEnd` */
  function TrimEnd(s: string): (r: string)
    ensures |r| <= |s| && r == s[..|r|]
    ensures r == [] || !IsWhitespace(r[|r| - 1])
  {
    if s != [] && IsWhitespace(s[|s| - 1]) then TrimEnd(s[..|s| - 1]) else s
  }

  /** What `trimEnd` removes is whitespace. */
  lemma {:induction false} TrimEndCut(s: string)
    ensures AllWhitespace(s[|TrimEnd(s)|..])
  {
    if s != [] && IsWhitespace(s[|s| - 1]) {
      TrimEndCut(s[..|s| - 1]);
      assert forall i :: |TrimEnd(s)| <= i < |s| - 1 ==> s[i] == s[..|s| - 1][i];
    }
  }

  /** `trim`: drops the whitespace at both ends, and only that. */
  function Trim(s: string): (r: string)
    ensures |r| <= |s|
    ensures r == [] || (!IsWhitespace(r[0]) && !IsWhitespace(r[|r| - 1]))
  {
    var t := TrimStart(s);
    var r := TrimEnd(t);
    assert r != [] ==> r[0] == t[0];
    r
  }

  /** The trimmed text is a slice of its input, starting at `i`. */
  lemma TrimSlice(s: string) returns (i: nat)
    ensures i + |Trim(s)| <= |s| && Trim(s) == s[i..i + |Trim(s)|]
  {
    i := TrimCut(s);
  }

  /** Where the trimmed text sits in its input: only whitespace is cut off on either side. */
  lemma TrimCut(s: string) returns (i: nat)
    ensures i + |Trim(s)| <= |s| && Trim(s) == s[i..i + |Trim(s)|]
    ensures AllWhitespace(s[..i]) && AllWhitespace(s[i + |Trim(s)|..])
  {
    var t := TrimStart(s);
    var r := TrimEnd(t);
    TrimStartCut(s);
    TrimEndCut(t);
    i := |s| - |t|;
    assert Trim(s) == r;
    assert s[i..] == t;
    assert t[..|r|] == s[i..i + |r|];
    assert t[|r|..] == s[i + |r|..];
  }

  /** Text without whitespace at its ends is left alone by `trim`. */
  lemma TrimUntrimmed(s: string)
    requires s == [] || (!IsWhitespace(s[0]) && !IsWhitespace(s[|s| - 1]))
    ensures Trim(s) == s
  {
  }

  /** The longest prefix of digits: what a greedy `\d+` takes. */
  function DigitRun(s: string): (d: string)
    ensures |d| <= |s| && d == s[..|d|]
    ensures forall i :: 0 <= i < |d| ==> IsDigit(d[i])
    ensures |d| == |s| || !IsDigit(s[|d|])
  {
    if s != [] && IsDigit(s[0]) then [s[0]] + DigitRun(s[1..]) else []
  }

  /** `parseInt` of a string of decimal digits. */
  function DecimalValue(d: string): nat
  {
    if d == [] then 0
    else DecimalValue(d[..|d| - 1]) * 10 + (if IsDigit(d[|d| - 1]) then d[|d| - 1] as int - '0' as int else 0)
  }
}
