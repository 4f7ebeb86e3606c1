/** The number helpers of src/utils.ts, whose `toFixed` is repeated verbatim
    in src/fetchData.ts.

    `toFixed(num, fixed)` builds the regular expression
    `^-?\d+(?:.\d{0,fixed})?` (the `\.` of the template literal reaches the
    RegExp as a bare `.`, so any one character other than a line terminator
    separates the fraction) and hands the matched text, or the whole input
    when nothing matches, to `Number`. The model returns that text; the
    conversion by `Number` is not part of it. */
module NumberFormat {
  import opened Strings

  /** The characters a JavaScript `.` does not match. */
  predicate IsLineTerminator(c: char)
  {
    c == '\n' || c == '\r' || c == '\U{2028}' || c == '\U{2029}'
  }

  predicate AllDigits(s: string)
  {
    forall i :: 0 <= i < |s| ==> IsAsciiDigit(s[i])
  }

  /** The length of the run of decimal digits starting at `i`. */
  function DigitRun(s: string, i: nat): (n: nat)
    requires i <= |s|
    ensures i + n <= |s|
    ensures forall j :: i <= j < i + n ==> IsAsciiDigit(s[j])
    ensures i + n == |s| || !IsAsciiDigit(s[i + n])
    decreases |s| - i
  {
    if i == |s| || !IsAsciiDigit(s[i]) then 0
    else
      var n := DigitRun(s, i + 1);
      1 + n
  }

  /** 1 when the text starts with the optional minus sign, else 0. */
  function SignLength(s: string): nat
  {
    if |s| > 0 && s[0] == '-' then 1 else 0
  }

  /** Whether `^-?\d+` matches at all. */
  predicate HasLeadingInt(s: string)
  {
    SignLength(s) < |s| && IsAsciiDigit(s[SignLength(s)])
  }

  /** Where the greedy match of `^-?\d+(?:.\d{0,fixed})?` ends. */
  function MatchEnd(s: string, fixed: nat): (e: nat)
    requires HasLeadingInt(s)
    ensures e <= |s|
  {
    var intEnd := SignLength(s) + DigitRun(s, SignLength(s));
    if intEnd < |s| && !IsLineTerminator(s[intEnd]) then
      var frac := DigitRun(s, intEnd + 1);
      intEnd + 1 + (if frac < fixed then frac else fixed)
    else intEnd
  }

  /** `toFixed(num, fixed)` for the string form of `num`: the text handed
      to `Number`. `fixed` is at least 1, since `fixed || -1` turns 0 into a
      brace that is no quantifier. */
  function ToFixed(s: string, fixed: nat): (r: string)
    requires fixed >= 1
  {
    if HasLeadingInt(s) then s[..MatchEnd(s, fixed)] else s
  }

  /** The integer part ends at `d`, after which `p` holds either nothing or
      one separator that is not a line terminator and at most `fixed` digits. */
  predicate SplitsAt(p: string, d: int, fixed: nat)
  {
    && SignLength(p) < d <= |p|
    && AllDigits(p[SignLength(p)..d])
    && (d == |p| || (!IsLineTerminator(p[d]) && AllDigits(p[d + 1..]) && |p| - d - 1 <= fixed))
  }

  /** `p` as a whole matches `-?\d+(?:.\d{0,fixed})?`. */
  ghost predicate MatchesPattern(p: string, fixed: nat)
  {
    exists d :: SplitsAt(p, d, fixed)
  }

  /** The kept text is a prefix of the input that matches the pattern, and
      no longer prefix of the input does: it keeps the whole leading digit
      run and at most `fixed` digits after the separator. */
  lemma ToFixedLongestMatch(s: string, fixed: nat)
    requires fixed >= 1 && HasLeadingInt(s)
    ensures IsPrefix(ToFixed(s, fixed), s)
    ensures MatchesPattern(ToFixed(s, fixed), fixed)
    ensures forall k :: |ToFixed(s, fixed)| < k <= |s| ==> !MatchesPattern(s[..k], fixed)
  {
    var r := ToFixed(s, fixed);
    MatchedSplits(s, fixed);
    forall k | |r| < k <= |s|
      ensures !MatchesPattern(s[..k], fixed)
    {
      NoLongerMatch(s, fixed, k);
    }
  }

  /** The kept text splits at the end of the leading digit run. */
  lemma MatchedSplits(s: string, fixed: nat)
    requires fixed >= 1 && HasLeadingInt(s)
    ensures SplitsAt(ToFixed(s, fixed), SignLength(s) + DigitRun(s, SignLength(s)), fixed)
  {
    var sl := SignLength(s);
    var intEnd := sl + DigitRun(s, sl);
    var e := MatchEnd(s, fixed);
    var r := s[..e];
    assert ToFixed(s, fixed) == r;
    assert SignLength(r) == sl;
    DigitsInPrefix(s, sl, intEnd, e);
    if intEnd < |s| && !IsLineTerminator(s[intEnd]) {
      var frac := DigitRun(s, intEnd + 1);
      assert e == intEnd + 1 + (if frac < fixed then frac else fixed);
      assert r[intEnd] == s[intEnd];
      DigitsInPrefix(s, intEnd + 1, e, e);
      assert r[intEnd + 1..] == r[intEnd + 1..e];
    }
  }

  /** Digits of the input between `i` and `j` stay digits in a prefix that
      keeps them. */
  lemma DigitsInPrefix(s: string, i: nat, j: nat, e: nat)
    requires i <= j <= e <= |s|
    requires forall k :: i <= k < j ==> IsAsciiDigit(s[k])
    ensures AllDigits(s[..e][i..j])
  {
    var d := s[..e][i..j];
    forall k | 0 <= k < |d| ensures IsAsciiDigit(d[k]) {
      assert d[k] == s[i + k];
    }
  }

  /** The step of `ToFixedLongestMatch` for one longer prefix. */
  lemma NoLongerMatch(s: string, fixed: nat, k: nat)
    requires fixed >= 1 && HasLeadingInt(s)
    requires MatchEnd(s, fixed) < k <= |s|
    ensures !MatchesPattern(s[..k], fixed)
  {
    var p := s[..k];
    var sl := SignLength(s);
    var n := DigitRun(s, sl);
    assert SignLength(p) == sl;
    assert sl + n < k;
    forall d | SignLength(p) < d <= |p|
      ensures !SplitsAt(p, d, fixed)
    {
      if d > sl + n {
        assert !IsAsciiDigit(p[sl..d][n]);
      } else if d < sl + n {
        assert !IsAsciiDigit(p[d + 1..][sl + n - d - 1]);
      } else if !IsLineTerminator(s[d]) {
        var frac := DigitRun(s, d + 1);
        if k - d - 1 <= fixed {
          assert !IsAsciiDigit(p[d + 1..][frac]);
        }
      }
    }
  }

  /** Without a leading integer nothing matches, and the input is returned
      unchanged. */
  lemma ToFixedFallback(s: string, fixed: nat)
    requires fixed >= 1 && !HasLeadingInt(s)
    ensures ToFixed(s, fixed) == s
    ensures forall k :: 0 <= k <= |s| ==> !MatchesPattern(s[..k], fixed)
  {
    forall k, d | 0 <= k <= |s| && SignLength(s[..k]) < d <= k
      ensures !SplitsAt(s[..k], d, fixed)
    {
      var p := s[..k];
      assert SignLength(p) == SignLength(s);
      assert !IsAsciiDigit(p[SignLength(p)..d][0]);
    }
  }

  /** Applying `toFixed` to its own result gives that result again. */
  lemma ToFixedIdempotent(s: string, fixed: nat)
    requires fixed >= 1
    ensures ToFixed(ToFixed(s, fixed), fixed) == ToFixed(s, fixed)
  {
    var r := ToFixed(s, fixed);
    if HasLeadingInt(s) {
      ToFixedLongestMatch(s, fixed);
      assert r[..SignLength(r) + 1] == s[..SignLength(s) + 1];
      assert HasLeadingInt(r);
      ToFixedLongestMatch(r, fixed);
      assert r[..|r|] == r;
    }
  }

  /** A digit run that ends at `i + k` has length `k`. */
  lemma {:induction false} DigitRunIs(s: string, i: nat, k: nat)
    requires i + k <= |s|
    requires forall j :: i <= j < i + k ==> IsAsciiDigit(s[j])
    requires i + k == |s| || !IsAsciiDigit(s[i + k])
    ensures DigitRun(s, i) == k
    decreases k
  {
    if k > 0 {
      DigitRunIs(s, i + 1, k - 1);
    }
  }

  /** A number written as integer digits, one separator and fraction digits
      keeps its integer part and separator and the first `fixed` fraction
      digits: truncation, never rounding. */
  lemma ToFixedKeepsFractionPrefix(whole: string, sep: char, frac: string, fixed: nat)
    requires fixed >= 1 && |whole| > 0 && AllDigits(whole) && AllDigits(frac)
    requires !IsAsciiDigit(sep) && !IsLineTerminator(sep)
    ensures ToFixed(whole + [sep] + frac, fixed)
         == whole + [sep] + (if |frac| <= fixed then frac else frac[..fixed])
  {
    var s := whole + [sep] + frac;
    assert s[0] == whole[0];
    DigitRunIs(s, 0, |whole|);
    DigitRunIs(s, |whole| + 1, |frac|);
    if |frac| > fixed {
      assert s[..|whole| + 1 + fixed] == whole + [sep] + frac[..fixed];
    } else {
      assert s[..|s|] == s;
    }
  }

  /** "12.345" with two digits gives "12.34", not "12.35"; the separator may
      be any character, so "12a345" gives "12a34". */
  lemma ToFixedTruncates()
    ensures ToFixed("12.345", 2) == "12.34"
    ensures ToFixed("12a345", 2) == "12a34"
  {
    ToFixedKeepsFractionPrefix("12", '.', "345", 2);
    assert "12" + ['.'] + "345" == "12.345";
    assert "12" + ['.'] + "345"[..2] == "12.34";
    ToFixedKeepsFractionPrefix("12", 'a', "345", 2);
    assert "12" + ['a'] + "345" == "12a345";
    assert "12" + ['a'] + "345"[..2] == "12a34";
  }

  /** `getTodayDate()`: year, 1-based month and day in plain decimal,
      joined by "-". */
  function TodayDate(year: nat, monthIndex: nat, day: nat): string
    requires monthIndex < 12 && 1 <= day <= 31
  {
    NatToString(year) + "-" + NatToString(monthIndex + 1) + "-" + NatToString(day)
  }

  /** The date text splits at "-" into three decimal numbers that read back
      as the year, the 1-based month and the day. */
  lemma TodayDateFields(year: nat, monthIndex: nat, day: nat)
    requires monthIndex < 12 && 1 <= day <= 31
    ensures var parts := Split(TodayDate(year, monthIndex, day), '-');
      && |parts| == 3
      && AllDigits(parts[0]) && AllDigits(parts[1]) && AllDigits(parts[2])
      && DecimalValue(parts[0]) == year
      && DecimalValue(parts[1]) == monthIndex + 1
      && DecimalValue(parts[2]) == day
  {
    var y, m, d := NatToString(year), NatToString(monthIndex + 1), NatToString(day);
    var fields := [y, m, d];
    forall i | 0 <= i < 3 ensures '-' !in fields[i] {
      forall j | 0 <= j < |fields[i]| ensures fields[i][j] != '-' {
        assert IsAsciiDigit(fields[i][j]);
      }
    }
    assert Join(fields, "-") == TodayDate(year, monthIndex, day) by {
      assert fields[1..] == [m, d] && [m, d][1..] == [d];
      assert Join([m, d], "-") == m + "-" + d;
    }
    SplitJoin(fields, '-');
    NatToStringRoundTrip(year);
    NatToStringRoundTrip(monthIndex + 1);
    NatToStringRoundTrip(day);
  }
}
