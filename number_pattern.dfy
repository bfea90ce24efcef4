/**
 * The pattern `[-+]?\d*\.\d+|\d+` that picks the score out of its line, and
 * what Python's `re.search` returns with it: the first match found scanning
 * left to right, where at each position the decimal alternative is tried
 * before the integer one.
 */
module NumberPattern {
  import opened Wrappers

  /** `\d`, restricted to the ASCII digits. */
  predicate IsDigit(c: char) {
    '0' <= c <= '9'
  }

  /** `[-+]` */
  predicate IsSign(c: char) {
    c == '-' || c == '+'
  }

  /** Every character of `s[lo..hi]` is a digit. */
  predicate DigitsBetween(s: string, lo: nat, hi: nat)
    requires lo <= hi <= |s|
  {
    forall i :: lo <= i < hi ==> IsDigit(s[i])
  }

  /** Every character of `t` is a digit. */
  predicate AllDigits(t: string) {
    DigitsBetween(t, 0, |t|)
  }

  /** The digits of a slice are the digits of the text between its ends. */
  lemma DigitsInSlice(s: string, lo: nat, hi: nat)
    requires lo <= hi <= |s|
    ensures AllDigits(s[lo..hi]) <==> DigitsBetween(s, lo, hi)
  {
    var t := s[lo..hi];
    if AllDigits(t) {
      forall y | lo <= y < hi ensures IsDigit(s[y]) {
        assert s[y] == t[y - lo];
      }
    }
    if DigitsBetween(s, lo, hi) {
      forall x | 0 <= x < |t| ensures IsDigit(t[x]) {
        assert t[x] == s[lo + x];
      }
    }
  }

  // The language of the pattern, one predicate per piece of it.

  /** `\.\d+` */
  predicate Fraction(t: string) {
    |t| >= 2 && t[0] == '.' && AllDigits(t[1..])
  }

  /** `\d*\.\d+` */
  predicate DigitsFraction(t: string)
    decreases |t|
  {
    Fraction(t) || (|t| > 0 && IsDigit(t[0]) && DigitsFraction(t[1..]))
  }

  /** `[-+]?\d*\.\d+` */
  predicate Decimal(t: string) {
    DigitsFraction(t) || (|t| > 0 && IsSign(t[0]) && DigitsFraction(t[1..]))
  }

  /** `\d+` */
  predicate Integer(t: string) {
    |t| > 0 && AllDigits(t)
  }

  /** `t` is, as a whole, a string of the pattern `[-+]?\d*\.\d+|\d+`. */
  predicate IsNumber(t: string) {
    Decimal(t) || Integer(t)
  }

  /** No string of the pattern starts at position `q` of `s`. */
  predicate NoMatchAt(s: string, q: nat)
    requires q <= |s|
  {
    forall e :: q <= e <= |s| ==> !IsNumber(s[q..e])
  }

  /** `s[p..p + n]` is a string of the pattern and none starting at `p`
      is longer. */
  predicate IsLongestAt(s: string, p: nat, n: nat) {
    && p + n <= |s|
    && IsNumber(s[p..p + n])
    && (forall e :: p + n < e <= |s| ==> !IsNumber(s[p..e]))
  }

  /** `s[p..p + n]` is the longest string of the pattern at `p`, and no
      such string starts earlier in `s`. */
  predicate IsLeftmostLongest(s: string, p: nat, n: nat) {
    && (forall q :: 0 <= q < p && q <= |s| ==> NoMatchAt(s, q))
    && IsLongestAt(s, p, n)
  }

  /** The length of the run of digits that starts at `i`. */
  function DigitRun(s: string, i: nat): (n: nat)
    requires i <= |s|
    ensures i + n <= |s| && DigitsBetween(s, i, i + n)
    ensures i + n == |s| || !IsDigit(s[i + n])
    decreases |s| - i
  {
    if i < |s| && IsDigit(s[i]) then 1 + DigitRun(s, i + 1) else 0
  }

  datatype Match = Match(start: nat, len: nat)

  /** The length of the match the backtracking engine finds at position `i`,
      if any. The decimal alternative goes first: its optional sign is taken
      when present (without it, a sign character cannot start `\d*\.`), its
      `\d*` can only succeed by taking the whole run of digits (a shorter run
      is followed by a digit, not by `.`), and its final `\d+` is greedy. The
      integer alternative, tried only when that fails, takes the whole run of
      digits. */
  function MatchAt(s: string, i: nat): (r: Option<nat>)
    requires i <= |s|
    ensures r.Some? ==> 0 < r.value && i + r.value <= |s|
  {
    if DecimalStartsAt(s, i) then
      Some(DecimalEnd(s, i) - i)
    else if i < |s| && IsDigit(s[i]) then
      Some(DigitRun(s, i))
    else
      None
  }

  /** Where `[-+]?` leaves off at `i`: past the sign, if there is one. */
  function SignEnd(s: string, i: nat): (j: nat)
    requires i <= |s|
    ensures i <= j <= |s|
  {
    if i < |s| && IsSign(s[i]) then i + 1 else i
  }

  /** Where the decimal alternative needs its point: after the optional
      sign and the whole run of digits that follows it. */
  function PointAt(s: string, i: nat): (k: nat)
    requires i <= |s|
    ensures SignEnd(s, i) <= k <= |s|
  {
    SignEnd(s, i) + DigitRun(s, SignEnd(s, i))
  }

  /** The decimal alternative succeeds at `i`: a point, then a digit. */
  predicate DecimalStartsAt(s: string, i: nat)
    requires i <= |s|
  {
    var k := PointAt(s, i);
    k + 1 < |s| && s[k] == '.' && IsDigit(s[k + 1])
  }

  /** Where the decimal alternative's greedy `\d+` stops. */
  function DecimalEnd(s: string, i: nat): (f: nat)
    requires i <= |s| && DecimalStartsAt(s, i)
    ensures PointAt(s, i) + 1 < f <= |s|
  {
    var k := PointAt(s, i);
    assert DigitRun(s, k + 1) > 0;
    k + 1 + DigitRun(s, k + 1)
  }

  function SearchFrom(s: string, i: nat): (r: Option<Match>)
    requires i <= |s|
    ensures r.Some? ==> r.value.start + r.value.len <= |s|
    decreases |s| - i
  {
    match MatchAt(s, i)
    case Some(n) => Some(Match(i, n))
    case None => if i == |s| then None else SearchFrom(s, i + 1)
  }

  /** Python's `re.search(r"[-+]?\d*\.\d+|\d+", s)`, as the position and
      length of the match. */
  function Search(s: string): (r: Option<Match>)
    ensures r.Some? ==> r.value.start + r.value.len <= |s|
  {
    SearchFrom(s, 0)
  }

  /** The text of a match: what `.group()` returns. */
  function Group(s: string, m: Match): string
    requires m.start + m.len <= |s|
  {
    s[m.start..m.start + m.len]
  }

  // Correctness of the search against the language of the pattern.

  /** `\d*\.\d+` matches `s[j..e]` exactly when the run of digits at `j` is
      followed by a `.` and then by digits only, at least one, up to `e`. */
  lemma {:induction false} DigitsFractionAt(s: string, j: nat, e: nat)
    requires j <= e <= |s|
    ensures DigitsFraction(s[j..e]) <==>
              var k := j + DigitRun(s, j);
              k + 1 < e && s[k] == '.' && DigitsBetween(s, k + 1, e)
    decreases e - j
  {
    var t := s[j..e];
    if j < e && IsDigit(s[j]) {
      assert t[1..] == s[j + 1..e];
      DigitsFractionAt(s, j + 1, e);
    } else if j < e {
      assert DigitRun(s, j) == 0;
      if |t| >= 2 {
        assert t[1..] == s[j + 1..e];
        DigitsInSlice(s, j + 1, e);
      }
    }
  }

  /** The decimal alternative fits `s[i..e]`: the point where it needs
      one, then digits only, at least one, up to `e`. */
  predicate DecimalFits(s: string, i: nat, e: nat)
    requires i <= e <= |s|
  {
    var k := PointAt(s, i);
    k + 1 < e && s[k] == '.' && DigitsBetween(s, k + 1, e)
  }

  /** A string of the pattern that starts with a sign is the sign followed
      by `\d*\.\d+`. */
  lemma SignedNumber(t: string)
    requires |t| > 0 && IsSign(t[0])
    ensures IsNumber(t) <==> DigitsFraction(t[1..])
  {
    assert !DigitsFraction(t);
    assert !Integer(t) by {
      assert !IsDigit(t[0]);
    }
  }

  /** A string of the pattern that does not start with a sign is
      `\d*\.\d+` or a non-empty run of digits. */
  lemma UnsignedNumber(t: string)
    requires |t| == 0 || !IsSign(t[0])
    ensures IsNumber(t) <==> DigitsFraction(t) || Integer(t)
  {
  }

  /** Which strings of the pattern start at `i`: those where the decimal
      alternative fits, and the non-empty runs of digits from `i`. */
  lemma NumberAt(s: string, i: nat, e: nat)
    requires i <= e <= |s|
    ensures IsNumber(s[i..e]) <==> DecimalFits(s, i, e) || (i < e && DigitsBetween(s, i, e))
  {
    if i < |s| && IsSign(s[i]) {
      if i < e {
        SignedNumberAt(s, i, e);
      } else {
        assert s[i..e] == [];
      }
    } else {
      UnsignedNumberAt(s, i, e);
    }
  }

  lemma SignedNumberAt(s: string, i: nat, e: nat)
    requires i < e <= |s| && IsSign(s[i])
    ensures IsNumber(s[i..e]) <==> DecimalFits(s, i, e)
    ensures !DigitsBetween(s, i, e)
  {
    var t := s[i..e];
    assert t[0] == s[i];
    assert t[1..] == s[i + 1..e];
    SignedNumber(t);
    DigitsFractionAt(s, i + 1, e);
  }

  lemma UnsignedNumberAt(s: string, i: nat, e: nat)
    requires i <= e <= |s| && !(i < |s| && IsSign(s[i]))
    ensures IsNumber(s[i..e]) <==> DecimalFits(s, i, e) || (i < e && DigitsBetween(s, i, e))
  {
    var t := s[i..e];
    assert |t| > 0 ==> t[0] == s[i];
    UnsignedNumber(t);
    DigitsFractionAt(s, i, e);
    DigitsInSlice(s, i, e);
  }

  /** MatchAt finds the longest string of the pattern starting at `i`, and
      finds nothing exactly when no such string exists. */
  lemma MatchAtCorrect(s: string, i: nat)
    requires i <= |s|
    ensures match MatchAt(s, i)
            case Some(n) => IsLongestAt(s, i, n)
            case None => NoMatchAt(s, i)
  {
    if DecimalStartsAt(s, i) {
      DecimalMatchLongest(s, i);
    } else if i < |s| && IsDigit(s[i]) {
      IntegerMatchLongest(s, i);
    } else {
      NoMatchHere(s, i);
    }
  }

  lemma NoMatchHere(s: string, i: nat)
    requires i <= |s| && !DecimalStartsAt(s, i) && !(i < |s| && IsDigit(s[i]))
    ensures NoMatchAt(s, i)
  {
    var k := PointAt(s, i);
    forall e | i <= e <= |s| ensures !IsNumber(s[i..e]) {
      NumberAt(s, i, e);
      assert k + 1 < e ==> k + 1 < |s|;
    }
  }

  lemma DecimalMatchLongest(s: string, i: nat)
    requires i <= |s| && DecimalStartsAt(s, i)
    ensures IsLongestAt(s, i, DecimalEnd(s, i) - i)
  {
    var f := DecimalEnd(s, i);
    NumberAt(s, i, f);
    forall e | f < e <= |s| ensures !IsNumber(s[i..e]) {
      DecimalNotExtended(s, i, e);
      NumberAt(s, i, e);
    }
  }

  lemma DecimalNotExtended(s: string, i: nat, e: nat)
    requires i <= |s| && DecimalStartsAt(s, i) && DecimalEnd(s, i) < e <= |s|
    ensures !DecimalFits(s, i, e) && !DigitsBetween(s, i, e)
  {
    var k := PointAt(s, i);
    var f := DecimalEnd(s, i);
    assert !IsDigit(s[f]);
    assert !IsDigit(s[k]);
  }

  lemma IntegerMatchLongest(s: string, i: nat)
    requires i < |s| && IsDigit(s[i]) && !DecimalStartsAt(s, i)
    ensures IsLongestAt(s, i, DigitRun(s, i))
  {
    var f := i + DigitRun(s, i);
    NumberAt(s, i, f);
    forall e | f < e <= |s| ensures !IsNumber(s[i..e]) {
      IntegerNotExtended(s, i, e);
      NumberAt(s, i, e);
    }
  }

  lemma IntegerNotExtended(s: string, i: nat, e: nat)
    requires i < |s| && IsDigit(s[i]) && !DecimalStartsAt(s, i)
    requires i + DigitRun(s, i) < e <= |s|
    ensures !DecimalFits(s, i, e) && !DigitsBetween(s, i, e)
  {
    var f := i + DigitRun(s, i);
    assert PointAt(s, i) == f;
    assert !IsDigit(s[f]);
    assert f + 1 < e ==> f + 1 < |s|;
  }

  lemma {:induction false} SearchFromCorrect(s: string, i: nat)
    requires i <= |s|
    requires forall q :: 0 <= q < i ==> NoMatchAt(s, q)
    ensures SearchFrom(s, i).Some? ==>
              IsLeftmostLongest(s, SearchFrom(s, i).value.start, SearchFrom(s, i).value.len)
    ensures SearchFrom(s, i).None? ==> forall q :: 0 <= q <= |s| ==> NoMatchAt(s, q)
    decreases |s| - i
  {
    MatchAtCorrect(s, i);
    match MatchAt(s, i)
    case Some(n) =>
      assert SearchFrom(s, i) == Some(Match(i, n));
    case None =>
      if i < |s| {
        assert SearchFrom(s, i) == SearchFrom(s, i + 1);
        SearchFromCorrect(s, i + 1);
      }
  }

  /** At most one match is leftmost and longest. */
  lemma LeftmostLongestUnique(s: string, p: nat, n: nat, p': nat, n': nat)
    requires IsLeftmostLongest(s, p, n) && IsLeftmostLongest(s, p', n')
    ensures p == p' && n == n'
  {
    assert !NoMatchAt(s, p);
    assert !NoMatchAt(s, p');
    assert p == p';
    assert IsNumber(s[p..p + n']);
  }

  /** `re.search` returns exactly the leftmost-longest string of the pattern. */
  lemma SearchIsLeftmostLongest(s: string, p: nat, n: nat)
    ensures Search(s) == Some(Match(p, n)) <==> IsLeftmostLongest(s, p, n)
  {
    SearchFromCorrect(s, 0);
    if IsLeftmostLongest(s, p, n) {
      assert !NoMatchAt(s, p);
      if Search(s).Some? {
        var m := Search(s).value;
        LeftmostLongestUnique(s, p, n, m.start, m.len);
      }
    }
  }

  /** `re.search` finds nothing exactly when the text holds no digit. */
  lemma SearchFailsIffNoDigit(s: string)
    ensures Search(s).None? <==> forall i :: 0 <= i < |s| ==> !IsDigit(s[i])
  {
    SearchFromCorrect(s, 0);
    if Search(s).Some? {
      var m := Search(s).value;
      var t := s[m.start..m.start + m.len];
      NumberEndsInDigit(t);
      assert t[|t| - 1] == s[m.start + m.len - 1];
    } else {
      forall i | 0 <= i < |s| ensures !IsDigit(s[i]) {
        DigitStartsMatch(s, i);
      }
    }
  }

  /** A digit is, on its own, a string of the pattern. */
  lemma DigitStartsMatch(s: string, i: nat)
    requires i < |s|
    ensures IsDigit(s[i]) ==> !NoMatchAt(s, i)
  {
    if IsDigit(s[i]) {
      assert AllDigits(s[i..i + 1]);
      assert IsNumber(s[i..i + 1]);
    }
  }

  /** A character that can neither start nor continue a number. */
  predicate IsPlain(c: char) {
    !IsDigit(c) && !IsSign(c) && c != '.'
  }

  /** No match starts at a plain character. */
  lemma MatchAtPlain(s: string, i: nat)
    requires i < |s| && IsPlain(s[i])
    ensures MatchAt(s, i) == None
  {
    assert DigitRun(s, i) == 0;
  }

  /** After a prefix of plain text, a string of the pattern followed by
      the end of the text, or by a character that is neither a digit nor a
      point, is the match. */
  lemma SearchAfterPlainPrefix(prefix: string, t: string, suffix: string)
    requires forall q :: 0 <= q < |prefix| ==> IsPlain(prefix[q])
    requires IsNumber(t)
    requires |suffix| == 0 || (!IsDigit(suffix[0]) && suffix[0] != '.')
    ensures Search(prefix + t + suffix) == Some(Match(|prefix|, |t|))
  {
    var s := prefix + t + suffix;
    var p := |prefix|;
    forall q | 0 <= q < p ensures NoMatchAt(s, q) {
      assert s[q] == prefix[q];
      MatchAtPlain(s, q);
      MatchAtCorrect(s, q);
    }
    assert s[p..p + |t|] == t;
    NumberIsLongestBeforeStop(s, p, |t|);
    SearchIsLeftmostLongest(s, p, |t|);
  }

  /** A string of the pattern that is followed by the end of the text, or
      by a character that is neither a digit nor a point, cannot be
      extended. */
  lemma NumberIsLongestBeforeStop(s: string, p: nat, n: nat)
    requires p + n <= |s| && IsNumber(s[p..p + n])
    requires p + n == |s| || (!IsDigit(s[p + n]) && s[p + n] != '.')
    ensures IsLongestAt(s, p, n)
  {
    forall e | p + n < e <= |s| ensures !IsNumber(s[p..e]) {
      StopNotExtended(s, p, n, e);
      NumberAt(s, p, e);
    }
  }

  lemma StopNotExtended(s: string, p: nat, n: nat, e: nat)
    requires p + n < e <= |s| && IsNumber(s[p..p + n])
    requires !IsDigit(s[p + n]) && s[p + n] != '.'
    ensures !DecimalFits(s, p, e) && !DigitsBetween(s, p, e)
  {
    var end := p + n;
    NumberEndsInDigit(s[p..end]);
    assert s[p..end][n - 1] == s[end - 1];
    assert SignEnd(s, p) < end;
    var k := PointAt(s, p);
    assert !IsDigit(s[end]);
    assert k <= end;
  }

  /** A sign belongs to the match only in front of a decimal: before a
      plain run of digits it is skipped. */
  lemma SignBeforeIntegerSkipped(c: char, digits: string)
    requires IsSign(c) && Integer(digits)
    ensures Search([c] + digits) == Some(Match(1, |digits|))
  {
    var s := [c] + digits;
    assert forall q :: 1 <= q < |s| ==> s[q] == digits[q - 1];
    assert DigitRun(s, 1) == |digits|;
    assert MatchAt(s, 0) == None;
    assert MatchAt(s, 1) == Some(|digits|);
    assert SearchFrom(s, 1) == Some(Match(1, |digits|));
    assert SearchFrom(s, 0) == SearchFrom(s, 1);
  }

  /** The examples "-1" (matched as "1") and "-0.3" (matched whole). */
  lemma SearchExamples()
    ensures Search("-1") == Some(Match(1, 1))
    ensures Search("-0.3") == Some(Match(0, 4))
  {
    assert AllDigits("1") && IsDigit('0') && AllDigits("3");
    SignBeforeIntegerSkipped('-', "1");
    assert ['-'] + "1" == "-1";
    assert Fraction(".3") && DigitsFraction("0.3") && IsNumber("-0.3");
    SearchAfterPlainPrefix("", "-0.3", "");
    assert "" + "-0.3" + "" == "-0.3";
  }

  /** The exact values of two matches. */
  lemma ValueExamples()
    ensures Value("0.7") == 0.7 && Value("-0.3") == -0.3
  {
    assert DigitRun("0.7", 0) == 1 && DigitRun("0.3", 0) == 1;
    assert "-0.3"[1..] == "0.3";
  }

  /** Every string of the pattern ends in a digit. */
  lemma {:induction false} NumberEndsInDigit(t: string)
    requires IsNumber(t)
    ensures |t| > 0 && IsDigit(t[|t| - 1])
  {
    if Decimal(t) {
      if DigitsFraction(t) {
        DigitsFractionEndsInDigit(t);
      } else {
        DigitsFractionEndsInDigit(t[1..]);
        assert t[1..][|t| - 2] == t[|t| - 1];
      }
    }
  }

  lemma {:induction false} DigitsFractionEndsInDigit(t: string)
    requires DigitsFraction(t)
    ensures |t| > 0 && IsDigit(t[|t| - 1])
    decreases |t|
  {
    if Fraction(t) {
      assert t[1..][|t| - 2] == t[|t| - 1];
    } else {
      DigitsFractionEndsInDigit(t[1..]);
      assert t[1..][|t| - 2] == t[|t| - 1];
    }
  }

  /** The value of a run of digits is the integer they spell. */
  lemma IntegerValue(digits: string)
    requires Integer(digits)
    ensures Value(digits) == DigitsValue(digits) as real
  {
    assert DigitRun(digits, 0) == |digits|;
  }

  /** The value of a decimal is the integer its digits spell, the point
      removed, divided by ten to the number of digits after the point. */
  lemma DecimalValue(digits: string, frac: string)
    requires AllDigits(digits) && AllDigits(frac) && |frac| > 0
    ensures Value(digits + "." + frac) ==
              DigitsValue(digits + frac) as real / Pow10(|frac|) as real
  {
    var t := digits + "." + frac;
    RunBeforePoint(digits, frac);
    assert t[..|digits|] == digits && t[|digits| + 1..] == frac;
    assert Value(t) == UnsignedValue(t) by {
      assert |digits| > 0 ==> t[0] == digits[0];
    }
    DigitsValueAppend(digits, frac);
    ShiftedQuotient(DigitsValue(digits), DigitsValue(frac), Pow10(|frac|));
  }

  /** In `digits + "." + frac`, the run of digits at the start stops at the
      point. */
  lemma RunBeforePoint(digits: string, frac: string)
    requires AllDigits(digits)
    ensures DigitRun(digits + "." + frac, 0) == |digits|
  {
    var t := digits + "." + frac;
    assert t[|digits|] == '.';
    assert forall y :: 0 <= y < |digits| ==> t[y] == digits[y];
  }

  lemma ShiftedQuotient(a: nat, b: nat, d: nat)
    requires d > 0
    ensures (a * d + b) as real / d as real == a as real + b as real / d as real
  {
  }

  /** A minus sign negates the value; a plus sign leaves it. */
  lemma SignedValue(c: char, u: string)
    requires IsSign(c) && (|u| == 0 || !IsSign(u[0]))
    ensures Value([c] + u) == if c == '-' then -Value(u) else Value(u)
  {
    assert ([c] + u)[1..] == u;
  }

  /** Appending digits shifts the value of the digits before them. */
  lemma {:induction false} DigitsValueAppend(a: string, b: string)
    ensures DigitsValue(a + b) == DigitsValue(a) * Pow10(|b|) + DigitsValue(b)
    decreases |b|
  {
    if |b| == 0 {
      assert a + b == a;
    } else {
      var b' := b[..|b| - 1];
      var c := b[|b| - 1];
      assert (a + b)[..|a + b| - 1] == a + b';
      assert (a + b)[|a + b| - 1] == c;
      assert DigitsValue(a + b) == DigitsValue(a + b') * 10 + DigitValue(c);
      assert DigitsValue(b) == DigitsValue(b') * 10 + DigitValue(c);
      DigitsValueAppend(a, b');
      ShiftByOneDigit(DigitsValue(a), Pow10(|b'|), DigitsValue(b'), DigitValue(c));
    }
  }

  lemma ShiftByOneDigit(x: nat, p: nat, y: nat, d: nat)
    ensures (x * p + y) * 10 + d == x * (10 * p) + (y * 10 + d)
  {
  }

  // The value Python's float() gives the text of a match, kept exact.

  function DigitValue(c: char): nat {
    if IsDigit(c) then c as int - '0' as int else 0
  }

  /** The value of a run of decimal digits. */
  function DigitsValue(t: string): nat {
    if |t| == 0 then 0 else DigitsValue(t[..|t| - 1]) * 10 + DigitValue(t[|t| - 1])
  }

  function Pow10(n: nat): (r: nat)
    ensures r > 0
  {
    if n == 0 then 1 else 10 * Pow10(n - 1)
  }

  /** The exact value of `\d*\.\d+` or `\d+`. */
  function UnsignedValue(t: string): real {
    var k := DigitRun(t, 0);
    if k < |t| then
      DigitsValue(t[..k]) as real + DigitsValue(t[k + 1..]) as real / Pow10(|t| - k - 1) as real
    else
      DigitsValue(t) as real
  }

  /** The exact decimal value of a string of the pattern: what `float()`
      reads from it before rounding to the nearest double. */
  function Value(t: string): real {
    if |t| > 0 && t[0] == '-' then -UnsignedValue(t[1..])
    else if |t| > 0 && t[0] == '+' then UnsignedValue(t[1..])
    else UnsignedValue(t)
  }
}
