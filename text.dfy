/**
 * The Python string operations the reply parser is built from:
 * `str.strip()`, `sub in s`, `str.find` and `str.split(sep)`.
 */
module Text {
  import opened Wrappers

  /** Python's `str.isspace()` for one character: the characters Unicode
      classes as white space or as a line, paragraph or segment separator. */
  predicate IsSpace(c: char) {
    || c == ' '
    || '\t' <= c <= '\r'
    || '\U{1C}' <= c <= '\U{1F}'
    || c == '\U{85}'
    || c == '\U{A0}'
    || c == '\U{1680}'
    || '\U{2000}' <= c <= '\U{200A}'
    || c == '\U{2028}'
    || c == '\U{2029}'
    || c == '\U{202F}'
    || c == '\U{205F}'
    || c == '\U{3000}'
  }

  /** Every character of `s[lo..hi]` is white space. */
  predicate SpaceBetween(s: string, lo: nat, hi: nat)
    requires lo <= hi <= |s|
  {
    forall i :: lo <= i < hi ==> IsSpace(s[i])
  }

  /** The index of the first character at or after `i` that is not white
      space, or `|s|`. */
  function SkipSpace(s: string, i: nat): (j: nat)
    requires i <= |s|
    ensures i <= j <= |s| && SpaceBetween(s, i, j)
    ensures j == |s| || !IsSpace(s[j])
    decreases |s| - i
  {
    if i < |s| && IsSpace(s[i]) then SkipSpace(s, i + 1) else i
  }

  /** The end of `s[lo..hi]` once its trailing white space is dropped. */
  function TrimEnd(s: string, lo: nat, hi: nat): (k: nat)
    requires lo <= hi <= |s|
    ensures lo <= k <= hi && SpaceBetween(s, k, hi)
    ensures k == lo || !IsSpace(s[k - 1])
    decreases hi - lo
  {
    if lo < hi && IsSpace(s[hi - 1]) then TrimEnd(s, lo, hi - 1) else hi
  }

  /** No white space at either end, as `str.strip()` leaves a text. */
  predicate IsStripped(s: string) {
    |s| == 0 || (!IsSpace(s[0]) && !IsSpace(s[|s| - 1]))
  }

  /** Python's `s.strip()`: the text between the leading and the trailing
      white space; a text that neither starts nor ends with white space is
      returned unchanged. */
  function Strip(s: string): (r: string)
    ensures exists a, b :: 0 <= a <= b <= |s| && r == s[a..b] && SpaceBetween(s, 0, a) && SpaceBetween(s, b, |s|)
    ensures IsStripped(r)
    ensures IsStripped(s) ==> r == s
  {
    var a := SkipSpace(s, 0);
    var b := TrimEnd(s, a, |s|);
    assert a < b ==> s[a..b][0] == s[a] && s[a..b][b - a - 1] == s[b - 1];
    assert SpaceBetween(s, b, |s|);
    s[a..b]
  }

  /** White space on either side of a non-empty stripped text is dropped,
      and nothing else. */
  lemma StripSurroundingSpace(lead: string, u: string, trail: string)
    requires forall q :: 0 <= q < |lead| ==> IsSpace(lead[q])
    requires |u| > 0 && IsStripped(u)
    requires forall q :: 0 <= q < |trail| ==> IsSpace(trail[q])
    ensures Strip(lead + u + trail) == u
  {
    var s := lead + u + trail;
    var k := |lead|;
    var e := |lead| + |u|;
    forall q | 0 <= q < k ensures IsSpace(s[q]) {
      assert s[q] == lead[q];
    }
    assert s[k] == u[0];
    SkipLeadingSpace(s, 0, k);
    forall q | e <= q < |s| ensures IsSpace(s[q]) {
      assert s[q] == trail[q - e];
    }
    assert s[e - 1] == u[|u| - 1];
    TrimTrailingSpace(s, k, e, |s|);
    assert s[k..e] == u;
  }

  lemma {:induction false} SkipLeadingSpace(s: string, i: nat, k: nat)
    requires i <= k < |s| && SpaceBetween(s, i, k) && !IsSpace(s[k])
    ensures SkipSpace(s, i) == k
    decreases k - i
  {
    if i < k {
      SkipLeadingSpace(s, i + 1, k);
    }
  }

  lemma {:induction false} TrimTrailingSpace(s: string, lo: nat, k: nat, hi: nat)
    requires lo < k <= hi <= |s| && SpaceBetween(s, k, hi) && !IsSpace(s[k - 1])
    ensures TrimEnd(s, lo, hi) == k
    decreases hi - k
  {
    if k < hi {
      TrimTrailingSpace(s, lo, k, hi - 1);
    }
  }

  /** `sub` occurs in `s` starting at index `i`. */
  predicate OccursAt(s: string, sub: string, i: nat) {
    i + |sub| <= |s| && s[i..i + |sub|] == sub
  }

  /** Python's `sub in s`. */
  predicate Contains(s: string, sub: string) {
    exists i: nat :: i <= |s| && OccursAt(s, sub, i)
  }

  /** `i` is the lowest index at which `sub` occurs in `s`. */
  predicate IsFirstOccurrence(s: string, sub: string, i: nat) {
    OccursAt(s, sub, i) && forall j: nat :: j < i ==> !OccursAt(s, sub, j)
  }

  /** Python's `s.find(sub)`: the lowest index at which `sub` occurs, or -1. */
  function Find(s: string, sub: string): (r: int)
    ensures -1 <= r
    ensures r == -1 <==> !Contains(s, sub)
    ensures r >= 0 ==> IsFirstOccurrence(s, sub, r)
  {
    var r := FindFrom(s, sub, 0);
    if r >= 0 then
      assert OccursAt(s, sub, r as nat);
      r
    else
      r
  }

  function FindFrom(s: string, sub: string, from: nat): (r: int)
    requires from <= |s|
    requires forall j: nat :: j < from ==> !OccursAt(s, sub, j)
    ensures -1 <= r
    ensures r == -1 ==> forall j: nat :: !OccursAt(s, sub, j)
    ensures r >= 0 ==> from <= r && IsFirstOccurrence(s, sub, r)
    decreases |s| - from
  {
    if OccursAt(s, sub, from) then from
    else if from == |s| then -1
    else FindFrom(s, sub, from + 1)
  }

  /** Puts the separator back between consecutive parts: the inverse of Split. */
  function Join(parts: seq<string>, sep: char): string
    requires |parts| >= 1
  {
    if |parts| == 1 then parts[0] else parts[0] + [sep] + Join(parts[1..], sep)
  }

  /** Python's `s.split(sep)` for a one-character separator: the pieces
      between consecutive separators, empty pieces included, so a text with
      k separators has k + 1 pieces. */
  function Split(s: string, sep: char): (parts: seq<string>)
    ensures |parts| >= 1
    ensures forall p :: p in parts ==> sep !in p
    ensures Join(parts, sep) == s
    decreases |s|
  {
    var k := IndexOf(s, sep);
    if k == -1 then
      [s]
    else
      var rest := Split(s[k + 1..], sep);
      JoinFirst(s[..k], rest, sep);
      assert s == s[..k] + [sep] + s[k + 1..];
      [s[..k]] + rest
  }

  /** The index of the first occurrence of the character `c`, or -1. */
  function IndexOf(s: string, c: char): (k: int)
    ensures -1 <= k < |s|
    ensures k == -1 ==> c !in s
    ensures k >= 0 ==> s[k] == c && c !in s[..k]
  {
    if |s| == 0 then -1
    else if s[0] == c then 0
    else
      var k := IndexOf(s[1..], c);
      if k == -1 then -1
      else
        assert s[..k + 1] == [s[0]] + s[1..][..k];
        k + 1
  }

  lemma JoinFirst(first: string, rest: seq<string>, sep: char)
    requires |rest| >= 1
    ensures Join([first] + rest, sep) == first + [sep] + Join(rest, sep)
  {
    assert ([first] + rest)[1..] == rest;
  }

  /** The index of the first line that contains `sub`, as Python's
      `next((line for line in lines if sub in line), None)` finds it. */
  function FirstContaining(lines: seq<string>, sub: string): (r: Option<nat>)
    ensures r.None? <==> forall i :: 0 <= i < |lines| ==> !Contains(lines[i], sub)
    ensures r.Some? ==> IsFirstWith(lines, sub, r.value)
  {
    FirstContainingFrom(lines, sub, 0)
  }

  /** Line `i` is the first of `lines` that contains `sub`. */
  predicate IsFirstWith(lines: seq<string>, sub: string, i: nat) {
    && i < |lines|
    && Contains(lines[i], sub)
    && forall j :: 0 <= j < i ==> !Contains(lines[j], sub)
  }

  function FirstContainingFrom(lines: seq<string>, sub: string, from: nat): (r: Option<nat>)
    requires from <= |lines|
    requires forall j :: 0 <= j < from ==> !Contains(lines[j], sub)
    ensures r.None? <==> forall i :: 0 <= i < |lines| ==> !Contains(lines[i], sub)
    ensures r.Some? ==> from <= r.value && IsFirstWith(lines, sub, r.value)
    decreases |lines| - from
  {
    if from == |lines| then None
    else if Contains(lines[from], sub) then Some(from)
    else FirstContainingFrom(lines, sub, from + 1)
  }

  /** An occurrence of a text without `sep` in it cannot straddle a `sep`. */
  lemma ContainsAroundSeparator(s: string, k: nat, sep: char, sub: string)
    requires k < |s| && s[k] == sep && sep !in sub
    ensures Contains(s, sub) <==> Contains(s[..k], sub) || Contains(s[k + 1..], sub)
  {
    if Contains(s, sub) {
      var i: nat :| i <= |s| && OccursAt(s, sub, i);
      if i + |sub| <= k {
        assert s[..k][i..i + |sub|] == s[i..i + |sub|];
        assert OccursAt(s[..k], sub, i);
      } else if i > k {
        assert s[k + 1..][i - k - 1..i - k - 1 + |sub|] == s[i..i + |sub|];
        assert OccursAt(s[k + 1..], sub, i - k - 1);
      }
    }
    if Contains(s[..k], sub) {
      var i: nat :| i <= k && OccursAt(s[..k], sub, i);
      assert s[..k][i..i + |sub|] == s[i..i + |sub|];
      assert OccursAt(s, sub, i);
    }
    if Contains(s[k + 1..], sub) {
      var i: nat :| i <= |s| - k - 1 && OccursAt(s[k + 1..], sub, i);
      assert s[k + 1..][i..i + |sub|] == s[k + 1 + i..k + 1 + i + |sub|];
      assert OccursAt(s, sub, k + 1 + i);
    }
  }

  /** When `sub` holds no separator, some piece of `s.split(sep)` contains
      `sub` exactly when `s` itself does. */
  lemma {:induction false} SplitContains(s: string, sep: char, sub: string)
    requires sep !in sub
    ensures FirstContaining(Split(s, sep), sub).Some? <==> Contains(s, sub)
    decreases |s|
  {
    var k := IndexOf(s, sep);
    var lines := Split(s, sep);
    if k == -1 {
      assert lines == [s];
    } else {
      var rest := Split(s[k + 1..], sep);
      assert lines == [s[..k]] + rest;
      SplitContains(s[k + 1..], sep, sub);
      ContainsAroundSeparator(s, k, sep, sub);
      if Contains(s, sub) {
        if !Contains(s[..k], sub) {
          var j := FirstContaining(rest, sub).value;
          assert lines[j + 1] == rest[j];
        }
      } else {
        forall i | 0 <= i < |lines| ensures !Contains(lines[i], sub) {
          if i > 0 {
            assert lines[i] == rest[i - 1];
          }
        }
      }
    }
  }

  /** The first piece ends at the first separator. */
  lemma SplitAtFirst(s: string, sep: char, k: nat)
    requires IndexOf(s, sep) == k
    ensures k < |s| && Split(s, sep) == [s[..k]] + Split(s[k + 1..], sep)
  {
  }

  /** A text without the separator, then the separator, is the first piece. */
  lemma SplitFirstPiece(a: string, sep: char, b: string)
    requires sep !in a
    ensures Split(a + [sep] + b, sep) == [a] + Split(b, sep)
  {
    var s := a + [sep] + b;
    var k := IndexOf(s, sep);
    assert s[|a|] == sep;
    assert s[..|a|] == a;
    assert !(k < |a|) && !(k > |a|) by {
      assert forall j :: 0 <= j < |a| ==> s[j] == a[j];
    }
    SplitAtFirst(s, sep, |a|);
    assert s[..|a|] == a;
    assert s[|a| + 1..] == b;
  }

  /** Joining pieces that hold no separator and splitting the result gives
      the pieces back: the other half of the round trip. */
  lemma {:induction false} SplitJoin(parts: seq<string>, sep: char)
    requires |parts| >= 1
    requires forall i :: 0 <= i < |parts| ==> sep !in parts[i]
    ensures Split(Join(parts, sep), sep) == parts
    decreases |parts|
  {
    if |parts| == 1 {
      SplitWithoutSeparator(parts[0], sep);
    } else {
      var first, rest := parts[0], parts[1..];
      assert parts == [first] + rest;
      JoinFirst(first, rest, sep);
      forall i | 0 <= i < |rest| ensures sep !in rest[i] {
        assert rest[i] == parts[i + 1];
      }
      SplitJoin(rest, sep);
      SplitFirstPiece(first, sep, Join(rest, sep));
    }
  }

  /** A text without the separator is a single piece. */
  lemma SplitWithoutSeparator(s: string, sep: char)
    requires sep !in s
    ensures Split(s, sep) == [s]
  {
  }
}
