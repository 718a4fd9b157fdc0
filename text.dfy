/**
 * The handful of Python `str` operations the core relies on: `strip()`,
 * `split(sep)`, `lower()`, `startswith`/`endswith`, `replace(pat, rep)` and
 * `str(n)` for integers.
 */
module Text {

  /** Python's `str.isspace()` on one character (the characters `strip()` removes). */
  predicate IsSpace(c: char) {
    || c == ' '
    || ('\t' <= c <= '\r')
    || ('\U{1c}' <= c <= '\U{1f}')
    || c == '\U{85}' || c == '\U{a0}' || c == '\U{1680}'
    || ('\U{2000}' <= c <= '\U{200a}')
    || c == '\U{2028}' || c == '\U{2029}' || c == '\U{202f}' || c == '\U{205f}' || c == '\U{3000}'
  }

  /** The first position at or after `from` that is not whitespace (`|s|` when there is none). */
  function SkipSpaces(s: string, from: nat): (i: nat)
    requires from <= |s|
    ensures from <= i <= |s|
    ensures i < |s| ==> !IsSpace(s[i])
    ensures forall k :: from <= k < i ==> IsSpace(s[k])
    decreases |s| - from
  {
    if from == |s| || !IsSpace(s[from]) then from else SkipSpaces(s, from + 1)
  }

  /** The end of `s[lo..hi]` once its trailing whitespace is dropped. */
  function BackSpaces(s: string, lo: nat, hi: nat): (j: nat)
    requires lo <= hi <= |s|
    ensures lo <= j <= hi
    ensures j > lo ==> !IsSpace(s[j - 1])
    ensures forall k :: j <= k < hi ==> IsSpace(s[k])
    decreases hi
  {
    if hi == lo || !IsSpace(s[hi - 1]) then hi else BackSpaces(s, lo, hi - 1)
  }

  /** `part` occurs in `s` starting at index `i`. */
  predicate OccursAt(s: string, part: string, i: int) {
    0 <= i <= |s| - |part| && s[i..i + |part|] == part
  }

  /**
   * `s.strip()`: the piece of `s` left once leading and trailing whitespace
   * are dropped; it neither starts nor ends with whitespace, and everything
   * outside it is whitespace.
   */
  function Strip(s: string): (r: string)
    ensures |r| <= |s|
    ensures r == [] || (!IsSpace(r[0]) && !IsSpace(r[|r| - 1]))
  {
    var i := SkipSpaces(s, 0);
    var j := BackSpaces(s, i, |s|);
    assert j > i ==> s[i..j][0] == s[i] && s[i..j][j - i - 1] == s[j - 1];
    s[i..j]
  }

  /** `Strip(s)` is the piece of `s` from its first non-whitespace character, with only whitespace around it. */
  lemma StripPiece(s: string)
    ensures OccursAt(s, Strip(s), SkipSpaces(s, 0))
    ensures forall k :: 0 <= k < |s| && (k < SkipSpaces(s, 0) || SkipSpaces(s, 0) + |Strip(s)| <= k) ==> IsSpace(s[k])
  {
    var i := SkipSpaces(s, 0);
    var j := BackSpaces(s, i, |s|);
    assert Strip(s) == s[i..j];
    assert s[i..i + |s[i..j]|] == s[i..j];
  }

  /** A character of `Strip(s)` is a character of `s`. */
  lemma StripKeeps(s: string, c: char)
    ensures c in Strip(s) ==> c in s
  {
    var r := Strip(s);
    StripPiece(s);
    if c in r {
      var i := SkipSpaces(s, 0);
      var k :| 0 <= k < |r| && r[k] == c;
      assert s[i..i + |r|][k] == s[i + k];
    }
  }

  /** Stripping an already stripped string changes nothing. */
  lemma StripIdempotent(s: string)
    ensures Strip(Strip(s)) == Strip(s)
  {
    var r := Strip(s);
    assert SkipSpaces(r, 0) == 0;
    assert BackSpaces(r, 0, |r|) == |r|;
    assert r[0..|r|] == r;
  }

  /** Python's `s.split(sep)` with an explicit one-character separator. */
  function Split(s: string, sep: char): (r: seq<string>)
    ensures |r| >= 1
    ensures forall k :: 0 <= k < |r| ==> sep !in r[k]
  {
    if s == [] then [""]
    else
      var rest := Split(s[1..], sep);
      if s[0] == sep then [""] + rest else [[s[0]] + rest[0]] + rest[1..]
  }

  /** `sep.join(parts)`, the inverse of `Split`: the parts in order with one separator between neighbours. */
  function Join(parts: seq<string>, sep: char): string
    requires |parts| >= 1
  {
    if |parts| == 1 then parts[0] else parts[0] + [sep] + Join(parts[1..], sep)
  }

  /** Splitting and joining again gives back the original text. */
  lemma {:induction false} JoinSplit(s: string, sep: char)
    ensures Join(Split(s, sep), sep) == s
  {
    if s == [] {
      assert Split(s, sep) == [""];
    } else {
      var rest := Split(s[1..], sep);
      var r := Split(s, sep);
      JoinSplit(s[1..], sep);
      if s[0] == sep {
        assert r == [""] + rest;
        assert r[1..] == rest;
        assert Join(r, sep) == [sep] + Join(rest, sep);
      } else if |rest| == 1 {
        assert r == [[s[0]] + rest[0]];
        assert Join(r, sep) == [s[0]] + rest[0];
      } else {
        assert r == [[s[0]] + rest[0]] + rest[1..];
        assert r[1..] == rest[1..];
        assert Join(r, sep) == [s[0]] + rest[0] + [sep] + Join(rest[1..], sep);
        assert Join(rest, sep) == rest[0] + [sep] + Join(rest[1..], sep);
      }
    }
  }

  /** Python's `str.lower()` restricted to ASCII letters. */
  function LowerChar(c: char): (d: char)
    ensures !('A' <= d <= 'Z')
    ensures 'A' <= c <= 'Z' ==> d as int == c as int + 32
    ensures !('A' <= c <= 'Z') ==> d == c
  {
    if 'A' <= c <= 'Z' then (c as int + 32) as char else c
  }

  function Lower(s: string): (r: string)
    ensures |r| == |s|
    ensures forall i :: 0 <= i < |s| ==> r[i] == LowerChar(s[i])
  {
    seq(|s|, i requires 0 <= i < |s| => LowerChar(s[i]))
  }

  predicate StartsWith(s: string, prefix: string) {
    |prefix| <= |s| && s[..|prefix|] == prefix
  }

  predicate EndsWith(s: string, suffix: string) {
    |suffix| <= |s| && s[|s| - |suffix|..] == suffix
  }

  /** `s.replace(pat, rep)`: every non-overlapping occurrence, scanned left to right. */
  function ReplaceAll(s: string, pat: string, rep: string): (r: string)
    requires pat != []
    ensures |s| < |pat| ==> r == s
    ensures StartsWith(s, pat) ==> StartsWith(r, rep)
    ensures |rep| == |pat| ==> |r| == |s|
    ensures |rep| <= |pat| ==> |r| <= |s|
    decreases |s|
  {
    if |s| < |pat| then s
    else if s[..|pat|] == pat then rep + ReplaceAll(s[|pat|..], pat, rep)
    else [s[0]] + ReplaceAll(s[1..], pat, rep)
  }

  /** Replacing one character by another works position by position. */
  lemma {:induction false} ReplaceCharAt(s: string, a: char, b: char)
    ensures |ReplaceAll(s, [a], [b])| == |s|
    ensures forall i :: 0 <= i < |s| ==> ReplaceAll(s, [a], [b])[i] == (if s[i] == a then b else s[i])
  {
    if s != [] {
      ReplaceCharAt(s[1..], a, b);
      assert s[..1] == [s[0]];
    }
  }

  /** A text without any occurrence of `pat` is left as it is. */
  lemma {:induction false} ReplaceAbsent(s: string, pat: string, rep: string)
    requires pat != []
    requires forall i :: !OccursAt(s, pat, i)
    ensures ReplaceAll(s, pat, rep) == s
  {
    if |s| >= |pat| {
      assert !OccursAt(s, pat, 0);
      forall i ensures !OccursAt(s[1..], pat, i)
      {
        if 0 <= i <= |s[1..]| - |pat| {
          assert s[1..][i..i + |pat|] == s[i + 1..i + 1 + |pat|];
          assert !OccursAt(s, pat, i + 1);
        }
      }
      ReplaceAbsent(s[1..], pat, rep);
    }
  }

  /** The decimal digit for `d`. */
  function Digit(d: nat): (c: char)
    requires d < 10
    ensures '0' <= c <= '9'
  {
    (48 + d) as char
  }

  /** `str(n)` for a natural number. */
  function NatToString(n: nat): (r: string)
    ensures |r| >= 1
    ensures forall k :: 0 <= k < |r| ==> '0' <= r[k] <= '9'
    ensures (|r| == 1) == (n < 10)
  {
    if n < 10 then [Digit(n)] else NatToString(n / 10) + [Digit(n % 10)]
  }

  /** `str(n)` for any integer: a minus sign exactly for negative numbers, then the digits of the magnitude. */
  function IntToString(n: int): (r: string)
    ensures |r| >= 1
    ensures (r[0] == '-') == (n < 0)
    ensures n < 0 ==> r[1..] == NatToString(-n) && DecimalValue(r[1..]) == -n
    ensures n >= 0 ==> r == NatToString(n) && DecimalValue(r) == n
  {
    NatToStringValue(if n < 0 then -n else n);
    assert n < 0 ==> ("-" + NatToString(-n))[1..] == NatToString(-n);
    if n < 0 then "-" + NatToString(-n) else NatToString(n)
  }

  /** The number a string of decimal digits denotes. */
  function DecimalValue(s: string): nat
    requires forall k :: 0 <= k < |s| ==> '0' <= s[k] <= '9'
  {
    if s == [] then 0 else 10 * DecimalValue(s[..|s| - 1]) + (s[|s| - 1] as int - '0' as int)
  }

  /** The digits `str(n)` prints denote `n`. */
  lemma {:induction false} NatToStringValue(n: nat)
    ensures DecimalValue(NatToString(n)) == n
  {
    var r := NatToString(n);
    if n >= 10 {
      NatToStringValue(n / 10);
      assert r[..|r| - 1] == NatToString(n / 10);
    }
  }

  /** Different numbers print differently. */
  lemma {:induction false} NatToStringInjective(m: nat, n: nat)
    requires NatToString(m) == NatToString(n)
    ensures m == n
  {
    if m >= 10 && n >= 10 {
      var sm, sn := NatToString(m), NatToString(n);
      assert sm[..|sm| - 1] == NatToString(m / 10);
      assert sn[..|sn| - 1] == NatToString(n / 10);
      NatToStringInjective(m / 10, n / 10);
      assert Digit(m % 10) == sm[|sm| - 1] == sn[|sn| - 1] == Digit(n % 10);
    } else if m < 10 && n < 10 {
      assert Digit(m) == NatToString(m)[0] == NatToString(n)[0] == Digit(n);
    }
  }
}
