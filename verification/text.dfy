/** The Option type the extractor returns (Python's `None` or a string). */
module Wrappers {
  datatype Option<+T> = None | Some(value: T)
}

/**
 Character classes, case mapping and substring tests on strings, restricted to
 ASCII: `[A-Za-z]`, `[0-9]`, `str.upper()`/`str.lower()` on ASCII text and
 Python's `in` / `startswith` on strings.
 */
module Text {

  predicate IsLetter(c: char) { 'A' <= c <= 'Z' || 'a' <= c <= 'z' }
  predicate IsUpperLetter(c: char) { 'A' <= c <= 'Z' }
  predicate IsDigit(c: char) { '0' <= c <= '9' }
  predicate IsAlnum(c: char) { IsLetter(c) || IsDigit(c) }

  /** The two character classes the designator patterns are built from. */
  datatype CharClass = Letters | Digits {
    predicate Has(c: char) {
      match this
      case Letters => IsLetter(c)
      case Digits => IsDigit(c)
    }
  }

  predicate AllIn(s: string, cls: CharClass) {
    forall k :: 0 <= k < |s| ==> cls.Has(s[k])
  }

  /** Python's `isalpha()` / `isdigit()` on ASCII text: non-empty and every character in the class. */
  predicate IsAlphaText(s: string) { |s| > 0 && AllIn(s, Letters) }
  predicate IsDigitText(s: string) { |s| > 0 && AllIn(s, Digits) }
  /** Python's `isalnum()` on ASCII text. */
  predicate IsAlnumText(s: string) { |s| > 0 && forall k :: 0 <= k < |s| ==> IsAlnum(s[k]) }

  function Min(a: int, b: int): (m: int) { if a <= b then a else b }
  function Max(a: int, b: int): (m: int) { if a <= b then b else a }

  /** Length of the maximal run of `cls` characters starting at position `i`. */
  function RunLength(s: string, i: nat, cls: CharClass): (n: nat)
    requires i <= |s|
    ensures i + n <= |s|
    ensures i + n == |s| || !cls.Has(s[i + n])
    decreases |s| - i
  {
    if i < |s| && cls.Has(s[i]) then 1 + RunLength(s, i + 1, cls) else 0
  }

  /** Every character of the run is in the class. */
  lemma {:induction false} RunLengthSpan(s: string, i: nat, cls: CharClass)
    requires i <= |s|
    ensures forall k :: i <= k < i + RunLength(s, i, cls) ==> cls.Has(s[k])
    decreases |s| - i
  {
    if i < |s| && cls.Has(s[i]) {
      RunLengthSpan(s, i + 1, cls);
    }
  }

  /** A run is determined by its end: whatever `n` delimits a maximal run is the run length. */
  lemma {:induction false} RunLengthIs(s: string, i: nat, cls: CharClass, n: nat)
    requires i + n <= |s|
    requires forall k :: i <= k < i + n ==> cls.Has(s[k])
    requires i + n == |s| || !cls.Has(s[i + n])
    ensures RunLength(s, i, cls) == n
    decreases n
  {
    if n > 0 {
      RunLengthIs(s, i + 1, cls, n - 1);
    }
  }

  /** A run is at least as long as any stretch of `cls` characters starting at `i`. */
  lemma {:induction false} RunLengthAtLeast(s: string, i: nat, cls: CharClass, n: nat)
    requires i + n <= |s|
    requires forall k :: i <= k < i + n ==> cls.Has(s[k])
    ensures RunLength(s, i, cls) >= n
    decreases n
  {
    if n > 0 {
      RunLengthAtLeast(s, i + 1, cls, n - 1);
    }
  }

  function ToUpper(c: char): (u: char)
    ensures IsLetter(c) ==> IsUpperLetter(u)
    ensures !IsLetter(c) ==> u == c
    ensures IsDigit(u) <==> IsDigit(c)
  {
    if 'a' <= c <= 'z' then (c as int - 32) as char else c
  }

  function ToLower(c: char): (l: char)
    ensures IsLetter(c) ==> 'a' <= l <= 'z'
    ensures !IsLetter(c) ==> l == c
  {
    if 'A' <= c <= 'Z' then (c as int + 32) as char else c
  }

  /** `str.upper()` on ASCII text. */
  function Upper(s: string): (r: string)
    ensures |r| == |s|
    ensures forall k :: 0 <= k < |s| ==> r[k] == ToUpper(s[k])
  {
    if s == [] then [] else [ToUpper(s[0])] + Upper(s[1..])
  }

  /** Upper-casing works character by character. */
  lemma UpperConcat(a: string, b: string)
    ensures Upper(a + b) == Upper(a) + Upper(b)
  {
    assert |Upper(a + b)| == |Upper(a) + Upper(b)|;
    forall k | 0 <= k < |a + b| ensures Upper(a + b)[k] == (Upper(a) + Upper(b))[k] {
      if k >= |a| {
        assert (a + b)[k] == b[k - |a|];
      }
    }
  }

  /** Text without lower-case letters is left alone by upper-casing. */
  lemma UpperFixes(s: string)
    requires forall k :: 0 <= k < |s| ==> !('a' <= s[k] <= 'z')
    ensures Upper(s) == s
  {
  }

  /** `str.lower()`; only ASCII letters change (see README on non-ASCII text). */
  function Lower(s: string): (r: string)
    ensures |r| == |s|
    ensures forall k :: 0 <= k < |s| ==> r[k] == ToLower(s[k])
  {
    if s == [] then [] else [ToLower(s[0])] + Lower(s[1..])
  }

  /** Text without upper-case letters is left alone by lower-casing. */
  lemma LowerFixes(s: string)
    requires forall k :: 0 <= k < |s| ==> !('A' <= s[k] <= 'Z')
    ensures Lower(s) == s
  {
  }

  /** Upper-casing and then lower-casing gives back the lower-case form, so a
      stop-word test on the upper-cased designator prefix agrees with the test on the match. */
  lemma LowerUpper(s: string)
    ensures Lower(Upper(s)) == Lower(s)
  {
    var a, b := Lower(Upper(s)), Lower(s);
    forall k | 0 <= k < |s| ensures a[k] == b[k] {
      var c := s[k];
      if 'a' <= c <= 'z' {
        assert ToUpper(c) as int == c as int - 32;
      }
    }
  }

  /** Python's `s.startswith(t)`. */
  predicate StartsWith(s: string, t: string) {
    |t| <= |s| && s[..|t|] == t
  }

  /** Python's `t in s` on strings. */
  predicate Contains(s: string, t: string)
    decreases |s|
  {
    StartsWith(s, t) || (|s| > 0 && Contains(s[1..], t))
  }

  /** A character that occurs nowhere in the text is not `in` it. */
  lemma Lacks(s: string, c: char)
    requires forall k :: 0 <= k < |s| ==> s[k] != c
    ensures c !in s
  {
  }

  /** Text that lacks the first character of `t` does not contain `t`. */
  lemma {:induction false} LacksFirstChar(s: string, t: string)
    requires |t| > 0 && forall k :: 0 <= k < |s| ==> s[k] != t[0]
    ensures !Contains(s, t)
    decreases |s|
  {
    if |t| <= |s| {
      assert s[..|t|][0] != t[0];
    }
    if |s| > 0 {
      LacksFirstChar(s[1..], t);
    }
  }
}
