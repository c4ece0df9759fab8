/**
 The four regular expressions of the extractor, each as a scanner with the
 leftmost, greedy, backtracking semantics of Python's `re` module:

   Hyphen     ([A-Za-z]{2,10})-(\d{1,6})            inside `@` segments
   Standard   ([A-Za-z]{2,10})-(\d{1,6})(?:-\d+)?   strategy 2 and the fallback
   Alnum      ([A-Za-z]{2,10})(\d{1,6})             strategy 3 and the fallback
   DigitFirst (\d{1,6})([A-Za-z]{2,10})             strategy 4, anchored with `^`

 `Accepts` is the reference: the ways the regular expression can read its two
 groups at a position. `MatchAt` is the scanner, and `MatchAtIsGreedy` proves that
 it returns exactly the reading a backtracking engine tries first.
 */
module Patterns {
  import opened Wrappers
  import opened Text

  datatype Pattern = Hyphen | Standard | Alnum | DigitFirst

  /** One match: group 0 is `s[start..end]`; `letters` and `digits` are the
      alphabetic and the numeric group (group 1 and 2, or 2 and 1 for DigitFirst). */
  datatype Match = Match(start: nat, end: nat, letters: string, digits: string)

  const MinLetters: nat := 2
  const MaxLetters: nat := 10
  const MaxDigits: nat := 6

  /** Number of characters between the two groups: the `-` of the hyphenated patterns. */
  function Gap(p: Pattern): (gap: nat) {
    if p == Hyphen || p == Standard then 1 else 0
  }

  /** The regular expression can read, at position `i`, `nl` letters and `nd`
      digits as its two groups (in the pattern's order, with its hyphen). */
  predicate Accepts(p: Pattern, s: string, i: nat, nl: nat, nd: nat) {
    && MinLetters <= nl <= MaxLetters && 1 <= nd <= MaxDigits
    && i + nl + Gap(p) + nd <= |s|
    && if p == DigitFirst then
         && (forall k :: i <= k < i + nd ==> IsDigit(s[k]))
         && (forall k :: i + nd <= k < i + nd + nl ==> IsLetter(s[k]))
       else
         && (forall k :: i <= k < i + nl ==> IsLetter(s[k]))
         && (Gap(p) == 1 ==> s[i + nl] == '-')
         && (forall k :: i + nl + Gap(p) <= k < i + nl + Gap(p) + nd ==> IsDigit(s[k]))
  }

  /** Greedy quantifiers: the engine tries a longer first group before a shorter
      one, and for the same first group a longer second group first. */
  predicate TriedFirst(p: Pattern, nl: nat, nd: nat, nl': nat, nd': nat) {
    if p == DigitFirst then nd > nd' || (nd == nd' && nl >= nl')
    else nl > nl' || (nl == nl' && nd >= nd')
  }

  /** What every match holds in its groups: 2 to 10 letters and 1 to 6 digits. */
  predicate Groups(m: Match) {
    && MinLetters <= |m.letters| <= MaxLetters && AllIn(m.letters, Letters)
    && 1 <= |m.digits| <= MaxDigits && AllIn(m.digits, Digits)
  }

  /** The match of pattern `p` that starts exactly at position `i`, if any. */
  function MatchAt(p: Pattern, s: string, i: nat): (r: Option<Match>)
    requires i <= |s|
    ensures r.Some? ==> r.value.start == i && i < r.value.end <= |s|
  {
    if p == DigitFirst then DigitFirstAt(s, i) else LetterFirstAt(p, s, i)
  }

  /** `(\d{1,6})([A-Za-z]{2,10})` at position `i`. */
  function DigitFirstAt(s: string, i: nat): (r: Option<Match>)
    requires i <= |s|
    ensures r.Some? ==> r.value.start == i && i < r.value.end <= |s|
  {
    var nd := RunLength(s, i, Digits);
    var run := RunLength(s, i + nd, Letters);
    if 1 <= nd <= MaxDigits && MinLetters <= run then
      var nl := Min(run, MaxLetters);
      Some(Match(i, i + nd + nl, s[i + nd..i + nd + nl], s[i..i + nd]))
    else None
  }

  /** The three letters-first patterns at position `i`. */
  function LetterFirstAt(p: Pattern, s: string, i: nat): (r: Option<Match>)
    requires p != DigitFirst && i <= |s|
    ensures r.Some? ==> r.value.start == i && i < r.value.end <= |s|
  {
    var nl := RunLength(s, i, Letters);
    var j := i + nl + Gap(p);
    if MinLetters <= nl <= MaxLetters && j < |s| && (Gap(p) == 1 ==> s[i + nl] == '-') && IsDigit(s[j]) then
      var e := j + Min(RunLength(s, j, Digits), MaxDigits);
      Some(Match(i, StandardTail(p, s, e), s[i..i + nl], s[j..e]))
    else None
  }

  /** End of the optional `(?:-\d+)?` of Standard after position `e`. */
  function StandardTail(p: Pattern, s: string, e: nat): (end: nat)
    requires e <= |s|
    ensures e <= end <= |s|
    ensures p != Standard ==> end == e
    ensures end > e ==> e + 1 < end && s[e] == '-'
  {
    if p == Standard && e + 1 < |s| && s[e] == '-' && IsDigit(s[e + 1])
    then e + 1 + RunLength(s, e + 1, Digits)
    else e
  }

  /** A match is one of the readings the regular expression allows, its groups
      are letters and digits of the allowed lengths, and a digits-first match
      takes the whole run of digits. */
  lemma MatchAtFacts(p: Pattern, s: string, i: nat)
    requires i <= |s| && MatchAt(p, s, i).Some?
    ensures Accepts(p, s, i, |MatchAt(p, s, i).value.letters|, |MatchAt(p, s, i).value.digits|)
    ensures Groups(MatchAt(p, s, i).value)
    ensures p == DigitFirst ==> |MatchAt(p, s, i).value.digits| == RunLength(s, i, Digits)
  {
    if p == DigitFirst {
      DigitFirstAccepts(s, i);
      DigitFirstGroups(s, i);
    } else {
      var m := LetterFirstAt(p, s, i).value;
      LetterFirstLengths(p, s, i);
      LetterFirstAccepts(p, s, i, |m.letters|, |m.digits|);
      LetterFirstGroups(p, s, i);
    }
  }

  lemma DigitFirstAccepts(s: string, i: nat)
    requires i <= |s| && DigitFirstAt(s, i).Some?
    ensures Accepts(DigitFirst, s, i, |DigitFirstAt(s, i).value.letters|, |DigitFirstAt(s, i).value.digits|)
    ensures |DigitFirstAt(s, i).value.digits| == RunLength(s, i, Digits)
  {
    var nd := RunLength(s, i, Digits);
    var nl := Min(RunLength(s, i + nd, Letters), MaxLetters);
    var m := DigitFirstAt(s, i).value;
    assert |m.letters| == nl && |m.digits| == nd;
    RunLengthSpan(s, i, Digits);
    RunLengthSpan(s, i + nd, Letters);
  }

  lemma DigitFirstGroups(s: string, i: nat)
    requires i <= |s| && DigitFirstAt(s, i).Some?
    ensures Groups(DigitFirstAt(s, i).value)
  {
    var nd := RunLength(s, i, Digits);
    var nl := Min(RunLength(s, i + nd, Letters), MaxLetters);
    RunLengthSpan(s, i, Digits);
    RunLengthSpan(s, i + nd, Letters);
    SliceAllIn(s, i + nd, i + nd + nl, Letters);
    SliceAllIn(s, i, i + nd, Digits);
  }

  lemma LetterFirstGroups(p: Pattern, s: string, i: nat)
    requires p != DigitFirst && i <= |s| && LetterFirstAt(p, s, i).Some?
    ensures Groups(LetterFirstAt(p, s, i).value)
  {
    var nl := RunLength(s, i, Letters);
    var j := i + nl + Gap(p);
    var nd := Min(RunLength(s, j, Digits), MaxDigits);
    RunLengthSpan(s, i, Letters);
    RunLengthSpan(s, j, Digits);
    SliceAllIn(s, i, i + nl, Letters);
    SliceAllIn(s, j, j + nd, Digits);
  }

  /** A stretch of `cls` characters, cut out of the text, is all `cls`. */
  lemma SliceAllIn(s: string, a: nat, b: nat, cls: CharClass)
    requires a <= b <= |s|
    requires forall k :: a <= k < b ==> cls.Has(s[k])
    ensures AllIn(s[a..b], cls)
  {
    forall k | 0 <= k < b - a ensures cls.Has(s[a..b][k]) {
      assert s[a..b][k] == s[a + k];
    }
  }

  lemma LetterFirstAccepts(p: Pattern, s: string, i: nat, nl: nat, nd: nat)
    requires p != DigitFirst && i <= |s|
    requires nl == RunLength(s, i, Letters) && MinLetters <= nl <= MaxLetters
    requires i + nl + Gap(p) < |s| && (Gap(p) == 1 ==> s[i + nl] == '-')
    requires nd == Min(RunLength(s, i + nl + Gap(p), Digits), MaxDigits) && nd >= 1
    ensures Accepts(p, s, i, nl, nd)
  {
    RunLengthSpan(s, i, Letters);
    RunLengthSpan(s, i + nl + Gap(p), Digits);
  }

  /** The scanner agrees with the backtracking engine: it fails exactly when no
      reading exists, and otherwise returns the reading the engine tries first. */
  lemma MatchAtIsGreedy(p: Pattern, s: string, i: nat)
    requires i <= |s|
    ensures MatchAt(p, s, i).None? <==> forall nl: nat, nd: nat :: !Accepts(p, s, i, nl, nd)
    ensures MatchAt(p, s, i).Some? ==>
      var m := MatchAt(p, s, i).value;
      forall nl: nat, nd: nat :: Accepts(p, s, i, nl, nd) ==> TriedFirst(p, |m.letters|, |m.digits|, nl, nd)
  {
    if MatchAt(p, s, i).Some? {
      MatchAtFacts(p, s, i);
    }
    forall nl: nat, nd: nat | Accepts(p, s, i, nl, nd)
      ensures MatchAt(p, s, i).Some?
      ensures TriedFirst(p, |MatchAt(p, s, i).value.letters|, |MatchAt(p, s, i).value.digits|, nl, nd)
    {
      if p == DigitFirst {
        DigitFirstGreedy(s, i, nl, nd);
      } else {
        LetterFirstGreedy(p, s, i, nl, nd);
      }
    }
  }

  lemma DigitFirstGreedy(s: string, i: nat, nl: nat, nd: nat)
    requires i <= |s| && Accepts(DigitFirst, s, i, nl, nd)
    ensures DigitFirstAt(s, i).Some?
    ensures TriedFirst(DigitFirst, |DigitFirstAt(s, i).value.letters|, |DigitFirstAt(s, i).value.digits|, nl, nd)
  {
    assert IsLetter(s[i + nd]);
    RunLengthIs(s, i, Digits, nd);
    RunLengthAtLeast(s, i + nd, Letters, nl);
  }

  lemma LetterFirstGreedy(p: Pattern, s: string, i: nat, nl: nat, nd: nat)
    requires p != DigitFirst && i <= |s| && Accepts(p, s, i, nl, nd)
    ensures LetterFirstAt(p, s, i).Some?
    ensures TriedFirst(p, |LetterFirstAt(p, s, i).value.letters|, |LetterFirstAt(p, s, i).value.digits|, nl, nd)
  {
    LetterFirstFound(p, s, i, nl, nd);
    RunLengthAtLeast(s, i + nl + Gap(p), Digits, nd);
    LetterFirstLengths(p, s, i);
  }

  lemma LetterFirstFound(p: Pattern, s: string, i: nat, nl: nat, nd: nat)
    requires p != DigitFirst && i <= |s| && Accepts(p, s, i, nl, nd)
    ensures RunLength(s, i, Letters) == nl
    ensures LetterFirstAt(p, s, i).Some?
  {
    assert IsDigit(s[i + nl + Gap(p)]);
    RunLengthIs(s, i, Letters, nl);
  }

  /** The letters-first scanner takes the whole run of letters and as many digits as allowed. */
  lemma LetterFirstLengths(p: Pattern, s: string, i: nat)
    requires p != DigitFirst && i <= |s| && LetterFirstAt(p, s, i).Some?
    ensures var m := LetterFirstAt(p, s, i).value;
      && |m.letters| == RunLength(s, i, Letters)
      && |m.digits| == Min(RunLength(s, i + |m.letters| + Gap(p), Digits), MaxDigits)
  {
  }

  /** Where the groups of a letters-first match sit in the text: the letters at
      the start, then the hyphen if any, then the digits; only Standard's
      optional tail can run past the digits. */
  lemma LetterFirstText(p: Pattern, s: string, i: nat)
    requires p != DigitFirst && i <= |s| && MatchAt(p, s, i).Some?
    ensures var m := MatchAt(p, s, i).value;
      var j := i + |m.letters| + Gap(p);
      && j + |m.digits| <= m.end
      && m.letters == s[i..i + |m.letters|]
      && m.digits == s[j..j + |m.digits|]
      && (p != Standard ==> m.end == j + |m.digits|)
      && (Gap(p) == 1 ==> s[i + |m.letters|] == '-')
  {
    LetterFirstLengths(p, s, i);
  }

  /** The text a letters-then-digits match covers is its two groups. */
  lemma AlnumText(s: string, m: Match)
    requires m.start <= |s| && MatchAt(Alnum, s, m.start) == Some(m)
    ensures m.end <= |s| && s[m.start..m.end] == m.letters + m.digits
  {
    LetterFirstText(Alnum, s, m.start);
    SliceSplit(s, m.start, m.start + |m.letters|, m.end);
  }

  /** The text a hyphenated match covers, up to its optional tail, is its two groups
      with the hyphen between them. */
  lemma StandardText(s: string, m: Match)
    requires m.start <= |s| && MatchAt(Standard, s, m.start) == Some(m)
    ensures m.start + |m.letters| + 1 + |m.digits| <= m.end <= |s|
    ensures s[m.start + |m.letters|] == '-'
    ensures s[m.start..m.start + |m.letters| + 1 + |m.digits|] == m.letters + "-" + m.digits
  {
    LetterFirstText(Standard, s, m.start);
    HyphenJoin(s, m.start, m.letters, m.digits);
  }

  /** The text a match of the plain hyphenated pattern covers is its two groups
      with the hyphen between them, and nothing more. */
  lemma HyphenText(s: string, m: Match)
    requires m.start <= |s| && MatchAt(Hyphen, s, m.start) == Some(m)
    ensures m.end == m.start + |m.letters| + 1 + |m.digits| <= |s|
    ensures s[m.start..m.end] == m.letters + "-" + m.digits
  {
    LetterFirstText(Hyphen, s, m.start);
    HyphenJoin(s, m.start, m.letters, m.digits);
  }

  lemma HyphenJoin(s: string, i: nat, l: string, d: string)
    requires i + |l| + 1 + |d| <= |s|
    requires s[i..i + |l|] == l && s[i + |l|] == '-' && s[i + |l| + 1..i + |l| + 1 + |d|] == d
    ensures s[i..i + |l| + 1 + |d|] == l + "-" + d
  {
    SliceSplit(s, i, i + |l|, i + |l| + 1 + |d|);
    SliceSplit(s, i + |l|, i + |l| + 1, i + |l| + 1 + |d|);
  }

  lemma SliceSplit(s: string, a: nat, b: nat, c: nat)
    requires a <= b <= c <= |s|
    ensures s[a..c] == s[a..b] + s[b..c]
  {
  }

  /** Where the groups of a digits-first match sit: the digits first, then the letters. */
  lemma DigitFirstText(s: string, i: nat)
    requires i <= |s| && MatchAt(DigitFirst, s, i).Some?
    ensures var m := MatchAt(DigitFirst, s, i).value;
      && m.end == i + |m.digits| + |m.letters|
      && m.digits == s[i..i + |m.digits|]
      && m.letters == s[i + |m.digits|..m.end]
  {
  }

  /** The optional `(?:-\d+)?` of Standard is greedy: it is taken whenever a `-`
      and a digit follow the second group, and then runs to the end of the digits. */
  lemma StandardTailIsGreedy(s: string, i: nat)
    requires i <= |s| && MatchAt(Standard, s, i).Some?
    ensures
      var m := MatchAt(Standard, s, i).value;
      var body := i + |m.letters| + 1 + |m.digits|;
      && (m.end > body <==> body + 1 < |s| && s[body] == '-' && IsDigit(s[body + 1]))
      && (m.end > body ==> m.end == |s| || !IsDigit(s[m.end]))
  {
  }

  /** What the engine finds when it tries pattern `p` at each position of `s`,
      from 0 to `|s|` included. */
  function Attempts(p: Pattern, s: string): (at: seq<Option<Match>>)
    ensures |at| == |s| + 1
    ensures forall k :: 0 <= k < |at| ==> at[k] == MatchAt(p, s, k)
    ensures Attempted(at)
  {
    seq(|s| + 1, k requires 0 <= k <= |s| => MatchAt(p, s, k))
  }

  /** Per-position attempts as a scanner produces them: an attempt at `k` starts
      at `k` and ends after it, within the text. */
  predicate Attempted(at: seq<Option<Match>>) {
    forall k :: 0 <= k < |at| && at[k].Some? ==> at[k].value.start == k < at[k].value.end < |at|
  }

  /** The leftmost successful attempt at or after `from`. */
  function SearchIn(at: seq<Option<Match>>, from: nat): (r: Option<Match>)
    requires Attempted(at) && from < |at|
    ensures r.Some? ==> from <= r.value.start < r.value.end < |at| && at[r.value.start] == r
    decreases |at| - from
  {
    if at[from].Some? then at[from]
    else if from == |at| - 1 then None
    else SearchIn(at, from + 1)
  }

  /** Every successful attempt, each search resuming where the previous one ended. */
  function FindAllIn(at: seq<Option<Match>>, from: nat): (ms: seq<Match>)
    requires Attempted(at) && from < |at|
    ensures forall k :: 0 <= k < |ms| ==> from <= ms[k].start < ms[k].end < |at|
    decreases |at| - from
  {
    match SearchIn(at, from)
    case None => []
    case Some(m) => [m] + FindAllIn(at, m.end)
  }

  /** `re.search`: the leftmost match of `p` starting at or after `from`. */
  function Search(p: Pattern, s: string, from: nat): (r: Option<Match>)
    requires from <= |s|
    ensures r.Some? ==> from <= r.value.start < r.value.end <= |s|
    ensures r.Some? ==> MatchAt(p, s, r.value.start) == r
  {
    SearchIn(Attempts(p, s), from)
  }

  /** `re.finditer`: every match, each search resuming where the previous match ended. */
  function FindAll(p: Pattern, s: string, from: nat): (ms: seq<Match>)
    requires from <= |s|
    ensures forall k :: 0 <= k < |ms| ==> from <= ms[k].start < ms[k].end <= |s|
  {
    FindAllIn(Attempts(p, s), from)
  }

  /** What `re.search` returns is a match of the pattern, with groups of the allowed shape. */
  lemma SearchFacts(p: Pattern, s: string, from: nat)
    requires from <= |s| && Search(p, s, from).Some?
    ensures Groups(Search(p, s, from).value)
    ensures Accepts(p, s, Search(p, s, from).value.start,
                    |Search(p, s, from).value.letters|, |Search(p, s, from).value.digits|)
  {
    MatchAtFacts(p, s, Search(p, s, from).value.start);
  }

  /** The first match of `re.finditer` is the one `re.search` finds, and the
      others are those found after it. */
  lemma FindAllStep(p: Pattern, s: string, from: nat)
    requires from <= |s|
    ensures Search(p, s, from).None? ==> FindAll(p, s, from) == []
    ensures Search(p, s, from).Some? ==>
      FindAll(p, s, from) == [Search(p, s, from).value] + FindAll(p, s, Search(p, s, from).value.end)
  {
  }

  /** `re.search` finds the leftmost match: no match starts between `from` and
      the one it returns, and none at all when it returns nothing. */
  lemma SearchIsLeftmost(p: Pattern, s: string, from: nat, k: nat)
    requires from <= k <= |s|
    requires Search(p, s, from).None? || k < Search(p, s, from).value.start
    ensures MatchAt(p, s, k).None?
  {
    var at := Attempts(p, s);
    SearchInIsLeftmost(at, from, k);
  }

  lemma {:induction false} SearchInIsLeftmost(at: seq<Option<Match>>, from: nat, k: nat)
    requires Attempted(at) && from <= k < |at|
    requires SearchIn(at, from).None? || k < SearchIn(at, from).value.start
    ensures at[k].None?
    decreases k - from
  {
    if from < k {
      SearchInIsLeftmost(at, from + 1, k);
    }
  }

  /** Every element of `re.finditer` is a match of the pattern where it starts. */
  lemma FindAllMatch(p: Pattern, s: string, from: nat, k: nat)
    requires from <= |s| && k < |FindAll(p, s, from)|
    ensures MatchAt(p, s, FindAll(p, s, from)[k].start) == Some(FindAll(p, s, from)[k])
  {
    var at := Attempts(p, s);
    FindAllInAttempts(at, from, k);
  }

  lemma {:induction false} FindAllInAttempts(at: seq<Option<Match>>, from: nat, k: nat)
    requires Attempted(at) && from < |at| && k < |FindAllIn(at, from)|
    ensures at[FindAllIn(at, from)[k].start] == Some(FindAllIn(at, from)[k])
    decreases k
  {
    var m := SearchIn(at, from).value;
    if k > 0 {
      FindAllInAttempts(at, m.end, k - 1);
    }
  }

  /** Each element of `re.finditer` starts no earlier than the previous one ended. */
  lemma FindAllOrdered(p: Pattern, s: string, from: nat, k: nat)
    requires from <= |s| && 0 < k < |FindAll(p, s, from)|
    ensures FindAll(p, s, from)[k - 1].end <= FindAll(p, s, from)[k].start
  {
    FindAllInOrdered(Attempts(p, s), from, k);
  }

  lemma {:induction false} FindAllInOrdered(at: seq<Option<Match>>, from: nat, k: nat)
    requires Attempted(at) && from < |at| && 0 < k < |FindAllIn(at, from)|
    ensures FindAllIn(at, from)[k - 1].end <= FindAllIn(at, from)[k].start
    decreases k
  {
    var m := SearchIn(at, from).value;
    if k > 1 {
      FindAllInOrdered(at, m.end, k - 1);
    }
  }

  /** Every pattern needs a digit: in text without one, `re.search` finds nothing
      and `re.finditer` yields nothing. */
  lemma NoDigitNoMatch(p: Pattern, s: string, from: nat)
    requires from <= |s| && forall k :: from <= k < |s| ==> !IsDigit(s[k])
    ensures Search(p, s, from).None? && FindAll(p, s, from) == []
  {
    if Search(p, s, from).Some? {
      SearchFacts(p, s, from);
    }
  }

  /** The hyphenated patterns need a `-`: in text without one they find nothing. */
  lemma NoHyphenNoMatch(p: Pattern, s: string, from: nat)
    requires p == Hyphen || p == Standard
    requires from <= |s| && '-' !in s[from..]
    ensures Search(p, s, from).None? && FindAll(p, s, from) == []
  {
    if Search(p, s, from).Some? {
      SearchFacts(p, s, from);
    }
  }
}
