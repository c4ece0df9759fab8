/**
 `extract_code`: recover a designator such as `ABC-123` or `ABC123` from a file
 name. The extension is stripped, then five strategies are tried in a fixed order
 and the first one that produces a code wins:

   1. the `@` segments of the stem, left to right;
   2. the first hyphenated match, unless it looks like a URL or has a stop-word prefix;
   3. the first letters-then-digits match, unless its surroundings look like a URL
      or it has a stop-word prefix;
   4. digits-then-letters at the very start of the stem, reordered;
   5. a scored search over every match of the patterns of 2 and 3.

 Each strategy is a function here; `Extract` is the cascade, and the method
 `ExtractCode` runs it with the loops of the original (the segment loop and the
 two `finditer` loops) and is proved to compute `Extract`.
 */
module Extractor {
  import opened Wrappers
  import opened Text
  import opened Patterns
  import opened PathNames

  /** Prefixes that are never accepted by strategies 2-4 and the fallback. */
  const StopWords: seq<string> := ["start", "end", "part", "vol", "img", "pic", "file", "doc", "test", "disk", "disc"]
  /** The shorter list of the hyphenated `@` branch: "disk" and "disc" are missing. */
  const AtStopWords: seq<string> := ["start", "end", "part", "vol", "img", "pic", "file", "doc", "test"]
  /** URL markers looked for within 5 characters of a strategy-3 match. */
  const NearUrlMarkers: seq<string> := ["http", "www", ".com"]
  /** URL markers looked for within 10 characters of a fallback match. */
  const UrlMarkers: seq<string> := ["http", "https", "www", ".com", ".net", ".org"]

  /** `any(w in s for w in words)`. */
  predicate ContainsAny(s: string, words: seq<string>) {
    |words| > 0 && (Contains(s, words[0]) || ContainsAny(s, words[1..]))
  }

  /** `s[max(0, m.start - k):m.end + k]`: the match with `k` characters of context on each side. */
  function Window(s: string, m: Match, k: nat): (w: string)
    requires m.start <= m.end <= |s|
  {
    s[Max(0, m.start - k)..Min(|s|, m.end + k)]
  }

  // ---------------------------------------------------------------------------
  // The shape of every result

  /** `[A-Z]{2,10}-?[0-9]{1,6}` matched against the whole string. */
  predicate IsDesignator(c: string) {
    var nl := RunLength(c, 0, Letters);
    var rest := if nl < |c| && c[nl] == '-' then c[nl + 1..] else c[nl..];
    && MinLetters <= nl <= MaxLetters
    && (forall k :: 0 <= k < nl ==> IsUpperLetter(c[k]))
    && 1 <= |rest| <= MaxDigits
    && AllIn(rest, Digits)
  }

  /** The alphabetic prefix of a designator. */
  function Prefix(c: string): (p: string) {
    c[..RunLength(c, 0, Letters)]
  }

  /** Letters as found, upper-cased, then an optional hyphen, then the digits: the
      f-strings of the strategies. */
  function Format(letters: string, hyphen: bool, digits: string): (c: string)
    requires MinLetters <= |letters| <= MaxLetters && AllIn(letters, Letters)
    requires 1 <= |digits| <= MaxDigits && AllIn(digits, Digits)
    ensures IsDesignator(c)
    ensures Prefix(c) == Upper(letters) && Lower(Prefix(c)) == Lower(letters)
    ensures ('-' in c) == hyphen
    ensures |c| == |letters| + (if hyphen then 1 else 0) + |digits|
    ensures c[|c| - |digits|..] == digits
  {
    var c := Upper(letters) + (if hyphen then "-" else "") + digits;
    RunLengthIs(c, 0, Letters, |letters|);
    assert c[..|letters|] == Upper(letters);
    LowerUpper(letters);
    assert !hyphen ==> forall k :: 0 <= k < |c| ==> c[k] != '-';
    assert hyphen ==> c[|letters|] == '-';
    c
  }

  /** Upper-casing the fallback's candidate text gives the same designator as `Format`. */
  lemma UpperIsFormat(letters: string, hyphen: bool, digits: string)
    requires MinLetters <= |letters| <= MaxLetters && AllIn(letters, Letters)
    requires 1 <= |digits| <= MaxDigits && AllIn(digits, Digits)
    ensures Upper(letters + (if hyphen then "-" else "") + digits) == Format(letters, hyphen, digits)
  {
    var sep := if hyphen then "-" else "";
    UpperConcat(letters + sep, digits);
    UpperConcat(letters, sep);
    UpperFixes(sep);
    UpperFixes(digits);
  }

  // ---------------------------------------------------------------------------
  // Strategy 1: the `@` segments

  /** `re.sub(r'[^A-Za-z0-9]', '', s)`: every ASCII letter and digit, in order.
      With `KeepAlnumConcat` the two identity clauses pin it down on every text. */
  function KeepAlnum(s: string): (r: string)
    ensures |r| <= |s|
    ensures forall k :: 0 <= k < |r| ==> IsAlnum(r[k]) && r[k] in s
    ensures (forall k :: 0 <= k < |s| ==> IsAlnum(s[k])) ==> r == s
    ensures (forall k :: 0 <= k < |s| ==> !IsAlnum(s[k])) ==> r == []
  {
    if s == [] then []
    else (if IsAlnum(s[0]) then [s[0]] else []) + KeepAlnum(s[1..])
  }

  /** Cleaning works piece by piece: the cleaned text of `a + b` is the cleaned
      `a` followed by the cleaned `b`, so nothing kept is dropped or reordered. */
  lemma {:induction false} KeepAlnumConcat(a: string, b: string)
    ensures KeepAlnum(a + b) == KeepAlnum(a) + KeepAlnum(b)
    decreases |a|
  {
    if a != [] {
      assert (a + b)[1..] == a[1..] + b;
      KeepAlnumConcat(a[1..], b);
    } else {
      assert a + b == b;
    }
  }

  /** `re.match(r'^[A-Za-z]{2,10}[0-9]{1,6}$', t, re.IGNORECASE)`. */
  predicate IsBareCode(t: string) {
    var nl := RunLength(t, 0, Letters);
    MinLetters <= nl <= MaxLetters && 1 <= |t| - nl <= MaxDigits && forall k :: nl <= k < |t| ==> IsDigit(t[k])
  }

  /** The anchored check accepts exactly the strings that one reading of the
      letters-then-digits pattern covers from end to end. */
  lemma BareCodeIsWholeMatch(t: string)
    ensures IsBareCode(t) <==> exists nl: nat, nd: nat :: Accepts(Alnum, t, 0, nl, nd) && nl + nd == |t|
  {
    var run := RunLength(t, 0, Letters);
    RunLengthSpan(t, 0, Letters);
    if IsBareCode(t) {
      assert Accepts(Alnum, t, 0, run, |t| - run);
    }
    if nl: nat, nd: nat :| Accepts(Alnum, t, 0, nl, nd) && nl + nd == |t| {
      assert IsDigit(t[nl]);
      RunLengthIs(t, 0, Letters, nl);
    }
  }

  /** The first hyphenated match in a segment, unless its prefix is on the short
      stop list; the code is the match upper-cased (`HyphenSegmentTakesMatch`). */
  function HyphenSegmentCode(part: string): (r: Option<string>)
    ensures r.Some? ==> IsDesignator(r.value) && '-' in r.value
    ensures r.Some? ==> Lower(Prefix(r.value)) !in AtStopWords
    ensures r.Some? <==>
      Search(Hyphen, part, 0).Some? && Lower(Search(Hyphen, part, 0).value.letters) !in AtStopWords
  {
    match Search(Hyphen, part, 0)
    case None => None
    case Some(m) =>
      SearchFacts(Hyphen, part, 0);
      if Lower(m.letters) !in AtStopWords then Some(Format(m.letters, true, m.digits)) else None
  }

  /** The segment's code is the text of its first hyphenated match, upper-cased. */
  lemma HyphenSegmentTakesMatch(part: string, m: Match)
    requires Search(Hyphen, part, 0) == Some(m) && HyphenSegmentCode(part).Some?
    ensures m.end <= |part| && HyphenSegmentCode(part).value == Upper(part[m.start..m.end])
  {
    SearchFacts(Hyphen, part, 0);
    HyphenText(part, m);
    UpperIsFormat(m.letters, true, m.digits);
  }

  /** The segment stripped to letters and digits, upper-cased, if that is letters
      then digits; no stop list applies here. */
  function CleanSegmentCode(part: string): (r: Option<string>)
    ensures r.Some? ==> IsDesignator(r.value) && '-' !in r.value
    ensures r.Some? <==> IsBareCode(KeepAlnum(part))
    ensures r.Some? ==> r.value == Upper(KeepAlnum(part))
  {
    var clean := KeepAlnum(part);
    if IsBareCode(clean) then
      BareCodeFormat(clean);
      Some(Upper(clean))
    else None
  }

  /** Upper-casing a bare code formats it without a hyphen. */
  lemma BareCodeFormat(t: string)
    requires IsBareCode(t)
    ensures var nl := RunLength(t, 0, Letters);
      MinLetters <= nl <= MaxLetters && AllIn(t[..nl], Letters)
      && 1 <= |t[nl..]| <= MaxDigits && AllIn(t[nl..], Digits)
      && Upper(t) == Format(t[..nl], false, t[nl..])
  {
    var nl := RunLength(t, 0, Letters);
    RunLengthSpan(t, 0, Letters);
    var letters, digits := t[..nl], t[nl..];
    assert AllIn(letters, Letters);
    assert AllIn(digits, Digits);
    assert t == letters + "" + digits;
    UpperIsFormat(letters, false, digits);
  }

  /** The designator one `@` segment yields: the hyphenated search is tried
      first, and the cleaned segment only when that gives nothing. */
  function SegmentCode(part: string): (r: Option<string>)
    ensures r.Some? ==> IsDesignator(r.value)
    ensures r.Some? && '-' in r.value ==> Lower(Prefix(r.value)) !in AtStopWords
    ensures HyphenSegmentCode(part).Some? ==> r == HyphenSegmentCode(part)
    ensures HyphenSegmentCode(part).None? ==> r == CleanSegmentCode(part)
    ensures r.Some? <==> HyphenSegmentCode(part).Some? || IsBareCode(KeepAlnum(part))
  {
    if HyphenSegmentCode(part).Some? then HyphenSegmentCode(part) else CleanSegmentCode(part)
  }

  /** The segments are tried left to right and the first one that yields a
      designator decides. */
  function FirstSegmentCode(parts: seq<string>): (r: Option<string>)
    ensures r.Some? ==> (exists k :: 0 <= k < |parts| && SegmentCode(parts[k]) == r
                                     && forall j :: 0 <= j < k ==> SegmentCode(parts[j]).None?)
    ensures r.None? <==> forall k :: 0 <= k < |parts| ==> SegmentCode(parts[k]).None?
  {
    if parts == [] then None
    else if SegmentCode(parts[0]).Some? then SegmentCode(parts[0])
    else
      var r := FirstSegmentCode(parts[1..]);
      assert forall k :: 1 <= k < |parts| ==> parts[k] == parts[1..][k - 1];
      if r.Some? then
        var k :| 0 <= k < |parts[1..]| && SegmentCode(parts[1..][k]) == r
          && forall j :: 0 <= j < k ==> SegmentCode(parts[1..][j]).None?;
        assert SegmentCode(parts[k + 1]) == r;
        r
      else r
  }

  // ---------------------------------------------------------------------------
  // Strategies 2-4

  /** The first hyphenated match, with any `-digits` tail dropped, unless it looks
      like a URL or its prefix is a stop word. */
  function StandardStep(stem: string): (r: Option<string>)
    ensures r.Some? ==> IsDesignator(r.value) && '-' in r.value
    ensures r.Some? ==> Lower(Prefix(r.value)) !in StopWords
  {
    match Search(Standard, stem, 0)
    case None => None
    case Some(m) =>
      SearchFacts(Standard, stem, 0);
      var whole := stem[m.start..m.end];
      if !StartsWith(whole, "http") && !Contains(whole, "www") && Lower(m.letters) !in StopWords
      then Some(Format(m.letters, true, m.digits))
      else None
  }

  /** The first letters-then-digits match, kept without a hyphen, unless a URL
      marker is near or its prefix is a stop word. */
  function AlnumStep(stem: string): (r: Option<string>)
    ensures r.Some? ==> IsDesignator(r.value) && '-' !in r.value
    ensures r.Some? ==> Lower(Prefix(r.value)) !in StopWords
  {
    match Search(Alnum, stem, 0)
    case None => None
    case Some(m) =>
      SearchFacts(Alnum, stem, 0);
      var context := Lower(Window(stem, m, 5));
      if !ContainsAny(context, NearUrlMarkers) && Lower(m.letters) !in StopWords
      then Some(Format(m.letters, false, m.digits))
      else None
  }

  /** Digits then letters at the very start of the stem, given back letters first. */
  function DigitFirstStep(stem: string): (r: Option<string>)
    ensures r.Some? ==> IsDesignator(r.value) && '-' !in r.value
    ensures r.Some? ==> Lower(Prefix(r.value)) !in StopWords
  {
    match MatchAt(DigitFirst, stem, 0)
    case None => None
    case Some(m) =>
      MatchAtFacts(DigitFirst, stem, 0);
      if MinLetters <= |m.letters| <= MaxLetters && Lower(m.letters) !in StopWords
      then Some(Format(m.letters, false, m.digits))
      else None
  }

  // ---------------------------------------------------------------------------
  // Strategy 5: the scored fallback

  /** An entry of `all_matches`: a score and the text that will be upper-cased. */
  datatype Candidate = Candidate(score: int, text: string)

  /** `^[0-9]+start` or `^start[0-9]+` found in the lower-cased match. */
  predicate InvalidShape(t: string) {
    var nd := RunLength(t, 0, Digits);
    (nd >= 1 && StartsWith(t[nd..], "start")) || (StartsWith(t, "start") && |t| > 5 && IsDigit(t[5]))
  }

  /** The body of the inner `finditer` loop for one match: the candidate it
      appends, if any. A match is dropped when it is start-shaped or a URL marker
      is within ten characters; a kept one scores 30 exactly when it has a hyphen
      and 15 otherwise. */
  function Score(stem: string, m: Match): (c: Option<Candidate>)
    requires m.start <= m.end <= |stem|
    ensures c.Some? ==> !InvalidShape(Lower(stem[m.start..m.end]))
    ensures c.Some? ==> !ContainsAny(Lower(Window(stem, m, 10)), UrlMarkers)
    ensures c.Some? ==> c.value.score == 30 || c.value.score == 15
    ensures c.Some? ==> (c.value.score == 30 <==> '-' in stem[m.start..m.end])
  {
    var whole := stem[m.start..m.end];
    if InvalidShape(Lower(whole)) then None
    else if ContainsAny(Lower(Window(stem, m, 10)), UrlMarkers) then None
    else if '-' in whole then
      if IsAlphaText(m.letters) && IsDigitText(m.digits) && Lower(m.letters) !in StopWords
         && MinLetters <= |m.letters| <= MaxLetters && 1 <= |m.digits| <= MaxDigits
      then Some(Candidate(10 + 20, m.letters + "-" + m.digits))
      else None
    else if IsAlnumText(whole) && !IsDigitText(whole) && !IsAlphaText(whole) then
      var alpha := if IsDigitText(m.letters) then m.digits else m.letters;
      var num := if IsDigitText(m.letters) then m.letters else m.digits;
      if Lower(alpha) !in StopWords && MinLetters <= |alpha| <= MaxLetters && 1 <= |num| <= MaxDigits
      then Some(Candidate(15, whole))
      else None
    else None
  }

  predicate InBounds(stem: string, ms: seq<Match>) {
    forall k :: 0 <= k < |ms| ==> ms[k].start <= ms[k].end <= |stem|
  }

  /** The candidates the loop appends for the matches `ms`, in order. */
  function Scored(stem: string, ms: seq<Match>): (cs: seq<Candidate>)
    requires InBounds(stem, ms)
    ensures |cs| <= |ms|
  {
    if ms == [] then []
    else
      var init := Scored(stem, ms[..|ms| - 1]);
      match Score(stem, ms[|ms| - 1])
      case Some(c) => init + [c]
      case None => init
  }

  /** One more match scored: its candidate, if any, goes at the end. */
  lemma ScoredStep(stem: string, ms: seq<Match>, i: nat)
    requires InBounds(stem, ms) && i < |ms|
    ensures InBounds(stem, ms[..i]) && InBounds(stem, ms[..i + 1])
    ensures Score(stem, ms[i]).None? ==> Scored(stem, ms[..i + 1]) == Scored(stem, ms[..i])
    ensures Score(stem, ms[i]).Some? ==> Scored(stem, ms[..i + 1]) == Scored(stem, ms[..i]) + [Score(stem, ms[i]).value]
  {
    assert ms[..i + 1][..i] == ms[..i];
  }

  /** `all_matches` after both loops: every hyphenated match first, then every
      letters-then-digits match. */
  function Candidates(stem: string): (cs: seq<Candidate>) {
    Scored(stem, FindAll(Standard, stem, 0)) + Scored(stem, FindAll(Alnum, stem, 0))
  }

  /** `sorted(cs, key=score, reverse=True)[0]` with Python's stable sort: the
      earliest candidate of the highest score. */
  function TopRanked(cs: seq<Candidate>): (k: nat)
    requires cs != []
    ensures k < |cs|
    ensures forall j :: 0 <= j < |cs| ==> cs[j].score <= cs[k].score
    ensures forall j :: 0 <= j < k ==> cs[j].score < cs[k].score
  {
    if |cs| == 1 then 0
    else
      var k := TopRanked(cs[1..]);
      if cs[0].score >= cs[1 + k].score then 0 else 1 + k
  }

  /** The scored fallback: the top of the ranking, upper-cased. It answers
      exactly when a candidate survives; the stable sort leaves the first candidate
      on top, because every hyphenated candidate comes before, and outscores,
      every other; and what it gives is a designator without a stop-word prefix,
      hyphenated exactly when some hyphenated match survived. */
  function FallbackStep(stem: string): (r: Option<string>)
    ensures r.None? <==> Candidates(stem) == []
    ensures r.Some? ==> r.value == Upper(Candidates(stem)[0].text)
    ensures r.Some? ==> IsDesignator(r.value) && Lower(Prefix(r.value)) !in StopWords
    ensures r.Some? ==> ('-' in r.value <==> Scored(stem, FindAll(Standard, stem, 0)) != [])
  {
    var cs := Candidates(stem);
    if cs == [] then None
    else
      FirstRanked(stem);
      Some(Upper(cs[TopRanked(cs)].text))
  }

  // ---------------------------------------------------------------------------
  // The cascade

  /** `extract_code(filename)`: nothing, or a designator
      `[A-Z]{2,10}-?[0-9]{1,6}`; and when the stem has no `@`, never one whose
      prefix is a stop word. */
  function Extract(filename: string): (r: Option<string>)
    ensures r.Some? ==> IsDesignator(r.value)
    ensures r.Some? && '@' !in Stem(filename) ==> Lower(Prefix(r.value)) !in StopWords
  {
    var stem := Stem(filename);
    var atCode := if '@' in stem then FirstSegmentCode(Split(stem, '@')) else None;
    if atCode.Some? then atCode
    else if StandardStep(stem).Some? then StandardStep(stem)
    else if AlnumStep(stem).Some? then AlnumStep(stem)
    else if DigitFirstStep(stem).Some? then DigitFirstStep(stem)
    else FallbackStep(stem)
  }

  // ---------------------------------------------------------------------------
  // What each strategy returns, in terms of the stem

  /** Strategy 2 answers exactly when the first hyphenated match passes the URL
      tests (case-sensitive) and the stop list. */
  lemma StandardStepAccepts(stem: string)
    ensures var m := Search(Standard, stem, 0);
      StandardStep(stem).Some? <==>
        && m.Some?
        && !StartsWith(stem[m.value.start..m.value.end], "http")
        && !Contains(stem[m.value.start..m.value.end], "www")
        && Lower(m.value.letters) !in StopWords
  {
  }

  /** What strategy 2 gives is its match without the optional `-digits` tail, upper-cased. */
  lemma StandardStepTakesFirstMatch(stem: string, m: Match)
    requires Search(Standard, stem, 0) == Some(m) && StandardStep(stem).Some?
    ensures m.start + |m.letters| + 1 + |m.digits| <= m.end
    ensures StandardStep(stem).value == Upper(stem[m.start..m.start + |m.letters| + 1 + |m.digits|])
  {
    StandardStepIsFormat(stem, m);
    HyphenatedFormat(stem, m);
  }

  lemma StandardStepIsFormat(stem: string, m: Match)
    requires Search(Standard, stem, 0) == Some(m) && StandardStep(stem).Some?
    ensures Groups(m) && StandardStep(stem).value == Format(m.letters, true, m.digits)
  {
    SearchFacts(Standard, stem, 0);
  }

  /** Strategy 3 answers exactly when the first letters-then-digits match has no
      URL marker within five characters and no stop-word prefix. */
  lemma AlnumStepAccepts(stem: string)
    ensures var m := Search(Alnum, stem, 0);
      AlnumStep(stem).Some? <==>
        && m.Some?
        && !ContainsAny(Lower(Window(stem, m.value, 5)), NearUrlMarkers)
        && Lower(m.value.letters) !in StopWords
  {
  }

  /** What strategy 3 gives is its match itself, upper-cased. */
  lemma AlnumStepTakesFirstMatch(stem: string, m: Match)
    requires Search(Alnum, stem, 0) == Some(m) && AlnumStep(stem).Some?
    ensures m.end <= |stem| && AlnumStep(stem).value == Upper(stem[m.start..m.end])
  {
    AlnumStepIsFormat(stem, m);
    BareFormat(stem, m);
  }

  lemma AlnumStepIsFormat(stem: string, m: Match)
    requires Search(Alnum, stem, 0) == Some(m) && AlnumStep(stem).Some?
    ensures Groups(m) && AlnumStep(stem).value == Format(m.letters, false, m.digits)
  {
    SearchFacts(Alnum, stem, 0);
  }

  /** The designator built from a hyphenated match is the text of its two groups
      and the hyphen between them, upper-cased. */
  lemma HyphenatedFormat(stem: string, m: Match)
    requires m.start <= |stem| && MatchAt(Standard, stem, m.start) == Some(m)
    ensures Groups(m)
    ensures m.start + |m.letters| + 1 + |m.digits| <= m.end <= |stem|
    ensures stem[m.start + |m.letters|] == '-'
    ensures Format(m.letters, true, m.digits) == Upper(stem[m.start..m.start + |m.letters| + 1 + |m.digits|])
  {
    MatchAtFacts(Standard, stem, m.start);
    StandardText(stem, m);
    UpperIsFormat(m.letters, true, m.digits);
  }

  /** The designator built from a letters-then-digits match is the match itself, upper-cased. */
  lemma BareFormat(stem: string, m: Match)
    requires m.start <= |stem| && MatchAt(Alnum, stem, m.start) == Some(m)
    ensures Groups(m) && m.end <= |stem|
    ensures stem[m.start..m.end] == m.letters + m.digits
    ensures Format(m.letters, false, m.digits) == Upper(stem[m.start..m.end])
  {
    MatchAtFacts(Alnum, stem, m.start);
    AlnumText(stem, m);
    assert m.letters + m.digits == m.letters + "" + m.digits;
    UpperIsFormat(m.letters, false, m.digits);
  }

  /** Strategy 4 answers exactly when the stem starts with 1 to 6 digits followed
      by at least two letters that are not a stop word. */
  lemma DigitFirstStepAccepts(stem: string)
    ensures var m := MatchAt(DigitFirst, stem, 0);
      DigitFirstStep(stem).Some? <==> m.Some? && Lower(m.value.letters) !in StopWords
  {
    if MatchAt(DigitFirst, stem, 0).Some? {
      MatchAtFacts(DigitFirst, stem, 0);
    }
  }

  /** What strategy 4 gives is the letters, upper-cased, followed by the whole run
      of leading digits. */
  lemma DigitFirstStepReorders(stem: string, m: Match)
    requires MatchAt(DigitFirst, stem, 0) == Some(m) && DigitFirstStep(stem).Some?
    ensures var nd := RunLength(stem, 0, Digits);
      nd <= m.end <= |stem| && DigitFirstStep(stem).value == Upper(stem[nd..m.end]) + stem[..nd]
  {
    DigitFirstStepIsFormat(stem, m);
    DigitFirstFormat(stem, m);
  }

  lemma DigitFirstStepIsFormat(stem: string, m: Match)
    requires MatchAt(DigitFirst, stem, 0) == Some(m) && DigitFirstStep(stem).Some?
    ensures Groups(m) && DigitFirstStep(stem).value == Format(m.letters, false, m.digits)
  {
    MatchAtFacts(DigitFirst, stem, 0);
  }

  lemma DigitFirstFormat(stem: string, m: Match)
    requires MatchAt(DigitFirst, stem, 0) == Some(m)
    ensures Groups(m) && |m.digits| == RunLength(stem, 0, Digits) <= m.end
    ensures Format(m.letters, false, m.digits) == Upper(stem[|m.digits|..m.end]) + stem[..|m.digits|]
  {
    MatchAtFacts(DigitFirst, stem, 0);
    DigitFirstText(stem, 0);
    UpperIsFormat(m.letters, false, m.digits);
    UpperConcat(m.letters, m.digits);
    UpperFixes(m.digits);
  }

  // ---------------------------------------------------------------------------
  // The fallback's candidates

  /** A candidate as the fallback keeps it: upper-cased it is a designator without
      a stop-word prefix, and it scores 30 when hyphenated and 15 otherwise. */
  predicate Ranked(c: Candidate, hyphenated: bool) {
    var code := Upper(c.text);
    && c.score == (if hyphenated then 30 else 15)
    && IsDesignator(code) && ('-' in code) == hyphenated
    && Lower(Prefix(code)) !in StopWords
  }

  /** A hyphenated match can only earn the first score and a letters-then-digits
      match only the second; either way the candidate is a designator. */
  lemma ScoreOfMatch(stem: string, p: Pattern, m: Match)
    requires p == Standard || p == Alnum
    requires m.start <= |stem| && MatchAt(p, stem, m.start) == Some(m)
    ensures m.end <= |stem|
    ensures Score(stem, m).Some? ==> Ranked(Score(stem, m).value, p == Standard)
  {
    if p == Standard {
      HyphenatedRanked(stem, m);
    } else {
      BareRanked(stem, m);
    }
  }

  lemma HyphenatedRanked(stem: string, m: Match)
    requires m.start <= |stem| && MatchAt(Standard, stem, m.start) == Some(m)
    ensures m.end <= |stem|
    ensures Score(stem, m).Some? ==> Ranked(Score(stem, m).value, true)
  {
    HyphenatedFormat(stem, m);
    HyphenatedScore(stem, m);
    if Score(stem, m).Some? {
      HyphenatedIsRanked(m.letters, m.digits);
    }
  }

  lemma BareRanked(stem: string, m: Match)
    requires m.start <= |stem| && MatchAt(Alnum, stem, m.start) == Some(m)
    ensures m.end <= |stem|
    ensures Score(stem, m).Some? ==> Ranked(Score(stem, m).value, false)
  {
    BareFormat(stem, m);
    BareScore(stem, m);
    if Score(stem, m).Some? {
      BareIsRanked(m.letters, m.digits);
    }
  }

  /** A candidate built from the two groups is ranked as hyphenated or bare. */
  lemma HyphenatedIsRanked(letters: string, digits: string)
    requires MinLetters <= |letters| <= MaxLetters && AllIn(letters, Letters)
    requires 1 <= |digits| <= MaxDigits && AllIn(digits, Digits)
    requires Lower(letters) !in StopWords
    ensures Ranked(Candidate(30, letters + "-" + digits), true)
  {
    UpperIsFormat(letters, true, digits);
  }

  lemma BareIsRanked(letters: string, digits: string)
    requires MinLetters <= |letters| <= MaxLetters && AllIn(letters, Letters)
    requires 1 <= |digits| <= MaxDigits && AllIn(digits, Digits)
    requires Lower(letters) !in StopWords
    ensures Ranked(Candidate(15, letters + digits), false)
  {
    assert letters + digits == letters + "" + digits;
    UpperIsFormat(letters, false, digits);
  }

  lemma HyphenatedScore(stem: string, m: Match)
    requires m.start < m.end <= |stem| && Groups(m)
    requires m.start + |m.letters| < m.end && stem[m.start + |m.letters|] == '-'
    ensures Score(stem, m).Some? ==>
      Score(stem, m) == Some(Candidate(30, m.letters + "-" + m.digits)) && Lower(m.letters) !in StopWords
  {
    var whole := stem[m.start..m.end];
    assert whole[|m.letters|] == '-';
  }

  lemma BareScore(stem: string, m: Match)
    requires m.start <= m.end <= |stem| && Groups(m)
    requires stem[m.start..m.end] == m.letters + m.digits
    ensures Score(stem, m).Some? ==>
      Score(stem, m) == Some(Candidate(15, m.letters + m.digits)) && Lower(m.letters) !in StopWords
  {
    var whole := stem[m.start..m.end];
    assert '-' !in whole by {
      forall k | 0 <= k < |whole| ensures whole[k] != '-' {
        if k < |m.letters| {
          assert whole[k] == m.letters[k];
        } else {
          assert whole[k] == m.digits[k - |m.letters|];
        }
      }
    }
    assert !IsDigitText(m.letters) by {
      assert IsLetter(m.letters[0]);
    }
  }

  /** A hyphenated match is kept exactly when it is not start-shaped, no URL
      marker is within ten characters and its prefix is not a stop word. */
  lemma HyphenKeeps(stem: string, m: Match)
    requires m.start <= |stem| && MatchAt(Standard, stem, m.start) == Some(m)
    ensures m.end <= |stem|
    ensures Score(stem, m).Some? <==>
      && !InvalidShape(Lower(stem[m.start..m.end]))
      && !ContainsAny(Lower(Window(stem, m, 10)), UrlMarkers)
      && Lower(m.letters) !in StopWords
  {
    HyphenatedFormat(stem, m);
    HyphenKept(stem, m);
  }

  lemma HyphenKept(stem: string, m: Match)
    requires m.start < m.end <= |stem| && Groups(m)
    requires m.start + |m.letters| < m.end && stem[m.start + |m.letters|] == '-'
    ensures Score(stem, m).Some? <==>
      && !InvalidShape(Lower(stem[m.start..m.end]))
      && !ContainsAny(Lower(Window(stem, m, 10)), UrlMarkers)
      && Lower(m.letters) !in StopWords
  {
    var whole := stem[m.start..m.end];
    assert whole[|m.letters|] == '-';
  }

  /** A letters-then-digits match is kept under the same three conditions. */
  lemma BareKeeps(stem: string, m: Match)
    requires m.start <= |stem| && MatchAt(Alnum, stem, m.start) == Some(m)
    ensures m.end <= |stem|
    ensures Score(stem, m).Some? <==>
      && !InvalidShape(Lower(stem[m.start..m.end]))
      && !ContainsAny(Lower(Window(stem, m, 10)), UrlMarkers)
      && Lower(m.letters) !in StopWords
  {
    BareFormat(stem, m);
    BareKept(stem, m);
  }

  lemma BareKept(stem: string, m: Match)
    requires m.start <= m.end <= |stem| && Groups(m)
    requires stem[m.start..m.end] == m.letters + m.digits
    ensures Score(stem, m).Some? <==>
      && !InvalidShape(Lower(stem[m.start..m.end]))
      && !ContainsAny(Lower(Window(stem, m, 10)), UrlMarkers)
      && Lower(m.letters) !in StopWords
  {
    BareWhole(stem, m);
  }

  /** The text of a letters-then-digits match has no hyphen, is alphanumeric,
      and is neither all digits nor all letters. */
  lemma BareWhole(stem: string, m: Match)
    requires m.start <= m.end <= |stem| && Groups(m)
    requires stem[m.start..m.end] == m.letters + m.digits
    ensures var whole := stem[m.start..m.end];
      '-' !in whole && IsAlnumText(whole) && !IsDigitText(whole) && !IsAlphaText(whole)
      && !IsDigitText(m.letters)
  {
    var whole := stem[m.start..m.end];
    forall k | 0 <= k < |whole| ensures whole[k] != '-' && IsAlnum(whole[k]) {
      if k < |m.letters| {
        assert whole[k] == m.letters[k];
      } else {
        assert whole[k] == m.digits[k - |m.letters|];
      }
    }
    assert whole[0] == m.letters[0];
    assert whole[|whole| - 1] == m.digits[|m.digits| - 1];
  }

  /** Every candidate collected from matches of `p` is ranked as `p` dictates. */
  lemma {:induction false} ScoredRanked(stem: string, p: Pattern, ms: seq<Match>)
    requires p == Standard || p == Alnum
    requires forall k :: 0 <= k < |ms| ==> ms[k].start <= |stem| && MatchAt(p, stem, ms[k].start) == Some(ms[k])
    ensures InBounds(stem, ms)
    ensures forall k :: 0 <= k < |Scored(stem, ms)| ==> Ranked(Scored(stem, ms)[k], p == Standard)
    decreases |ms|
  {
    if ms != [] {
      var last := ms[|ms| - 1];
      ScoredRanked(stem, p, ms[..|ms| - 1]);
      ScoreOfMatch(stem, p, last);
    }
  }

  /** The matches `re.finditer` yields for `p`, scored, are ranked as `p` dictates. */
  lemma FoundRanked(stem: string, p: Pattern)
    requires p == Standard || p == Alnum
    ensures forall k :: 0 <= k < |Scored(stem, FindAll(p, stem, 0))| ==>
      Ranked(Scored(stem, FindAll(p, stem, 0))[k], p == Standard)
  {
    var ms := FindAll(p, stem, 0);
    forall k | 0 <= k < |ms| ensures MatchAt(p, stem, ms[k].start) == Some(ms[k]) {
      FindAllMatch(p, stem, 0, k);
    }
    ScoredRanked(stem, p, ms);
  }

  /** All hyphenated candidates come first and score 30, all others score 15,
      so the earliest top-scoring candidate is the first one, and it is ranked as
      the pattern that found it. */
  lemma FirstRanked(stem: string)
    ensures Candidates(stem) != [] ==> TopRanked(Candidates(stem)) == 0
    ensures Candidates(stem) != [] ==>
      Ranked(Candidates(stem)[0], Scored(stem, FindAll(Standard, stem, 0)) != [])
  {
    var hy := Scored(stem, FindAll(Standard, stem, 0));
    var bare := Scored(stem, FindAll(Alnum, stem, 0));
    var cs := Candidates(stem);
    if cs != [] {
      FoundRanked(stem, Standard);
      FoundRanked(stem, Alnum);
      var k := TopRanked(cs);
      if k != 0 {
        assert false;
      }
      if hy != [] {
        assert cs[0] == hy[0];
      } else {
        assert cs[0] == bare[0];
      }
    }
  }

  // ---------------------------------------------------------------------------
  // The whole cascade

  /** Every strategy needs a digit: a stem without one yields nothing. */
  lemma NoDigitNoCode(filename: string)
    requires forall k :: 0 <= k < |Stem(filename)| ==> !IsDigit(Stem(filename)[k])
    ensures Extract(filename) == None
  {
    var stem := Stem(filename);
    NoDigitNoMatch(Standard, stem, 0);
    NoDigitNoMatch(Alnum, stem, 0);
    if MatchAt(DigitFirst, stem, 0).Some? {
      MatchAtFacts(DigitFirst, stem, 0);
    }
    if '@' in stem {
      var parts := Split(stem, '@');
      forall k | 0 <= k < |parts| ensures SegmentCode(parts[k]).None? {
        forall j | 0 <= j < |parts[k]| ensures !IsDigit(parts[k][j]) {
          JoinKeepsChars(parts, '@', k, j);
        }
        NoDigitSegment(parts[k]);
      }
    }
  }

  lemma NoDigitSegment(part: string)
    requires forall k :: 0 <= k < |part| ==> !IsDigit(part[k])
    ensures SegmentCode(part).None?
  {
    NoDigitNoMatch(Hyphen, part, 0);
  }

  /** With no `@` in the stem, an accepted hyphenated match wins over everything
      after it, even a letters-then-digits code earlier in the name. */
  lemma HyphenatedFirst(filename: string, stem: string, c: string)
    requires Stem(filename) == stem && '@' !in stem && StandardStep(stem) == Some(c)
    ensures Extract(filename) == Some(c)
  {
  }
}
