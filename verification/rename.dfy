/**
 The new-name construction inside `rename_files`: the designator from the
 extractor, an optional `-cdN` episode marker read from the original name, the
 original extension, and the collision loop that appends `_1`, `_2`, … until the
 name is free. The directory is the finite set of names that exist in it.
 */
module Rename {
  import opened Wrappers
  import opened Text
  import opened PathNames
  import opened Extractor
  import opened Extraction

  // ---------------------------------------------------------------------------
  // Decimal numerals (the `{counter}` of the f-strings)

  function DigitChar(d: nat): (c: char)
    requires d < 10
    ensures IsDigit(c) && c as int - '0' as int == d
  {
    ('0' as int + d) as char
  }

  /** `str(n)` for a natural number: its digits, without leading zeros. */
  function Decimal(n: nat): (s: string)
    ensures |s| >= 1 && AllIn(s, Digits)
    ensures s[0] == '0' ==> n == 0
  {
    if n < 10 then [DigitChar(n)] else Decimal(n / 10) + [DigitChar(n % 10)]
  }

  /** `int(s)` for a non-empty string of ASCII digits. */
  function Value(s: string): (n: nat)
    requires AllIn(s, Digits)
  {
    if s == [] then 0 else Value(s[..|s| - 1]) * 10 + (s[|s| - 1] as int - '0' as int)
  }

  /** Reading the numeral back gives the number. */
  lemma {:induction false} ValueOfDecimal(n: nat)
    ensures Value(Decimal(n)) == n
  {
    if n >= 10 {
      var s := Decimal(n);
      assert s[..|s| - 1] == Decimal(n / 10);
      ValueOfDecimal(n / 10);
    }
  }

  /** Different counters are written differently. */
  lemma DecimalInjective(a: nat, b: nat)
    requires Decimal(a) == Decimal(b)
    ensures a == b
  {
    ValueOfDecimal(a);
    ValueOfDecimal(b);
  }

  // ---------------------------------------------------------------------------
  // The episode marker `-\d+-([0-9]+)(?=\.|$)` searched in the original name

  /** The lookahead `(?=\.|$)`: a dot, the end, or a newline that ends the text. */
  predicate EpisodeEnd(s: string, e: nat)
    requires e <= |s|
  {
    e == |s| || s[e] == '.' || (e == |s| - 1 && s[e] == '\n')
  }

  /** What the backtracking engine accepts at `i` with `n1` digits in `\d+` and
      `n2` digits in the group. */
  predicate EpisodeAccepts(s: string, i: nat, n1: nat, n2: nat) {
    var j := i + 2 + n1;
    && 1 <= n1 && 1 <= n2 && j + n2 <= |s|
    && s[i] == '-' && s[i + 1 + n1] == '-'
    && (forall k :: i + 1 <= k < i + 1 + n1 ==> IsDigit(s[k]))
    && (forall k :: j <= k < j + n2 ==> IsDigit(s[k]))
    && EpisodeEnd(s, j + n2)
  }

  /** The match at `i`: both digit runs are maximal, since a digit can be neither
      the `-` after the first run nor the dot or end after the second. */
  function EpisodeAt(s: string, i: nat): (r: Option<string>)
    requires i <= |s|
  {
    if i < |s| && s[i] == '-' then
      var n1 := RunLength(s, i + 1, Digits);
      var j := i + 2 + n1;
      if n1 >= 1 && j <= |s| && s[j - 1] == '-' then
        var n2 := RunLength(s, j, Digits);
        if n2 >= 1 && EpisodeEnd(s, j + n2) then Some(s[j..j + n2]) else None
      else None
    else None
  }

  /** `re.search(...).group(1)`: the group of the match at the first position,
      at or after `from`, that has one; nothing when no position has one. */
  function EpisodeFrom(s: string, from: nat): (r: Option<string>)
    requires from <= |s|
    ensures r.Some? ==> (exists i :: from <= i <= |s| && EpisodeAt(s, i) == r
                                    && forall k :: from <= k < i ==> EpisodeAt(s, k).None?)
    ensures r.None? <==> forall i :: from <= i <= |s| ==> EpisodeAt(s, i).None?
    decreases |s| - from
  {
    if EpisodeAt(s, from).Some? then EpisodeAt(s, from)
    else if from == |s| then None
    else
      var r := EpisodeFrom(s, from + 1);
      if r.Some? then
        var i :| from + 1 <= i <= |s| && EpisodeAt(s, i) == r
                 && forall k :: from + 1 <= k < i ==> EpisodeAt(s, k).None?;
        assert forall k :: from <= k < i ==> EpisodeAt(s, k).None?;
        r
      else r
  }

  /** The episode number of a name: a non-empty run of digits from the leftmost
      match, so `if episode_num:` holds exactly when the search matched. */
  function Episode(name: string): (r: Option<string>)
    ensures r.Some? ==> IsDigitText(r.value)
    ensures r.Some? <==> exists i :: 0 <= i <= |name| && EpisodeAt(name, i).Some?
  {
    var r := EpisodeFrom(name, 0);
    if r.Some? then EpisodeIsNumber(name, 0); r else r
  }

  /** A match found by the scanner is a reading the regular expression accepts. */
  lemma EpisodeAtSound(s: string, i: nat, g: string)
    requires i <= |s| && EpisodeAt(s, i) == Some(g)
    ensures var n1 := RunLength(s, i + 1, Digits);
      EpisodeAccepts(s, i, n1, |g|) && g == s[i + 2 + n1..i + 2 + n1 + |g|]
  {
    var n1 := RunLength(s, i + 1, Digits);
    RunLengthSpan(s, i + 1, Digits);
    RunLengthSpan(s, i + 2 + n1, Digits);
  }

  /** Every reading the regular expression accepts at `i` is the one the scanner
      finds: the engine's backtracking has no other choice to make. */
  lemma EpisodeAtComplete(s: string, i: nat, n1: nat, n2: nat)
    requires EpisodeAccepts(s, i, n1, n2)
    ensures EpisodeAt(s, i) == Some(s[i + 2 + n1..i + 2 + n1 + n2])
  {
    RunLengthIs(s, i + 1, Digits, n1);
    RunLengthIs(s, i + 2 + n1, Digits, n2);
  }

  /** The episode number is a non-empty run of digits, so `if episode_num:`
      holds exactly when the search matched. */
  lemma EpisodeIsNumber(s: string, from: nat)
    requires from <= |s| && EpisodeFrom(s, from).Some?
    ensures IsDigitText(EpisodeFrom(s, from).value)
  {
    var r := EpisodeFrom(s, from);
    var i :| from <= i <= |s| && EpisodeAt(s, i) == r && forall k :: from <= k < i ==> EpisodeAt(s, k).None?;
    EpisodeAtSound(s, i, r.value);
  }

  // ---------------------------------------------------------------------------
  // Candidate names and the collision loop

  /** `{code}-cd{episode_num}` when an episode was found, `{code}` otherwise. */
  function BaseName(code: string, episode: Option<string>): (base: string)
    ensures StartsWith(base, code)
    ensures episode.None? ==> base == code
    ensures episode.Some? ==> base[|code|..] == "-cd" + episode.value
  {
    match episode
    case Some(n) => code + "-cd" + n
    case None => code
  }

  /** The name tried on the `k`-th attempt: the base, then the base with `_k`,
      followed by the extension. */
  function CandidateName(code: string, episode: Option<string>, ext: string, k: nat): (name: string)
    ensures StartsWith(name, code)
    ensures |ext| <= |name| && name[|name| - |ext|..] == ext
  {
    var base := BaseName(code, episode);
    assert base[..|code|] == code;
    if k == 0 then base + ext else base + "_" + Decimal(k) + ext
  }

  /** Different attempts produce different names. */
  lemma CandidateInjective(code: string, episode: Option<string>, ext: string, j: nat, k: nat)
    requires CandidateName(code, episode, ext, j) == CandidateName(code, episode, ext, k)
    ensures j == k
  {
    var base := BaseName(code, episode);
    if j != 0 && k != 0 {
      var a, b := CandidateName(code, episode, ext, j), CandidateName(code, episode, ext, k);
      assert a[|base| + 1..|a| - |ext|] == Decimal(j);
      assert b[|base| + 1..|b| - |ext|] == Decimal(k);
      DecimalInjective(j, k);
    }
  }

  /** The loop condition: the name exists and is not the file's own name. */
  predicate Taken(name: string, original: string, existing: set<string>) {
    name in existing && name != original
  }

  /** Attempt `k` is the first one whose name is not taken. */
  predicate IsFirstFree(code: string, episode: Option<string>, ext: string,
                        original: string, existing: set<string>, k: nat) {
    && !Taken(CandidateName(code, episode, ext, k), original, existing)
    && forall j :: 0 <= j < k ==> Taken(CandidateName(code, episode, ext, j), original, existing)
  }

  /** The collision loop: try the base name, then `_1`, `_2`, …
      until the name does not exist or is the file itself. */
  method ChooseName(code: string, episode: Option<string>, ext: string,
                    original: string, existing: set<string>) returns (name: string, k: nat)
    ensures IsFirstFree(code, episode, ext, original, existing, k)
    ensures name == CandidateName(code, episode, ext, k)
  {
    k := 0;
    name := CandidateName(code, episode, ext, 0);
    while name in existing && name != original
      invariant name == CandidateName(code, episode, ext, k)
      invariant forall j :: 0 <= j < k ==> Taken(CandidateName(code, episode, ext, j), original, existing)
      invariant k <= |existing|
      decreases |existing| - k
    {
      TakenBound(code, episode, ext, original, existing, k + 1);
      k := k + 1;
      name := CandidateName(code, episode, ext, k);
    }
  }

  /** The names of the first `k` attempts. */
  function Tried(code: string, episode: Option<string>, ext: string, k: nat): (names: set<string>)
  {
    set j | 0 <= j < k :: CandidateName(code, episode, ext, j)
  }

  /** The first `k` attempts are `k` different names. */
  lemma {:induction false} TriedSize(code: string, episode: Option<string>, ext: string, k: nat)
    ensures |Tried(code, episode, ext, k)| == k
    decreases k
  {
    if k > 0 {
      TriedSize(code, episode, ext, k - 1);
      TriedStep(code, episode, ext, k - 1);
    }
  }

  /** One more attempt adds one new name. */
  lemma TriedStep(code: string, episode: Option<string>, ext: string, k: nat)
    ensures CandidateName(code, episode, ext, k) !in Tried(code, episode, ext, k)
    ensures Tried(code, episode, ext, k + 1) == Tried(code, episode, ext, k) + {CandidateName(code, episode, ext, k)}
  {
    if CandidateName(code, episode, ext, k) in Tried(code, episode, ext, k) {
      var j :| 0 <= j < k && CandidateName(code, episode, ext, j) == CandidateName(code, episode, ext, k);
      CandidateInjective(code, episode, ext, j, k);
    }
  }

  /** The loop cannot run past the number of existing names: every taken
      attempt is a different existing name. */
  lemma TakenBound(code: string, episode: Option<string>, ext: string,
                   original: string, existing: set<string>, k: nat)
    requires forall j :: 0 <= j < k ==> Taken(CandidateName(code, episode, ext, j), original, existing)
    ensures k <= |existing|
  {
    TriedSize(code, episode, ext, k);
    SubsetSize(Tried(code, episode, ext, k), existing);
  }

  lemma {:induction false} SubsetSize<T>(a: set<T>, b: set<T>)
    requires a <= b
    ensures |a| <= |b|
    decreases |a|
  {
    if a != {} {
      var x :| x in a;
      SubsetSize(a - {x}, b - {x});
    }
  }

  /** What `rename_files` does with one file: skip it when no designator is
      found, leave it when the chosen name is its own, otherwise rename it. */
  datatype Outcome = NoCode | Unchanged | RenameTo(name: string)

  /** The decision `rename_files` takes for one file, given the names that exist
      in its directory. */
  method PlanRename(original: string, existing: set<string>) returns (out: Outcome)
    ensures out.NoCode? <==> Extract(original).None?
    ensures !out.NoCode? ==>
      exists k :: (IsFirstFree(Extract(original).value, Episode(original), Suffix(original), original, existing, k) &&
        if CandidateName(Extract(original).value, Episode(original), Suffix(original), k) == original
        then out.Unchanged?
        else out == RenameTo(CandidateName(Extract(original).value, Episode(original), Suffix(original), k)))
    ensures out.RenameTo? ==> out.name !in existing && out.name != original
    ensures out.RenameTo? ==> StartsWith(out.name, Extract(original).value)
  {
    var code := ExtractCode(original);
    if code.None? {
      return NoCode;
    }
    var ext := Suffix(original);
    var episode := Episode(original);
    var name, k := ChooseName(code.value, episode, ext, original, existing);
    if name == original {
      out := Unchanged;
    } else {
      out := RenameTo(name);
    }
  }
}
