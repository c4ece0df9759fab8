/**
 `extract_code` as the original runs it, statement by statement: the segment
 loop with its early return, the three single-search strategies, then the two
 `finditer` loops that fill `all_matches` and the pick of the best candidate.
 Each method is proved to compute the corresponding function of `Extractor`.
 */
module Extraction {
  import opened Wrappers
  import opened Text
  import opened Patterns
  import opened PathNames
  import opened Extractor

  /** The inner loop over the matches of one pattern: each match
      is scored in turn and its candidate, if any, appended. */
  method CollectFor(stem: string, matches: seq<Match>) returns (found: seq<Candidate>)
    requires InBounds(stem, matches)
    ensures found == Scored(stem, matches)
  {
    found := [];
    for i := 0 to |matches|
      invariant found == Scored(stem, matches[..i])
    {
      var m := matches[i];
      ScoredStep(stem, matches, i);
      var c := Score(stem, m);
      if c.Some? {
        found := found + [c.value];
      }
    }
    assert matches[..|matches|] == matches;
  }

  /** The outer loop over the two patterns, appending to `all_matches`. */
  method CollectCandidates(stem: string) returns (all: seq<Candidate>)
    ensures all == Candidates(stem)
  {
    all := [];
    var patterns := [Standard, Alnum];
    ghost var hyphenated := Scored(stem, FindAll(Standard, stem, 0));
    ghost var bare := Scored(stem, FindAll(Alnum, stem, 0));
    for t := 0 to |patterns|
      invariant t == 0 ==> all == []
      invariant t == 1 ==> all == hyphenated
      invariant t == 2 ==> all == hyphenated + bare
    {
      var found := CollectFor(stem, FindAll(patterns[t], stem, 0));
      all := all + found;
    }
  }

  /** `extract_code` as the original runs it: the segment loop with its early
      return, the three single-search strategies, then the fallback. */
  method ExtractCode(filename: string) returns (code: Option<string>)
    ensures code == Extract(filename)
  {
    var stem := Stem(filename);
    if '@' in stem {
      var parts := Split(stem, '@');
      for i := 0 to |parts|
        invariant FirstSegmentCode(parts[i..]) == FirstSegmentCode(parts)
      {
        var c := SegmentCode(parts[i]);
        if c.Some? {
          return c;
        }
        assert parts[i..][1..] == parts[i + 1..];
      }
    }
    code := StandardStep(stem);
    if code.Some? {
      return;
    }
    code := AlnumStep(stem);
    if code.Some? {
      return;
    }
    code := DigitFirstStep(stem);
    if code.Some? {
      return;
    }
    var all := CollectCandidates(stem);
    if all == [] {
      return None;
    }
    var best := all[TopRanked(all)];
    code := Some(Upper(best.text));
  }
}
