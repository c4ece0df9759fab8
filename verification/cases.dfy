/**
 Rows of the project's own test table, worked through the model.
 */
module ExtractorCases {
  import opened Wrappers
  import opened Text
  import opened Patterns
  import opened PathNames
  import opened Extractor

  /** `filelist.txt` has no digit in its stem, so nothing is extracted. */
  lemma FileListHasNoCode()
    ensures Extract("filelist.txt") == None
  {
    var f := "filelist.txt";
    assert f[8] == '.' && f[1] != '.';
    assert Stem(f) == "filelist";
    NoDigitNoCode(f);
  }

  /** `madoubt.com` has no digit in its stem either. */
  lemma DomainHasNoCode()
    ensures Extract("madoubt.com") == None
  {
    var f := "madoubt.com";
    assert f[7] == '.' && f[0] != '.';
    assert Stem(f) == "madoubt";
    NoDigitNoCode(f);
  }

  /** `MCBD-25-C-cd1.mkv`: the first hyphenated match is `MCBD-25`; the `-C-cd1`
      after it is dropped. */
  lemma EpisodeTailDropped()
    ensures Extract("MCBD-25-C-cd1.mkv") == Some("MCBD-25")
  {
    var f := "MCBD-25-C-cd1.mkv";
    assert f[13] == '.' && f[0] != '.';
    assert Stem(f) == "MCBD-25-C-cd1";
    EpisodeStemMatch();
    EpisodeStemStep();
    EpisodeStemHasNoAt();
    HyphenatedFirst(f, "MCBD-25-C-cd1", "MCBD-25");
  }

  lemma EpisodeStemMatch()
    ensures Search(Standard, "MCBD-25-C-cd1", 0) == Some(Match(0, 7, "MCBD", "25"))
  {
    EpisodeStemAt0();
  }

  lemma EpisodeStemAt0()
    ensures MatchAt(Standard, "MCBD-25-C-cd1", 0) == Some(Match(0, 7, "MCBD", "25"))
  {
    EpisodeRuns();
    EpisodeSlices();
    StandardAt("MCBD-25-C-cd1", 0, 4, 2);
    EpisodeTail();
  }

  lemma EpisodeRuns()
    ensures RunLength("MCBD-25-C-cd1", 0, Letters) == 4
    ensures RunLength("MCBD-25-C-cd1", 5, Digits) == 2
  {
    RunLengthIs("MCBD-25-C-cd1", 0, Letters, 4);
    RunLengthIs("MCBD-25-C-cd1", 5, Digits, 2);
  }

  lemma EpisodeSlices()
    ensures var s := "MCBD-25-C-cd1"; s[0..4] == "MCBD" && s[4] == '-' && s[5..7] == "25"
  {
  }

  /** The `-C` after the number is no `-digits` tail. */
  lemma EpisodeTail()
    ensures StandardTail(Standard, "MCBD-25-C-cd1", 7) == 7
  {
    assert "MCBD-25-C-cd1"[8] == 'C';
  }

  /** The hyphenated match at `i` from the lengths of its two runs. */
  lemma StandardAt(s: string, i: nat, nl: nat, nd: nat)
    requires i + nl + 1 < |s| && RunLength(s, i, Letters) == nl && MinLetters <= nl <= MaxLetters
    requires s[i + nl] == '-' && RunLength(s, i + nl + 1, Digits) == nd && 1 <= nd <= MaxDigits
    ensures MatchAt(Standard, s, i) ==
      Some(Match(i, StandardTail(Standard, s, i + nl + 1 + nd), s[i..i + nl], s[i + nl + 1..i + nl + 1 + nd]))
  {
  }

  lemma EpisodeStemStep()
    requires Search(Standard, "MCBD-25-C-cd1", 0) == Some(Match(0, 7, "MCBD", "25"))
    ensures StandardStep("MCBD-25-C-cd1") == Some("MCBD-25")
  {
    var stem := "MCBD-25-C-cd1";
    EpisodeStemText();
    StandardStepAccepts(stem);
    StandardStepTakesFirstMatch(stem, Match(0, 7, "MCBD", "25"));
  }

  lemma EpisodeStemText()
    ensures var whole := "MCBD-25-C-cd1"[0..7];
      && whole == "MCBD-25" && Upper(whole) == whole
      && !StartsWith(whole, "http") && !Contains(whole, "www") && Lower("MCBD") !in StopWords
  {
    var whole := "MCBD-25-C-cd1"[0..7];
    assert whole == "MCBD-25";
    assert whole[..4][0] == 'M';
    LacksFirstChar(whole, "www");
    UpperFixes(whole);
    EpisodePrefixIsNoStopWord();
  }

  lemma EpisodeStemHasNoAt()
    ensures '@' !in "MCBD-25-C-cd1"
  {
    Lacks("MCBD-25-C-cd1", '@');
  }

  lemma EpisodePrefixIsNoStopWord()
    ensures Lower("MCBD") !in StopWords
  {
    assert Lower("MCBD") == "mcbd";
  }

  /** `dxxdom.com@DVMM275.mp4`: the domain segment yields nothing; the second
      segment, with nothing to strip, is a bare code and comes back as it is,
      without a hyphen. */
  lemma AtSegmentKeptBare()
    ensures Extract("dxxdom.com@DVMM275.mp4") == Some("DVMM275")
  {
    AtStem();
    AtSegments();
    AtFirstSegment();
  }

  lemma AtStem()
    ensures Stem("dxxdom.com@DVMM275.mp4") == "dxxdom.com@DVMM275"
    ensures '@' in "dxxdom.com@DVMM275"
  {
    var f := "dxxdom.com@DVMM275.mp4";
    Lacks(f, '/');
    assert RFind(f, '.') == 18 by {
      assert f[18] == '.';
    }
    assert f[0] != '.';
    assert "dxxdom.com@DVMM275"[10] == '@';
  }

  lemma AtFirstSegment()
    ensures FirstSegmentCode(["dxxdom.com", "DVMM275"]) == Some("DVMM275")
  {
    DomainSegmentYieldsNothing();
    BareSegmentKept();
    assert ["dxxdom.com", "DVMM275"][1..] == ["DVMM275"];
  }

  lemma AtSegments()
    ensures Split("dxxdom.com@DVMM275", '@') == ["dxxdom.com", "DVMM275"]
  {
    assert "dxxdom.com" + ['@'] + "DVMM275" == "dxxdom.com@DVMM275";
    Lacks("dxxdom.com", '@');
    Lacks("DVMM275", '@');
    SplitOnce("dxxdom.com", '@', "DVMM275");
  }

  lemma DomainSegmentYieldsNothing()
    ensures SegmentCode("dxxdom.com").None?
  {
    NoDigitSegment("dxxdom.com");
  }

  lemma BareSegmentKept()
    ensures SegmentCode("DVMM275") == Some("DVMM275")
  {
    BareSegmentHasNoHyphen();
    NoHyphenNoMatch(Hyphen, "DVMM275", 0);
    BareSegmentIsClean();
    BareSegmentIsBareCode();
  }

  lemma BareSegmentHasNoHyphen()
    ensures '-' !in "DVMM275"[0..]
  {
    Lacks("DVMM275"[0..], '-');
  }

  lemma BareSegmentIsClean()
    ensures KeepAlnum("DVMM275") == "DVMM275" && Upper("DVMM275") == "DVMM275"
  {
    var part := "DVMM275";
    assert forall k :: 0 <= k < |part| ==> IsAlnum(part[k]);
    UpperFixes(part);
  }

  lemma BareSegmentIsBareCode()
    ensures IsBareCode("DVMM275")
  {
    RunLengthIs("DVMM275", 0, Letters, 4);
  }

  /** `1start00398hhb.restored.mp4`: every strategy meets the prefix `start` and
      rejects it, so nothing is extracted. */
  lemma StartPrefixRejected()
    ensures Extract("1start00398hhb.restored.mp4") == None
  {
    var stem := "1start00398hhb.restored";
    StartStem();
    StartStemHasNoHyphen();
    NoHyphenNoMatch(Standard, stem, 0);
    StartAlnumStep();
    StartDigitFirstStep();
    StartFallback();
  }

  lemma StartStem()
    ensures Stem("1start00398hhb.restored.mp4") == "1start00398hhb.restored"
    ensures '@' !in "1start00398hhb.restored"
  {
    var f := "1start00398hhb.restored.mp4";
    Lacks(f, '/');
    assert RFind(f, '.') == 23 by {
      assert f[23] == '.';
    }
    assert f[0] != '.';
    Lacks("1start00398hhb.restored", '@');
  }

  lemma StartStemHasNoHyphen()
    ensures '-' !in "1start00398hhb.restored"[0..]
  {
    Lacks("1start00398hhb.restored"[0..], '-');
  }

  /** The first letters-then-digits match is `start00398`, one character in. */
  lemma StartAlnumMatch()
    ensures Search(Alnum, "1start00398hhb.restored", 0) == Some(Match(1, 11, "start", "00398"))
  {
    var stem := "1start00398hhb.restored";
    StartAlnumAt0();
    StartAlnumAt1();
    var at := Attempts(Alnum, stem);
    assert SearchIn(at, 0) == SearchIn(at, 1);
  }

  lemma StartAlnumAt0()
    ensures MatchAt(Alnum, "1start00398hhb.restored", 0).None?
  {
    assert RunLength("1start00398hhb.restored", 0, Letters) == 0;
  }

  lemma StartAlnumAt1()
    ensures MatchAt(Alnum, "1start00398hhb.restored", 1) == Some(Match(1, 11, "start", "00398"))
  {
    StartRuns();
    AlnumAt("1start00398hhb.restored", 1, 5, 5);
    StartGroups();
  }

  /** The letters-then-digits match at `i` from the lengths of its two runs. */
  lemma AlnumAt(s: string, i: nat, nl: nat, nd: nat)
    requires i + nl < |s| && RunLength(s, i, Letters) == nl && MinLetters <= nl <= MaxLetters
    requires RunLength(s, i + nl, Digits) == nd && 1 <= nd <= MaxDigits
    ensures MatchAt(Alnum, s, i) == Some(Match(i, i + nl + nd, s[i..i + nl], s[i + nl..i + nl + nd]))
  {
  }

  lemma StartGroups()
    ensures "1start00398hhb.restored"[0..1] == "1"
    ensures "1start00398hhb.restored"[1..6] == "start"
    ensures "1start00398hhb.restored"[6..11] == "00398"
  {
    var s := "1start00398hhb.restored";
    assert s[1..6] == [s[1], s[2], s[3], s[4], s[5]];
  }

  lemma StartRuns()
    ensures RunLength("1start00398hhb.restored", 0, Digits) == 1
    ensures RunLength("1start00398hhb.restored", 1, Letters) == 5
    ensures RunLength("1start00398hhb.restored", 6, Digits) == 5
  {
    StartLetterRun();
    StartDigitRun();
    RunLengthIs("1start00398hhb.restored", 0, Digits, 1);
  }

  lemma StartLetterRun()
    ensures RunLength("1start00398hhb.restored", 1, Letters) == 5
  {
    RunLengthIs("1start00398hhb.restored", 1, Letters, 5);
  }

  lemma StartDigitRun()
    ensures RunLength("1start00398hhb.restored", 6, Digits) == 5
  {
    RunLengthIs("1start00398hhb.restored", 6, Digits, 5);
  }

  lemma StartIsStopWord()
    ensures Lower("start") in StopWords
  {
    assert Lower("start") == "start";
  }

  lemma StartAlnumStep()
    ensures AlnumStep("1start00398hhb.restored").None?
  {
    StartAlnumMatch();
    StartIsStopWord();
    AlnumStepAccepts("1start00398hhb.restored");
  }

  /** At the start, `1` then `start` is a digits-first reading, and `start` is a stop word. */
  lemma StartDigitFirstStep()
    ensures DigitFirstStep("1start00398hhb.restored").None?
  {
    StartDigitFirstAt();
    StartIsStopWord();
    DigitFirstStepAccepts("1start00398hhb.restored");
  }

  lemma StartDigitFirstAt()
    ensures MatchAt(DigitFirst, "1start00398hhb.restored", 0) == Some(Match(0, 6, "start", "1"))
  {
    StartRuns();
    StartGroups();
  }

  /** The one fallback match, `start00398`, has the invalid shape `^start[0-9]+`. */
  lemma StartFallback()
    ensures FallbackStep("1start00398hhb.restored").None?
  {
    var stem := "1start00398hhb.restored";
    var m := Match(1, 11, "start", "00398");
    StartStemHasNoHyphen();
    NoHyphenNoMatch(Standard, stem, 0);
    StartFound();
    StartMatchInvalid();
    assert Scored(stem, [m]) == [];
  }

  /** `re.finditer` yields `start00398` and nothing after it. */
  lemma StartFound()
    ensures FindAll(Alnum, "1start00398hhb.restored", 0) == [Match(1, 11, "start", "00398")]
  {
    var stem := "1start00398hhb.restored";
    StartAlnumMatch();
    StartTailHasNoDigit();
    NoDigitNoMatch(Alnum, stem, 11);
    FindAllStep(Alnum, stem, 0);
  }

  lemma StartTailHasNoDigit()
    ensures forall k :: 11 <= k < |"1start00398hhb.restored"| ==> !IsDigit("1start00398hhb.restored"[k])
  {
  }

  lemma StartMatchInvalid()
    ensures Score("1start00398hhb.restored", Match(1, 11, "start", "00398")).None?
  {
    var whole := "1start00398hhb.restored"[1..11];
    StartWholeIsLower();
    assert whole[..5] == "start" && IsDigit(whole[5]);
  }

  lemma StartWholeIsLower()
    ensures var whole := "1start00398hhb.restored"[1..11];
      Lower(whole) == whole && whole[..5] == "start" && IsDigit(whole[5])
  {
    StartWhole();
    StartLiteralIsLower();
  }

  lemma StartWhole()
    ensures "1start00398hhb.restored"[1..11] == "start00398"
  {
    StartGroups();
    assert "1start00398hhb.restored"[1..11] == "start" + "00398";
  }

  lemma StartLiteralIsLower()
    ensures var w := "start00398"; Lower(w) == w && w[..5] == "start" && IsDigit(w[5])
  {
    LowerFixes("start00398");
  }
}
