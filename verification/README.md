# metatube-rename-tool, modelled in Dafny

metatube-rename-tool renames video files after the catalogue designator in their
names, such as `ABC-123` or `ABC123`. This project models three parts of it.

- **`extract_code`** (`Extractor`, `Extraction`). It strips the extension, then tries
  five strategies in a fixed order and returns the first code one of them yields:
  1. the `@` segments of the stem;
  2. the first hyphenated match;
  3. the first letters-then-digits match;
  4. digits-then-letters at the start of the stem;
  5. a scored search over every match.

  Each strategy is a function. `Extractor.Extract` is the cascade. The method
  `Extraction.ExtractCode` runs the original's loops and is proved to compute
  `Extract`. Those loops are the `@` segment loop with its early return and the two
  `finditer` loops that fill `all_matches`.
- **The four regular expressions** (`Patterns`). Each is a scanner with Python's
  leftmost, greedy, backtracking semantics. `Patterns.Accepts` says which readings
  the regular expression allows. `Patterns.MatchAtIsGreedy` proves that the scanner
  returns the reading a backtracking engine tries first. `re.search` and
  `re.finditer` are built on per-position attempts.
- **The new name in `rename_files`** (`Rename`). It covers the `-cdN` episode
  marker, the kept extension, and the collision loop that tries `_1`, `_2`, … against
  the names in the directory. The directory is a finite set of names.
- **`check_duplicates.py`** (`Duplicates`). This is the seen-list scan over the test
  tables, the answer of `run_analysis`, and the exit status.

`ExtractorCases` works rows of the project's test table through the model.

The code is the reference where the test table disagrees with it:
- `dxxdom.com@DVMM275.mp4` is expected to give `DVMM-275` (test_metatube_rename.py:116).
  The code returns `DVMM275` from line 39, so the model does too
  (`ExtractorCases.AtSegmentKeptBare`).
- `1start00398hhb.restored.mp4` is expected to give `START-00398`
  (test_metatube_rename.py:161). Every strategy rejects the prefix `start`, so the
  code returns `None` (`ExtractorCases.StartPrefixRejected`).

Files:
- `text.dfy`: character classes, case mapping, substring tests, and the `Option` type.
- `paths.dfy`: `splitext`, `Path.suffix` and `str.split`.
- `patterns.dfy`: the regular expressions.
- `extractor.dfy`: the strategies and their properties.
- `extraction.dfy`: the imperative `extract_code`.
- `cases.dfy`: the test-table rows.
- `rename.dfy`: the new name.
- `duplicates.dfy`: the duplicate checker.

## Model

| member | source | states |
|---|---|---|
| Text.Upper | metatube_rename.py:139 | `str.upper()` keeps the length and upper-cases each ASCII letter in place |
| Text.Lower | metatube_rename.py:49 | `str.lower()` keeps the length and lower-cases each ASCII letter in place |
| Text.LowerUpper | metatube_rename.py:49-52 | lower-casing the upper-cased prefix gives the lower-cased prefix, so the stop-word test sees the same word either way |
| Text.LacksFirstChar | metatube_rename.py:47 | text without the first character of `t` does not contain `t` |
| Patterns.MatchAt | metatube_rename.py:43 | a match at `i` starts at `i` and ends after it, within the text |
| Patterns.MatchAtFacts | metatube_rename.py:43-67 | a match is a reading the regular expression accepts, with 2-10 letters and 1-6 digits; a digits-first match takes the whole leading digit run |
| Patterns.MatchAtIsGreedy | metatube_rename.py:43-67 | the scanner fails iff no reading exists at `i`; otherwise its reading is the one greedy backtracking tries first (longest first group, then longest second group) |
| Patterns.LetterFirstText | metatube_rename.py:43 | the groups sit in the text as letters, the hyphen if any, then digits; only Standard's tail extends past the digits |
| Patterns.StandardText | metatube_rename.py:43 | the hyphenated match up to its tail is `letters + "-" + digits` |
| Patterns.HyphenText | metatube_rename.py:29 | a match of `([A-Za-z]{2,10})-(\d{1,6})` covers exactly `letters + "-" + digits` |
| Patterns.AlnumText | metatube_rename.py:55 | a letters-then-digits match covers exactly `letters + digits` |
| Patterns.StandardTailIsGreedy | metatube_rename.py:43 | the optional `(?:-\d+)?` is taken iff a `-` and a digit follow the number, and then runs to the end of those digits |
| Patterns.Search | metatube_rename.py:44 | `re.search` returns a match of the pattern at its own start, at or after `from` |
| Patterns.SearchFacts | metatube_rename.py:44 | what `re.search` returns has groups of the allowed shape and is accepted by the regular expression |
| Patterns.SearchIsLeftmost | metatube_rename.py:44 | no match starts before the one `re.search` returns, and none exists when it returns nothing |
| Patterns.FindAllMatch | metatube_rename.py:91 | every element of `re.finditer` is a match of the pattern where it starts |
| Patterns.FindAllOrdered | metatube_rename.py:91 | `finditer` matches do not overlap and come in text order |
| Patterns.NoDigitNoMatch | metatube_rename.py:43-55 | with no digit in the text, `re.search` finds nothing and `re.finditer` yields nothing |
| Patterns.NoHyphenNoMatch | metatube_rename.py:43 | the hyphenated patterns find nothing in text without `-` |
| PathNames.RFind | metatube_rename.py:22 | `rfind` gives the last occurrence, or -1 when there is none |
| PathNames.Stem | metatube_rename.py:22 | `splitext(p)[0]` is a prefix of `p`; it is cut at the last `.` of the last component when a non-dot character precedes that dot, and otherwise it is all of `p` |
| PathNames.Suffix | metatube_rename.py:171 | `Path.suffix` is the end of the name from its last `.`, at least two characters long and never the whole name; it is non-empty iff the last `.` is neither the first nor the last character |
| PathNames.Split | metatube_rename.py:26 | `split('@')` gives at least one piece, none of them contains `@`, and joining the pieces gives back the text |
| PathNames.SplitOnce | metatube_rename.py:26 | text with one `@` splits into the parts before and after it |
| PathNames.JoinKeepsChars | metatube_rename.py:26 | every character of a piece occurs in the joined text |
| Extractor.Format | metatube_rename.py:52 | the f-string result matches `[A-Z]{2,10}-?[0-9]{1,6}` and keeps the upper-cased letters as its prefix; it has a hyphen iff one was asked for; it ends with the digits unchanged |
| Extractor.UpperIsFormat | metatube_rename.py:139 | upper-casing a candidate's text gives the same string as the f-string of its groups |
| Extractor.KeepAlnum | metatube_rename.py:36 | `re.sub(r'[^A-Za-z0-9]', '', s)` keeps only ASCII letters and digits taken from `s`; it keeps text made only of those whole and empties text with none of them |
| Extractor.KeepAlnumConcat | metatube_rename.py:36 | cleaning `a + b` gives cleaned `a` then cleaned `b`; with the two identity clauses this says every letter and digit is kept, in order, and nothing else |
| Extractor.BareCodeIsWholeMatch | metatube_rename.py:38 | the anchored check holds iff one reading of letters-then-digits covers the whole string |
| Extractor.HyphenSegmentCode | metatube_rename.py:29-33 | a segment yields a hyphenated code iff its first `([A-Za-z]{2,10})-(\d{1,6})` match exists and its prefix is outside the nine-word list; the code is a hyphenated designator |
| Extractor.HyphenSegmentTakesMatch | metatube_rename.py:29-33 | that code is the text of the first hyphenated match, upper-cased |
| Extractor.CleanSegmentCode | metatube_rename.py:36-39 | the cleaned segment yields a code iff it is a bare code, and the code is the cleaned segment upper-cased, with no hyphen |
| Extractor.BareCodeFormat | metatube_rename.py:39 | upper-casing a bare code is the hyphen-free f-string of its letters and digits |
| Extractor.SegmentCode | metatube_rename.py:28-39 | the hyphenated search decides when it yields a code, and only otherwise the cleaned segment; a segment yields a code iff one of the two does |
| Extractor.FirstSegmentCode | metatube_rename.py:25-39 | the `@` loop returns the code of the first segment, left to right, that yields one, and returns nothing iff no segment yields one |
| Extractor.StandardStep | metatube_rename.py:43-52 | strategy 2 returns a hyphenated designator whose prefix is not a stop word |
| Extractor.AlnumStep | metatube_rename.py:55-64 | strategy 3 returns a hyphen-free designator whose prefix is not a stop word |
| Extractor.DigitFirstStep | metatube_rename.py:67-77 | strategy 4 returns a hyphen-free designator whose prefix is not a stop word |
| Extractor.StandardStepAccepts | metatube_rename.py:44-50 | strategy 2 answers iff the first hyphenated match exists, does not start with `http`, does not contain `www` (both case-sensitive), and has no stop-word prefix |
| Extractor.StandardStepTakesFirstMatch | metatube_rename.py:51-52 | strategy 2 returns the first match without its `-digits` tail, upper-cased |
| Extractor.AlnumStepAccepts | metatube_rename.py:56-63 | strategy 3 answers iff the first match exists, its lower-cased 5-character window has none of `http`, `www`, `.com`, and its prefix is not a stop word |
| Extractor.AlnumStepTakesFirstMatch | metatube_rename.py:64 | strategy 3 returns the first match itself, upper-cased |
| Extractor.HyphenatedFormat | metatube_rename.py:52 | the code of a hyphenated match is its text up to the tail, upper-cased |
| Extractor.BareFormat | metatube_rename.py:64 | the code of a letters-then-digits match is the match, upper-cased |
| Extractor.DigitFirstStepAccepts | metatube_rename.py:68-76 | strategy 4 answers iff the stem starts with 1-6 digits and then at least two letters, and those letters are not a stop word |
| Extractor.DigitFirstStepReorders | metatube_rename.py:77 | strategy 4 returns the letters upper-cased, followed by the whole leading digit run |
| Extractor.DigitFirstFormat | metatube_rename.py:77 | the hyphen-free f-string of a digits-first match is the letters upper-cased, then the leading digits |
| Extractor.ScoredStep | metatube_rename.py:91-132 | scoring one more match appends its candidate, if it has one, at the end |
| Extractor.Score | metatube_rename.py:92-132 | a kept match is not start-shaped and has no URL marker within ten characters; it scores 30 iff it contains a hyphen, and 15 otherwise (when it is kept: HyphenKeeps, BareKeeps) |
| Extractor.HyphenKeeps | metatube_rename.py:92-121 | a hyphenated match is kept iff it is not start-shaped, no URL marker is within ten characters, and its prefix is not a stop word |
| Extractor.BareKeeps | metatube_rename.py:92-132 | a letters-then-digits match is kept under exactly the same three conditions, its text being alphanumeric, neither all digits nor all letters |
| Extractor.TopRanked | metatube_rename.py:137-138 | the head of the stable descending sort has the highest score, and every earlier candidate scores strictly less |
| Extractor.ScoreOfMatch | metatube_rename.py:109-132 | a hyphenated match can only score 30 and a letters-then-digits match only 15; either candidate upper-cases to a designator without a stop-word prefix |
| Extractor.HyphenatedRanked | metatube_rename.py:111-121 | a scored hyphenated match is ranked as hyphenated |
| Extractor.BareRanked | metatube_rename.py:122-132 | a scored letters-then-digits match is ranked as bare |
| Extractor.HyphenatedIsRanked | metatube_rename.py:119-121 | `letters-digits` with score 30 is a hyphenated designator candidate |
| Extractor.BareIsRanked | metatube_rename.py:130-132 | `lettersdigits` with score 15 is a bare designator candidate |
| Extractor.HyphenatedScore | metatube_rename.py:111-121 | a hyphenated match, if kept, is kept as `(30, letters-digits)` and its prefix is not a stop word |
| Extractor.BareScore | metatube_rename.py:122-132 | a letters-then-digits match, if kept, is kept as `(15, match)` and its prefix is not a stop word |
| Extractor.ScoredRanked | metatube_rename.py:91-132 | every candidate collected from matches of one pattern is ranked as that pattern dictates |
| Extractor.FoundRanked | metatube_rename.py:90-132 | the candidates from each `finditer` loop are ranked as their pattern dictates |
| Extractor.FirstRanked | metatube_rename.py:134-138 | the stable sort leaves the first candidate on top, ranked as the pattern that found it, because hyphenated candidates come first and outscore the rest |
| Extractor.FallbackStep | metatube_rename.py:81-141 | the fallback answers iff a candidate survives and returns the first candidate upper-cased: a designator without a stop-word prefix, hyphenated iff some hyphenated match survived |
| Extractor.Extract | metatube_rename.py:14-141 | `extract_code` returns nothing or a `[A-Z]{2,10}-?[0-9]{1,6}` code; without `@` in the stem, the prefix is never a stop word |
| Extractor.NoDigitNoCode | metatube_rename.py:22-141 | a stem without a digit yields nothing |
| Extractor.NoDigitSegment | metatube_rename.py:27-39 | a segment without a digit yields no code |
| Extractor.HyphenatedFirst | metatube_rename.py:43-52 | without `@`, an accepted hyphenated match is the result, even when a bare code comes earlier in the name |
| Extraction.CollectFor | metatube_rename.py:91-132 | the inner `finditer` loop appends exactly the candidates of its matches, in order |
| Extraction.CollectCandidates | metatube_rename.py:90-132 | `all_matches` holds the hyphenated candidates, then the letters-then-digits ones |
| Extraction.ExtractCode | metatube_rename.py:14-141 | the statement-by-statement `extract_code` computes `Extract` |
| ExtractorCases.FileListHasNoCode | test_metatube_rename.py:159 | `filelist.txt` yields nothing |
| ExtractorCases.DomainHasNoCode | test_metatube_rename.py:163 | `madoubt.com` yields nothing |
| ExtractorCases.EpisodeTailDropped | test_metatube_rename.py:153 | `MCBD-25-C-cd1.mkv` yields `MCBD-25` |
| ExtractorCases.AtSegmentKeptBare | metatube_rename.py:25-39 | `dxxdom.com@DVMM275.mp4` yields `DVMM275`, with no hyphen |
| ExtractorCases.StartPrefixRejected | metatube_rename.py:43-141 | `1start00398hhb.restored.mp4` yields nothing |
| Rename.Decimal | metatube_rename.py:193 | the counter's numeral is non-empty digits without a leading zero |
| Rename.ValueOfDecimal | metatube_rename.py:193 | reading the numeral back gives the counter |
| Rename.DecimalInjective | metatube_rename.py:191-193 | different counters are written differently |
| Rename.EpisodeAtSound | metatube_rename.py:174 | an episode match at `i` is a reading `-\d+-([0-9]+)(?=\.\|$)` accepts, and its group is the second digit run |
| Rename.EpisodeAtComplete | metatube_rename.py:174 | every reading the regular expression accepts at `i` is the one the scanner returns |
| Rename.EpisodeFrom | metatube_rename.py:174 | `re.search` gives the group of the match at the first position that has one, and nothing iff no position has one |
| Rename.Episode | metatube_rename.py:174-177 | the episode number is non-empty digits, found iff some position of the name matches |
| Rename.EpisodeIsNumber | metatube_rename.py:176-180 | the episode number is non-empty digits, so `if episode_num:` holds iff the search matched |
| Rename.BaseName | metatube_rename.py:180-183 | the new name before the extension starts with the code, followed by `-cd` and the episode number when there is one |
| Rename.CandidateName | metatube_rename.py:180-193 | every attempted name starts with the code and ends with the original extension |
| Rename.CandidateInjective | metatube_rename.py:188-195 | different attempts produce different names |
| Rename.ChooseName | metatube_rename.py:188-195 | the loop stops at the first attempt whose name does not exist or is the file's own name |
| Rename.TriedSize | metatube_rename.py:189-195 | the first `k` attempts are `k` different names |
| Rename.TriedStep | metatube_rename.py:189-195 | each attempt adds a name not tried before |
| Rename.TakenBound | metatube_rename.py:189 | the loop can take at most as many steps as there are existing names, so it ends |
| Rename.PlanRename | metatube_rename.py:166-200 | no code means skip; otherwise the name is the first free attempt; the file is left alone iff that name is its own; a new name never exists yet and starts with the code |
| Duplicates.EntriesOf | check_duplicates.py:26 | the cases of a category are visited in list order, each with its category's name |
| Duplicates.DistinctIsSeen | check_duplicates.py:21-31 | `all_filenames` has no repeats and holds exactly the filenames seen |
| Duplicates.DistinctAt | check_duplicates.py:30-31 | a filename is appended to `all_filenames` only at its first occurrence, so the list keeps first-occurrence order |
| Duplicates.DupsAt | check_duplicates.py:25-31 | entry `i` is reported iff its filename occurs in an earlier entry, and reports follow input order |
| Duplicates.Dups | check_duplicates.py:25-31 | every entry is either reported or is the first occurrence of its filename in `all_filenames`: the two lengths add up to the number of cases |
| Duplicates.DupsCount | check_duplicates.py:27-31 | a filename that occurs `k` times is reported `k - 1` times |
| Duplicates.DupsNonEmpty | check_duplicates.py:41-48 | something is reported iff two cases share a filename |
| Duplicates.EntriesIgnoreExpected | check_duplicates.py:26-27 | tables that differ only in expected values are scanned alike |
| Duplicates.FindDuplicates | check_duplicates.py:17-33 | the nested loops return the reported entries of the whole table |
| Duplicates.ScanCategory | check_duplicates.py:26-31 | the inner loop over one category continues the scan: the seen list and the reports become those of the entries so far plus this category's |
| Duplicates.RunAnalysis | check_duplicates.py:35-48 | `run_analysis` returns true iff two cases share a filename |
| Duplicates.ExitStatus | check_duplicates.py:50-53 | the exit status is 1 iff two cases share a filename, and 0 otherwise |

## Left out

- Directory traversal (`is_dir`, `os.walk`, `iterdir`), `file_path.rename` and its exception path, the prints, the renamed and failed counters, and the `argparse` `main` are I/O. `Rename.PlanRename` decides what happens to one file; the directory is given as a set of names.
- Rename.PlanRename: it compares names, not `Path` objects. The new path and the old one share a parent, and a designator, extension or episode number never contains `/`, so the two comparisons agree.
- Only ASCII is modelled. Python's `\d`, `isalpha()`, `isdigit()` and `isalnum()` also accept non-ASCII letters and digits. `[A-Za-z]` and `[0-9]` do not. Here every non-ASCII character is neither a letter nor a digit. Lower-casing changes only ASCII letters, and no non-ASCII character lower-cases to text that holds a stop word or a URL marker.
- PathNames.Stem and PathNames.Suffix are POSIX `splitext` and `Path.suffix` on one file name; Windows path rules are not modelled.
- The fallback's sort is modelled only through its first element. That is the only element `extract_code` reads.
- The invalid pattern `^[0-9]+start` (metatube_rename.py:85) and the `parts[0].isdigit()` swap (metatube_rename.py:126-127) are modelled as written. Both are dead: every candidate starts with a letter.
- The `TestAVRename` dependency of `TestChecker.__init__` and the test table itself are not part of this model. The checker takes the table as a sequence of categories in insertion order.
- Case invariance and idempotence of `extract_code` do not hold, so they are not claimed. `http-12.mp4` yields nothing and `HTTP-12.mp4` yields `HTTP-12`. `a@start123` yields `START123`, which re-extracts to nothing.
- The test-table rows the code does not satisfy are followed as the code behaves. These are `dxxdom.com@DVMM275.mp4` and the two `1start…hhb.restored.mp4` names; only the first `1start` row is worked through.
