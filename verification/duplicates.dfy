/**
 `check_duplicates.py`: the scan over the test tables that reports every test
 case whose filename already appeared in an earlier case, the boolean answer of
 `run_analysis` and the exit status of the script.
 */
module Duplicates {
  import opened Wrappers

  /** One `(filename, expected)` pair of a test table. */
  datatype TestCase = TestCase(filename: string, expected: Option<string>)

  /** One `category: cases` item of the `test_cases` dictionary, in insertion order. */
  datatype Category = Category(name: string, cases: seq<TestCase>)

  /** A `(category, filename)` pair, as the scan visits and reports them. */
  datatype Entry = Entry(category: string, filename: string)

  // ---------------------------------------------------------------------------
  // The cases in visiting order

  /** The cases of one category as entries, in list order. */
  function EntriesOf(name: string, cases: seq<TestCase>): (es: seq<Entry>)
    ensures |es| == |cases|
    ensures forall k :: 0 <= k < |es| ==> es[k] == Entry(name, cases[k].filename)
  {
    if cases == [] then []
    else EntriesOf(name, cases[..|cases| - 1]) + [Entry(name, cases[|cases| - 1].filename)]
  }

  /** All cases of all categories, categories in insertion order. */
  function Entries(categories: seq<Category>): (es: seq<Entry>) {
    if categories == [] then []
    else
      var last := categories[|categories| - 1];
      Entries(categories[..|categories| - 1]) + EntriesOf(last.name, last.cases)
  }

  /** Some entry carries filename `f`. */
  predicate Seen(es: seq<Entry>, f: string) {
    exists k :: 0 <= k < |es| && es[k].filename == f
  }

  /** Number of entries with filename `f`. */
  function Count(es: seq<Entry>, f: string): (n: nat) {
    if es == [] then 0
    else Count(es[..|es| - 1], f) + (if es[|es| - 1].filename == f then 1 else 0)
  }

  // ---------------------------------------------------------------------------
  // What the scan computes

  /** The entries whose filename occurred before them, in visiting order. Every
      entry is either reported here or is the first occurrence of its filename in
      `Distinct`, never both. */
  function Dups(es: seq<Entry>): (dups: seq<Entry>)
    ensures |dups| + |Distinct(es)| == |es|
  {
    if es == [] then []
    else
      var init, last := es[..|es| - 1], es[|es| - 1];
      Dups(init) + (if Seen(init, last.filename) then [last] else [])
  }

  /** The distinct filenames, each where it first occurs. */
  function Distinct(es: seq<Entry>): (names: seq<string>) {
    if es == [] then []
    else
      var init, last := es[..|es| - 1], es[|es| - 1];
      Distinct(init) + (if Seen(init, last.filename) then [] else [last.filename])
  }

  predicate NoRepeats(names: seq<string>) {
    forall i, j :: 0 <= i < j < |names| ==> names[i] != names[j]
  }

  /** `all_filenames` holds exactly the filenames seen, each once. */
  lemma {:induction false} DistinctIsSeen(es: seq<Entry>)
    ensures NoRepeats(Distinct(es))
    ensures forall f :: f in Distinct(es) <==> Seen(es, f)
    decreases |es|
  {
    if es != [] {
      var init, last := es[..|es| - 1], es[|es| - 1];
      DistinctIsSeen(init);
      forall f
        ensures Seen(es, f) <==> Seen(init, f) || f == last.filename
      {
        if Seen(es, f) && f != last.filename {
          var k :| 0 <= k < |es| && es[k].filename == f;
          assert init[k].filename == f;
        }
        if Seen(init, f) {
          var k :| 0 <= k < |init| && init[k].filename == f;
          assert es[k].filename == f;
        }
      }
    }
  }

  /** Entry `i` is reported exactly when its filename occurs before it, and the
      reports of the first `i` entries are the start of the whole report. */
  lemma {:induction false} DupsAt(es: seq<Entry>, i: nat)
    requires i < |es|
    ensures Dups(es[..i + 1]) == Dups(es[..i]) + (if Seen(es[..i], es[i].filename) then [es[i]] else [])
    ensures Dups(es[..i + 1]) <= Dups(es)
  {
    assert es[..i + 1][..i] == es[..i];
    DupsPrefix(es, i + 1);
  }

  lemma {:induction false} DupsPrefix(es: seq<Entry>, n: nat)
    requires n <= |es|
    ensures Dups(es[..n]) <= Dups(es)
    decreases |es|
  {
    if n < |es| {
      var init := es[..|es| - 1];
      assert es[..n] == init[..n];
      DupsPrefix(init, n);
    } else {
      assert es[..n] == es;
    }
  }

  /** Filename `f` of the distinct list sits where `f` first occurs: the distinct
      filenames of the first `i` entries are the start of the whole list. */
  lemma {:induction false} DistinctAt(es: seq<Entry>, i: nat)
    requires i < |es|
    ensures Distinct(es[..i + 1]) == Distinct(es[..i]) + (if Seen(es[..i], es[i].filename) then [] else [es[i].filename])
    ensures Distinct(es[..i + 1]) <= Distinct(es)
  {
    assert es[..i + 1][..i] == es[..i];
    DistinctPrefix(es, i + 1);
  }

  lemma {:induction false} DistinctPrefix(es: seq<Entry>, n: nat)
    requires n <= |es|
    ensures Distinct(es[..n]) <= Distinct(es)
    decreases |es|
  {
    if n < |es| {
      var init := es[..|es| - 1];
      assert es[..n] == init[..n];
      DistinctPrefix(init, n);
    } else {
      assert es[..n] == es;
    }
  }

  lemma {:induction false} SeenCount(es: seq<Entry>, f: string)
    ensures Seen(es, f) <==> Count(es, f) > 0
    decreases |es|
  {
    if es != [] {
      var init, last := es[..|es| - 1], es[|es| - 1];
      SeenCount(init, f);
      if Seen(es, f) && last.filename != f {
        var k :| 0 <= k < |es| && es[k].filename == f;
        assert init[k].filename == f;
      }
      if Seen(init, f) {
        var k :| 0 <= k < |init| && init[k].filename == f;
        assert es[k].filename == f;
      }
    }
  }

  /** A filename that occurs `k` times is reported `k - 1` times: every
      occurrence but the first. */
  lemma {:induction false} DupsCount(es: seq<Entry>, f: string)
    ensures Count(Dups(es), f) == if Count(es, f) == 0 then 0 else Count(es, f) - 1
    decreases |es|
  {
    if es != [] {
      var init, last := es[..|es| - 1], es[|es| - 1];
      DupsCount(init, f);
      SeenCount(init, last.filename);
      var extra := if Seen(init, last.filename) then [last] else [];
      CountConcat(Dups(init), extra, f);
    }
  }

  lemma {:induction false} CountConcat(a: seq<Entry>, b: seq<Entry>, f: string)
    ensures Count(a + b, f) == Count(a, f) + Count(b, f)
    decreases |b|
  {
    if b != [] {
      assert (a + b)[..|a + b| - 1] == a + b[..|b| - 1];
      CountConcat(a, b[..|b| - 1], f);
    } else {
      assert a + b == a;
    }
  }

  /** Something is reported exactly when two cases share a filename. */
  lemma {:induction false} DupsNonEmpty(es: seq<Entry>)
    ensures Dups(es) != [] <==> exists i, j :: 0 <= i < j < |es| && es[i].filename == es[j].filename
    decreases |es|
  {
    if es != [] {
      var init, last := es[..|es| - 1], es[|es| - 1];
      DupsNonEmpty(init);
      if exists i, j :: 0 <= i < j < |es| && es[i].filename == es[j].filename {
        var i, j :| 0 <= i < j < |es| && es[i].filename == es[j].filename;
        if j < |es| - 1 {
          assert init[i].filename == init[j].filename;
        } else {
          assert init[i].filename == last.filename;
        }
      }
      if Seen(init, last.filename) {
        var k :| 0 <= k < |init| && init[k].filename == last.filename;
        assert es[k].filename == es[|es| - 1].filename;
      }
      if exists i, j :: 0 <= i < j < |init| && init[i].filename == init[j].filename {
        var i, j :| 0 <= i < j < |init| && init[i].filename == init[j].filename;
        assert es[i].filename == es[j].filename;
      }
    }
  }

  /** Only filenames take part: tables that differ in expected values alone
      visit the same entries. */
  predicate SameFilenames(a: seq<Category>, b: seq<Category>) {
    && |a| == |b|
    && forall c :: 0 <= c < |a| ==>
      && a[c].name == b[c].name
      && |a[c].cases| == |b[c].cases|
      && forall i :: 0 <= i < |a[c].cases| ==> a[c].cases[i].filename == b[c].cases[i].filename
  }

  lemma {:induction false} EntriesIgnoreExpected(a: seq<Category>, b: seq<Category>)
    requires SameFilenames(a, b)
    ensures Entries(a) == Entries(b)
    decreases |a|
  {
    if a != [] {
      var n := |a| - 1;
      assert SameFilenames(a[..n], b[..n]);
      EntriesIgnoreExpected(a[..n], b[..n]);
      assert EntriesOf(a[n].name, a[n].cases) == EntriesOf(b[n].name, b[n].cases);
    }
  }

  // ---------------------------------------------------------------------------
  // The scan itself

  /** `find_duplicate_test_cases`: a seen-list scan over every case
      of every category. */
  method FindDuplicates(categories: seq<Category>) returns (duplicates: seq<Entry>)
    ensures duplicates == Dups(Entries(categories))
  {
    var allFilenames: seq<string> := [];
    duplicates := [];
    for c := 0 to |categories|
      invariant allFilenames == Distinct(Entries(categories[..c]))
      invariant duplicates == Dups(Entries(categories[..c]))
    {
      allFilenames, duplicates := ScanCategory(Entries(categories[..c]), categories[c], allFilenames, duplicates);
      CategoryStep(categories, c);
    }
    assert categories[..|categories|] == categories;
  }

  /** The inner loop over the cases of one category, continuing the scan of the
      entries `before` it. */
  method ScanCategory(ghost before: seq<Entry>, category: Category,
                      seen: seq<string>, found: seq<Entry>) returns (allFilenames: seq<string>, duplicates: seq<Entry>)
    requires seen == Distinct(before) && found == Dups(before)
    ensures allFilenames == Distinct(before + EntriesOf(category.name, category.cases))
    ensures duplicates == Dups(before + EntriesOf(category.name, category.cases))
  {
    allFilenames, duplicates := seen, found;
    assert before + EntriesOf(category.name, category.cases[..0]) == before;
    for i := 0 to |category.cases|
      invariant allFilenames == Distinct(before + EntriesOf(category.name, category.cases[..i]))
      invariant duplicates == Dups(before + EntriesOf(category.name, category.cases[..i]))
    {
      var filename := category.cases[i].filename;
      CaseStep(before, category, i);
      ScanStep(before + EntriesOf(category.name, category.cases[..i]), Entry(category.name, filename));
      if filename in allFilenames {
        duplicates := duplicates + [Entry(category.name, filename)];
      } else {
        allFilenames := allFilenames + [filename];
      }
    }
    assert category.cases[..|category.cases|] == category.cases;
  }

  /** One case scanned: it is reported when its filename is already in the
      list of seen filenames, and otherwise its filename joins that list. */
  lemma ScanStep(es: seq<Entry>, e: Entry)
    ensures e.filename in Distinct(es) ==> Dups(es + [e]) == Dups(es) + [e] && Distinct(es + [e]) == Distinct(es)
    ensures e.filename !in Distinct(es) ==> Dups(es + [e]) == Dups(es) && Distinct(es + [e]) == Distinct(es) + [e.filename]
  {
    Snoc(es, e);
    DistinctIsSeen(es);
  }

  lemma Snoc(es: seq<Entry>, e: Entry)
    ensures Dups(es + [e]) == Dups(es) + (if Seen(es, e.filename) then [e] else [])
    ensures Distinct(es + [e]) == Distinct(es) + (if Seen(es, e.filename) then [] else [e.filename])
  {
    assert (es + [e])[..|es|] == es;
  }

  lemma CaseStep(before: seq<Entry>, category: Category, i: nat)
    requires i < |category.cases|
    ensures var es := before + EntriesOf(category.name, category.cases[..i]);
      before + EntriesOf(category.name, category.cases[..i + 1]) == es + [Entry(category.name, category.cases[i].filename)]
  {
    assert category.cases[..i + 1][..i] == category.cases[..i];
  }

  lemma CategoryStep(categories: seq<Category>, c: nat)
    requires c < |categories|
    ensures Entries(categories[..c + 1]) == Entries(categories[..c]) + EntriesOf(categories[c].name, categories[c].cases)
  {
    assert categories[..c + 1][..c] == categories[..c];
  }

  /** `run_analysis`: whether any duplicate was found. */
  method RunAnalysis(categories: seq<Category>) returns (hasDuplicates: bool)
    ensures hasDuplicates <==>
      exists i, j :: (0 <= i < j < |Entries(categories)| &&
        Entries(categories)[i].filename == Entries(categories)[j].filename)
  {
    var duplicates := FindDuplicates(categories);
    DupsNonEmpty(Entries(categories));
    hasDuplicates := duplicates != [];
  }

  /** The script's exit status: 1 when a filename repeats, else 0. */
  method ExitStatus(categories: seq<Category>) returns (status: int)
    ensures status == 1 <==>
      exists i, j :: (0 <= i < j < |Entries(categories)| &&
        Entries(categories)[i].filename == Entries(categories)[j].filename)
    ensures status == 0 || status == 1
  {
    var hasDuplicates := RunAnalysis(categories);
    status := if hasDuplicates then 1 else 0;
  }
}
