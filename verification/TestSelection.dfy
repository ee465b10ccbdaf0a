/** Selecting tests by filter and shard, and a whole iteration from the flags on
    (gtest.cc). */
module TestSelection {
  import opened GlobFilters
  import opened Shuffles
  import opened TestRuns
  import opened TestSharding

  const DISABLE_TEST_FILTER := "DISABLED_*:*/DISABLED_*"

  /** What decides about a test: the filter flag, the flag to run disabled tests, and
      the shard, if sharding is on. */
  datatype Sharding = Everything | Shard(total: nat, index: nat)
  datatype Selection = Selection(filter: string, alsoRunDisabled: bool, sharding: Sharding)

  ghost predicate IsDisabled(suite: string, test: string) {
    Accepts(DISABLE_TEST_FILTER, suite) || Accepts(DISABLE_TEST_FILTER, test)
  }

  ghost predicate IsRunnable(sel: Selection, suite: string, test: string) {
    (sel.alsoRunDisabled || !IsDisabled(suite, test)) && Selects(sel.filter, suite + "." + test)
  }

  /** Which tests are runnable, over all shards: those of the first n suites and the
      first j of the next, in registration order. */
  ghost function Runnable(sel: Selection, suites: seq<TestSuite>, n: nat, j: nat): (r: seq<bool>)
    requires n <= |suites| && (if n < |suites| then j <= |suites[n].tests| else j == 0)
    decreases n, j
  {
    if j > 0 then Runnable(sel, suites, n, j - 1) + [IsRunnable(sel, suites[n].name, suites[n].tests[j - 1].name)]
    else if n > 0 then Runnable(sel, suites, n - 1, |suites[n - 1].tests|)
    else []
  }

  /** The last of the given tests is selected here. */
  ghost predicate LastChosen(sel: Selection, runnable: seq<bool>)
    requires runnable != [] && (sel.sharding.Shard? ==> sel.sharding.total > 0)
  {
    var k := |runnable| - 1;
    match sel.sharding
    case Everything => runnable[k]
    case Shard(total, index) => Selected(runnable, total, index, k)
  }

  /** How many of the given tests are selected here. */
  ghost function ChosenCount(sel: Selection, runnable: seq<bool>): nat
    requires sel.sharding.Shard? ==> sel.sharding.total > 0
  {
    match sel.sharding
    case Everything => IdOf(runnable, |runnable|)
    case Shard(total, index) => ShardSize(runnable, total, index, |runnable|)
  }

  lemma {:induction false} PrefixIds(runnable: seq<bool>, more: seq<bool>, k: nat)
    requires k <= |runnable|
    ensures IdOf(runnable + more, k) == IdOf(runnable, k)
  {
    if k > 0 {
      PrefixIds(runnable, more, k - 1);
    }
  }

  lemma {:induction false} PrefixShards(runnable: seq<bool>, more: seq<bool>, total: nat, shard: nat, k: nat)
    requires k <= |runnable| && total > 0
    ensures ShardSize(runnable + more, total, shard, k) == ShardSize(runnable, total, shard, k)
  {
    if k > 0 {
      PrefixShards(runnable, more, total, shard, k - 1);
      PrefixIds(runnable, more, k - 1);
    }
  }

  /** One more test: the next id is given out if it is runnable. */
  lemma ChooseNext(sel: Selection, runnable: seq<bool>, b: bool)
    requires sel.sharding.Shard? ==> sel.sharding.total > 0
    ensures var next := runnable + [b];
      && IdOf(next, |next|) == IdOf(runnable, |runnable|) + (if b then 1 else 0)
      && ChosenCount(sel, next) == ChosenCount(sel, runnable) + (if LastChosen(sel, next) then 1 else 0)
      && (LastChosen(sel, next) <==>
            b && match sel.sharding
                 case Everything => true
                 case Shard(total, index) => ShouldRunTestOnShard(total, index, IdOf(runnable, |runnable|)))
  {
    PrefixIds(runnable, [b], |runnable|);
    if sel.sharding.Shard? {
      PrefixShards(runnable, [b], sel.sharding.total, sel.sharding.index, |runnable|);
    }
  }

  /** Over all the shards every runnable test is selected once, the others never. */
  lemma OnExactlyOneShard(sel: Selection, total: nat, suites: seq<TestSuite>, n: nat, i: nat)
    requires total > 0 && n < |suites| && i < |suites[n].tests|
    ensures IsRunnable(sel, suites[n].name, suites[n].tests[i].name) <==>
      exists index: nat :: index < total && Chosen(sel.(sharding := Shard(total, index)), suites, n, i)
    ensures forall a: nat, b: nat ::
      (Chosen(sel.(sharding := Shard(total, a)), suites, n, i) &&
        Chosen(sel.(sharding := Shard(total, b)), suites, n, i)) ==> a == b
  {
    hide IsRunnable;
    var runnable := Runnable(sel, suites, n, i + 1);
    var last := |runnable| - 1;
    assert runnable[last] == IsRunnable(sel, suites[n].name, suites[n].tests[i].name);
    ExactlyOneShard(runnable, total, last);
    forall index: nat
      ensures Chosen(sel.(sharding := Shard(total, index)), suites, n, i) <==> Selected(runnable, total, index, last)
    {
      SameRunnable(sel, Shard(total, index), suites, n, i + 1);
    }
  }

  /** Which tests are runnable does not depend on the shard. */
  lemma {:induction false} SameRunnable(sel: Selection, sharding: Sharding, suites: seq<TestSuite>, n: nat, j: nat)
    requires n <= |suites| && (if n < |suites| then j <= |suites[n].tests| else j == 0)
    ensures Runnable(sel.(sharding := sharding), suites, n, j) == Runnable(sel, suites, n, j)
    decreases n, j
  {
    if j > 0 {
      SameRunnable(sel, sharding, suites, n, j - 1);
    } else if n > 0 {
      SameRunnable(sel, sharding, suites, n - 1, |suites[n - 1].tests|);
    }
  }

  /** The i-th test of the n-th suite is selected. */
  ghost predicate Chosen(sel: Selection, suites: seq<TestSuite>, n: nat, i: nat)
    requires sel.sharding.Shard? ==> sel.sharding.total > 0
    requires n < |suites| && i < |suites[n].tests|
  {
    LastChosen(sel, Runnable(sel, suites, n, i + 1))
  }

  /** The first j tests of the n-th suite are marked as the selection says. */
  ghost predicate Marked(sel: Selection, suites: seq<TestSuite>, n: nat, suite: TestSuite, j: nat)
    requires sel.sharding.Shard? ==> sel.sharding.total > 0
    requires n < |suites| && suite == suites[n] && j <= |suite.tests|
    reads suite`shouldRun, suite.tests`shouldRun
  {
    && (forall i :: 0 <= i < j ==> (suite.tests[i].shouldRun <==> Chosen(sel, suites, n, i)))
    && (suite.shouldRun <==> exists i :: 0 <= i < j && suite.tests[i].shouldRun)
  }

  /** The filters FilterTests builds once for all tests. */
  datatype Filters = Filters(flag: PositiveAndNegativeFilter, disable: UnitTestFilter) {
    ghost predicate BuiltFor(sel: Selection) {
      flag.BuiltFrom(sel.filter) && disable.StandsFor(Split(DISABLE_TEST_FILTER, ':'))
    }
  }

  /** The suite's name or the test's matches the filter for disabled tests. */
  method FindDisabled(disable: UnitTestFilter, suiteName: string, testName: string) returns (isDisabled: bool)
    requires disable.StandsFor(Split(DISABLE_TEST_FILTER, ':'))
    ensures isDisabled <==> IsDisabled(suiteName, testName)
  {
    hide Split, GlobMatches, disable.StandsFor;
    isDisabled := disable.MatchesName(suiteName);
    if !isDisabled {
      isDisabled := disable.MatchesName(testName);
    }
  }

  /** The flags of one test; id is the number of runnable tests before it. */
  method FilterTest(sel: Selection, filters: Filters, suiteName: string, test: TestInfo, id: nat)
    returns (isRunnable: bool, isSelected: bool)
    requires sel.sharding.Shard? ==> sel.sharding.total > 0
    requires filters.BuiltFor(sel)
    modifies test`isDisabled, test`matchesFilter, test`isInAnotherShard
    ensures isRunnable <==> IsRunnable(sel, suiteName, test.name)
    ensures isSelected <==>
      isRunnable && (sel.sharding.Shard? ==> ShouldRunTestOnShard(sel.sharding.total, sel.sharding.index, id))
    ensures test.isDisabled <==> IsDisabled(suiteName, test.name)
    ensures test.matchesFilter <==> Selects(sel.filter, suiteName + "." + test.name)
    ensures test.isInAnotherShard <==>
      sel.sharding.Shard? && !ShouldRunTestOnShard(sel.sharding.total, sel.sharding.index, id)
  {
    hide Selects, Split, IsDisabled, UnitTestFilter.StandsFor, PositiveAndNegativeFilter.BuiltFrom;
    var isDisabled := FindDisabled(filters.disable, suiteName, test.name);
    test.isDisabled := isDisabled;
    var matchesFilter := filters.flag.MatchesTest(suiteName, test.name, sel.filter);
    test.matchesFilter := matchesFilter;
    isRunnable := (sel.alsoRunDisabled || !isDisabled) && matchesFilter;
    test.isInAnotherShard := match sel.sharding
      case Everything => false
      case Shard(total, index) => !ShouldRunTestOnShard(total, index, id);
    isSelected := isRunnable && !test.isInAnotherShard;
  }

  /** The j-th test of a suite: its verdict, and the suite's with it. */
  method MarkNext(sel: Selection, filters: Filters, ghost suites: seq<TestSuite>, ghost n: nat, suite: TestSuite,
                  j: nat, id: nat)
    returns (isRunnable: bool, isSelected: bool)
    requires sel.sharding.Shard? ==> sel.sharding.total > 0
    requires filters.BuiltFor(sel)
    requires n < |suites| && suite == suites[n] && suite.Valid() && j < |suite.tests|
    requires id == IdOf(Runnable(sel, suites, n, j), |Runnable(sel, suites, n, j)|)
    requires Marked(sel, suites, n, suite, j)
    modifies suite`shouldRun, suite.tests`shouldRun, suite.tests`isDisabled, suite.tests`matchesFilter,
      suite.tests`isInAnotherShard
    ensures Marked(sel, suites, n, suite, j + 1)
    ensures isRunnable <==> IsRunnable(sel, suite.name, suite.tests[j].name)
    ensures isSelected <==> Chosen(sel, suites, n, j)
    ensures var all, next := Runnable(sel, suites, n, j), Runnable(sel, suites, n, j + 1);
      && IdOf(next, |next|) == id + (if isRunnable then 1 else 0)
      && ChosenCount(sel, next) == ChosenCount(sel, all) + (if isSelected then 1 else 0)
  {
    hide IsRunnable, Permutes, filters.BuiltFor, ShardSize, IdOf, ChosenCount;
    var test := suite.tests[j];
    isRunnable, isSelected := FilterTest(sel, filters, suite.name, test, id);
    ChooseNext(sel, Runnable(sel, suites, n, j), isRunnable);
    hide Runnable, LastChosen;
    test.shouldRun := isSelected;
    suite.shouldRun := suite.shouldRun || isSelected;
  }

  /** One suite. */
  method FilterSuite(sel: Selection, filters: Filters, ghost suites: seq<TestSuite>, ghost n: nat, suite: TestSuite,
                     runnableSoFar: nat)
    returns (runnable: nat, selected: nat)
    requires sel.sharding.Shard? ==> sel.sharding.total > 0
    requires filters.BuiltFor(sel)
    requires n < |suites| && suite == suites[n] && suite.Valid()
    requires runnableSoFar == IdOf(Runnable(sel, suites, n, 0), |Runnable(sel, suites, n, 0)|)
    modifies suite`shouldRun, suite.tests`shouldRun, suite.tests`isDisabled, suite.tests`matchesFilter,
      suite.tests`isInAnotherShard
    ensures Marked(sel, suites, n, suite, |suite.tests|)
    ensures var all := Runnable(sel, suites, n, |suite.tests|);
      runnable == IdOf(all, |all|) && selected == ChosenCount(sel, all) - ChosenCount(sel, Runnable(sel, suites, n, 0))
  {
    hide IsRunnable, LastChosen, ChosenCount, Permutes, filters.BuiltFor, IdOf, Runnable;
    suite.shouldRun := false;
    runnable, selected := runnableSoFar, 0;
    for j := 0 to |suite.tests|
      invariant Marked(sel, suites, n, suite, j)
      invariant runnable == IdOf(Runnable(sel, suites, n, j), |Runnable(sel, suites, n, j)|)
      invariant selected ==
        ChosenCount(sel, Runnable(sel, suites, n, j)) - ChosenCount(sel, Runnable(sel, suites, n, 0))
    {
      var isRunnable, isSelected := MarkNext(sel, filters, suites, n, suite, j, runnable);
      runnable := runnable + (if isRunnable then 1 else 0);
      selected := selected + (if isSelected then 1 else 0);
    }
  }

  /** The flags say which tests of the first n suites are selected, and which of these
      suites have a selected test. */
  ghost predicate MarkedBelow(sel: Selection, suites: seq<TestSuite>, n: nat, suiteFlags: map<TestSuite, bool>,
                              flags: map<TestInfo, bool>)
    requires sel.sharding.Shard? ==> sel.sharding.total > 0
    requires n <= |suites| && (forall s :: s in suites ==> s in suiteFlags) && flags.Keys == AllTests(suites)
  {
    SuiteTestsAreTests(suites);
    forall m :: 0 <= m < n ==>
      && (forall i :: 0 <= i < |suites[m].tests| ==>
            (flags[suites[m].tests[i]] <==> Chosen(sel, suites, m, i)))
      && (suiteFlags[suites[m]] <==> exists i :: 0 <= i < |suites[m].tests| && flags[suites[m].tests[i]])
  }

  lemma SuiteTestsAreTests(suites: seq<TestSuite>)
    ensures forall m, t :: 0 <= m < |suites| && t in suites[m].tests ==> t in AllTests(suites)
    ensures forall t :: t in AllTests(suites) ==> exists m :: 0 <= m < |suites| && t in suites[m].tests
  {
    forall m, t | 0 <= m < |suites| && t in suites[m].tests ensures t in AllTests(suites) {
      assert suites[m] in suites;
    }
  }

  ghost function SuiteFlags(suites: seq<TestSuite>): map<TestSuite, bool>
    reads suites`shouldRun
  {
    map s | s in suites :: s.shouldRun
  }

  ghost function TestFlags(suites: seq<TestSuite>): map<TestInfo, bool>
    reads AllTests(suites)`shouldRun
  {
    map t | t in AllTests(suites) :: t.shouldRun
  }

  /** Marking one more suite leaves the flags of the suites before it alone. */
  lemma MarkedOneMore(sel: Selection, suites: seq<TestSuite>, n: nat,
                      suitesWere: map<TestSuite, bool>, were: map<TestInfo, bool>,
                      suitesAre: map<TestSuite, bool>, are: map<TestInfo, bool>)
    requires sel.sharding.Shard? ==> sel.sharding.total > 0
    requires n < |suites| && Separate(suites) && forall s :: s in suites ==> s in suitesWere && s in suitesAre
    requires were.Keys == are.Keys == AllTests(suites) && MarkedBelow(sel, suites, n, suitesWere, were)
    requires forall s :: s in suites && s != suites[n] ==> suitesAre[s] == suitesWere[s]
    requires forall t :: t in are && t !in suites[n].tests ==> are[t] == were[t]
    requires forall i :: 0 <= i < |suites[n].tests| ==>
      suites[n].tests[i] in are && (are[suites[n].tests[i]] <==> Chosen(sel, suites, n, i))
    requires suitesAre[suites[n]] <==> exists i :: 0 <= i < |suites[n].tests| && are[suites[n].tests[i]]
    ensures MarkedBelow(sel, suites, n + 1, suitesAre, are)
  {
    hide LastChosen, Runnable, AllTests;
    SuiteTestsAreTests(suites);
    forall m | 0 <= m < n
      ensures forall i :: 0 <= i < |suites[m].tests| ==>
        suites[m].tests[i] in are && are[suites[m].tests[i]] == were[suites[m].tests[i]]
      ensures suitesAre[suites[m]] == suitesWere[suites[m]]
    {
      assert suites[m] != suites[n] && forall t :: t in suites[m].tests ==> t !in suites[n].tests;
    }
  }

  /** The next suite; the marks of the suites before it stay. */
  method FilterNext(sel: Selection, filters: Filters, suites: seq<TestSuite>, n: nat, runnableSoFar: nat)
    returns (runnable: nat, selected: nat)
    requires sel.sharding.Shard? ==> sel.sharding.total > 0
    requires filters.BuiltFor(sel)
    requires Separate(suites) && n < |suites| && suites[n].Valid()
    requires runnableSoFar == IdOf(Runnable(sel, suites, n, 0), |Runnable(sel, suites, n, 0)|)
    requires MarkedBelow(sel, suites, n, SuiteFlags(suites), TestFlags(suites))
    modifies suites`shouldRun, AllTests(suites)`shouldRun, AllTests(suites)`isDisabled,
             AllTests(suites)`matchesFilter, AllTests(suites)`isInAnotherShard
    ensures MarkedBelow(sel, suites, n + 1, SuiteFlags(suites), TestFlags(suites))
    ensures var all := Runnable(sel, suites, n + 1, 0);
      runnable == IdOf(all, |all|) && selected == ChosenCount(sel, all) - ChosenCount(sel, Runnable(sel, suites, n, 0))
  {
    hide IsRunnable, LastChosen, ChosenCount, Permutes, filters.BuiltFor, IdOf, MarkedBelow, AllTests, Separate;
    var suite := suites[n];
    SuiteTestsAreTests(suites);
    ghost var suitesWere, were := SuiteFlags(suites), TestFlags(suites);
    runnable, selected := FilterSuite(sel, filters, suites, n, suite, runnableSoFar);
    assert Runnable(sel, suites, n + 1, 0) == Runnable(sel, suites, n, |suite.tests|);
    hide Runnable;
    ghost var are := TestFlags(suites);
    forall t | t in are && t !in suite.tests ensures are[t] == were[t] {
      var m :| 0 <= m < |suites| && t in suites[m].tests;
      var i :| 0 <= i < |suites[m].tests| && t == suites[m].tests[i];
      assert suites[m].tests[i].shouldRun == old(suites[m].tests[i].shouldRun);
    }
    MarkedOneMore(sel, suites, n, suitesWere, were, SuiteFlags(suites), are);
  }

  /** FilterTests: marks every test as selected or not, every suite as to be run if
      one of its tests is, and counts the selected tests. */
  method FilterTests(sel: Selection, suites: seq<TestSuite>) returns (selected: nat)
    requires sel.sharding.Shard? ==> sel.sharding.total > 0
    requires Separate(suites) && forall k :: 0 <= k < |suites| ==> suites[k].Valid()
    modifies suites`shouldRun, AllTests(suites)`shouldRun, AllTests(suites)`isDisabled,
             AllTests(suites)`matchesFilter, AllTests(suites)`isInAnotherShard
    ensures MarkedBelow(sel, suites, |suites|, SuiteFlags(suites), TestFlags(suites))
    ensures selected == ChosenCount(sel, Runnable(sel, suites, |suites|, 0))
  {
    hide Separate, Permutes, Split, AllTests;
    var flag := MakePositiveAndNegativeFilter(sel.filter);
    var disable := MakeFilter(DISABLE_TEST_FILTER);
    var filters := Filters(flag, disable);
    assert filters.BuiltFor(sel);
    hide filters.BuiltFor;
    NothingMarked(sel, suites);
    var runnable := 0;
    selected := 0;
    hide Runnable, ChosenCount, IdOf, MarkedBelow;
    for n := 0 to |suites|
      invariant MarkedBelow(sel, suites, n, SuiteFlags(suites), TestFlags(suites))
      invariant runnable == IdOf(Runnable(sel, suites, n, 0), |Runnable(sel, suites, n, 0)|)
      invariant selected == ChosenCount(sel, Runnable(sel, suites, n, 0))
    {
      var more;
      runnable, more := FilterNext(sel, filters, suites, n, runnable);
      selected := selected + more;
    }
  }

  lemma NothingMarked(sel: Selection, suites: seq<TestSuite>)
    requires sel.sharding.Shard? ==> sel.sharding.total > 0
    ensures MarkedBelow(sel, suites, 0, SuiteFlags(suites), TestFlags(suites))
    ensures var none := Runnable(sel, suites, 0, 0);
      IdOf(none, |none|) == 0 && ChosenCount(sel, none) == 0
  {
  }

  // ----- the whole iteration

  lemma {:induction false} CountGrows(sel: Selection, suites: seq<TestSuite>, n: nat, j: nat, k: nat)
    requires sel.sharding.Shard? ==> sel.sharding.total > 0
    requires n < |suites| && j <= k <= |suites[n].tests|
    ensures ChosenCount(sel, Runnable(sel, suites, n, j)) <= ChosenCount(sel, Runnable(sel, suites, n, k))
  {
    if j < k {
      CountGrows(sel, suites, n, j, k - 1);
      ChooseNext(sel, Runnable(sel, suites, n, k - 1), IsRunnable(sel, suites[n].name, suites[n].tests[k - 1].name));
    }
  }

  lemma {:induction false} CountGrowsOverSuites(sel: Selection, suites: seq<TestSuite>, n: nat, m: nat)
    requires sel.sharding.Shard? ==> sel.sharding.total > 0
    requires n <= m <= |suites|
    ensures ChosenCount(sel, Runnable(sel, suites, n, 0)) <= ChosenCount(sel, Runnable(sel, suites, m, 0))
  {
    hide ChosenCount, IsRunnable;
    if n < m {
      CountGrowsOverSuites(sel, suites, n, m - 1);
      CountGrows(sel, suites, m - 1, 0, |suites[m - 1].tests|);
    }
  }

  /** If a test is selected, the number of selected tests is not zero. */
  lemma ChosenIsCounted(sel: Selection, suites: seq<TestSuite>, n: nat, i: nat)
    requires sel.sharding.Shard? ==> sel.sharding.total > 0
    requires n < |suites| && i < |suites[n].tests| && Chosen(sel, suites, n, i)
    ensures ChosenCount(sel, Runnable(sel, suites, |suites|, 0)) > 0
  {
    ChooseNext(sel, Runnable(sel, suites, n, i), IsRunnable(sel, suites[n].name, suites[n].tests[i].name));
    assert ChosenCount(sel, Runnable(sel, suites, n, i + 1)) > 0;
    hide ChosenCount, LastChosen, IsRunnable;
    CountGrows(sel, suites, n, i + 1, |suites[n].tests|);
    CountGrowsOverSuites(sel, suites, n + 1, |suites|);
  }

  ghost function DueMap(suites: seq<TestSuite>): map<TestInfo, nat>
    reads AllTests(suites)`shouldRun
  {
    map t | t in AllTests(suites) :: Due(t)
  }

  /** One report is due for each selected test. */
  ghost predicate DueAsChosen(sel: Selection, suites: seq<TestSuite>, due: map<TestInfo, nat>)
    requires sel.sharding.Shard? ==> sel.sharding.total > 0
  {
    && due.Keys == AllTests(suites)
    && forall n, i :: 0 <= n < |suites| && 0 <= i < |suites[n].tests| ==>
         suites[n].tests[i] in due && due[suites[n].tests[i]] == if Chosen(sel, suites, n, i) then 1 else 0
  }

  /** After filtering a suite is to be run if one of its tests is, so no selected test
      is lost with its suite. */
  lemma MarkedIsDue(sel: Selection, suites: seq<TestSuite>)
    requires sel.sharding.Shard? ==> sel.sharding.total > 0
    requires MarkedBelow(sel, suites, |suites|, SuiteFlags(suites), TestFlags(suites))
    ensures IsDue(suites, DueMap(suites)) && DueAsChosen(sel, suites, DueMap(suites))
  {
    hide Chosen, AllTests;
    SuiteTestsAreTests(suites);
  }

  lemma NothingDue(sel: Selection, suites: seq<TestSuite>, due: map<TestInfo, nat>)
    requires sel.sharding.Shard? ==> sel.sharding.total > 0
    requires ChosenCount(sel, Runnable(sel, suites, |suites|, 0)) == 0 && DueAsChosen(sel, suites, due)
    ensures forall t :: t in due ==> due[t] == 0
  {
    hide ChosenCount, Chosen, Runnable, AllTests;
    SuiteTestsAreTests(suites);
    forall t | t in due ensures due[t] == 0 {
      var n :| 0 <= n < |suites| && t in suites[n].tests;
      var i :| 0 <= i < |suites[n].tests| && suites[n].tests[i] == t;
      if Chosen(sel, suites, n, i) {
        ChosenIsCounted(sel, suites, n, i);
      }
    }
  }

  /** How often each test has been reported, and how often it was run. */
  datatype Tally = Tally(handled: map<TestInfo, nat>, ran: map<TestInfo, nat>)

  ghost function TallyOf(suites: seq<TestSuite>): Tally
    reads AllTests(suites)`ran, AllTests(suites)`skipped
  {
    Tally(HandledMap(suites), RanMap(suites))
  }

  /** Filtering reports nothing. */
  method MarkTests(sel: Selection, suites: seq<TestSuite>) returns (selected: nat)
    requires sel.sharding.Shard? ==> sel.sharding.total > 0
    requires Separate(suites) && forall k :: 0 <= k < |suites| ==> suites[k].Valid()
    modifies suites`shouldRun, AllTests(suites)`shouldRun, AllTests(suites)`isDisabled,
             AllTests(suites)`matchesFilter, AllTests(suites)`isInAnotherShard
    ensures MarkedBelow(sel, suites, |suites|, SuiteFlags(suites), TestFlags(suites))
    ensures selected == ChosenCount(sel, Runnable(sel, suites, |suites|, 0))
    ensures TallyOf(suites) == old(TallyOf(suites))
  {
    hide LastChosen, Runnable, Permutes, MarkedBelow, ChosenCount, Separate, TallyOf;
    selected := FilterTests(sel, suites);
  }

  /** Filtering first: then it is known what is due. */
  method SelectTests(impl: UnitTestImpl, sel: Selection) returns (selected: nat, ghost due: map<TestInfo, nat>)
    requires sel.sharding.Shard? ==> sel.sharding.total > 0
    requires impl.Valid()
    modifies impl.testSuites`shouldRun, AllTests(impl.testSuites)`shouldRun, AllTests(impl.testSuites)`isDisabled,
             AllTests(impl.testSuites)`matchesFilter, AllTests(impl.testSuites)`isInAnotherShard
    ensures impl.Valid() && IsDue(impl.testSuites, due) && DueAsChosen(sel, impl.testSuites, due)
    ensures TallyOf(impl.testSuites) == old(TallyOf(impl.testSuites))
    ensures selected == ChosenCount(sel, Runnable(sel, impl.testSuites, |impl.testSuites|, 0))
    ensures selected == 0 ==> forall t :: t in due ==> due[t] == 0
  {
    hide LastChosen, Runnable, AllTests, IsDue, Permutes, MarkedBelow, ChosenCount, Separate, DueAsChosen, TallyOf,
      impl.Valid;
    ghost var suites := impl.testSuites;
    ValidSuites(impl);
    selected := MarkTests(sel, impl.testSuites);
    MarkedIsDue(sel, suites);
    due := DueMap(suites);
    if selected == 0 {
      NothingDue(sel, suites, due);
    }
  }

  lemma ValidSuites(impl: UnitTestImpl)
    requires impl.Valid()
    ensures Separate(impl.testSuites) && forall k :: 0 <= k < |impl.testSuites| ==> impl.testSuites[k].Valid()
  {
  }

  /** How many of the iterations did not skip everything. */
  function Reporting(setUps: seq<SetUpOutcome>): nat {
    if setUps == [] then 0 else Reporting(setUps[..|setUps| - 1]) + (if setUps[|setUps| - 1].Skipped? then 0 else 1)
  }

  lemma DueOnce(sel: Selection, suites: seq<TestSuite>, due: map<TestInfo, nat>)
    requires sel.sharding.Shard? ==> sel.sharding.total > 0
    requires DueAsChosen(sel, suites, due)
    ensures forall t :: t in due ==> due[t] <= 1
  {
    hide Chosen, AllTests;
    SuiteTestsAreTests(suites);
    forall t | t in due ensures due[t] <= 1 {
      var n :| 0 <= n < |suites| && t in suites[n].tests;
      var i :| 0 <= i < |suites[n].tests| && suites[n].tests[i] == t;
    }
  }

  lemma NoneReported(before: map<TestInfo, nat>, due: map<TestInfo, nat>, times: nat)
    requires before.Keys == due.Keys && forall t :: t in due ==> due[t] == 0
    ensures ReportedTimes(before, before, due, times)
  {
  }

  lemma ReportedJoin(a: map<TestInfo, nat>, b: map<TestInfo, nat>, c: map<TestInfo, nat>,
                     due: map<TestInfo, nat>, m: nat, n: nat)
    requires ReportedTimes(a, b, due, m) && ReportedTimes(b, c, due, n)
    ensures ReportedTimes(a, c, due, m + n)
  {
  }

  // ----- the log of the iterations

  /** One iteration: the order of its tests, and the tallies around it. */
  datatype Iteration = Iteration(schedule: seq<seq<TestInfo>>, before: Tally, after: Tally) {
    /** No test behind one whose run failed in this iteration was run in it. */
    ghost predicate Halts() {
      HaltsAtFailure(schedule, before.ran, after.ran, FailedIn(before.ran, after.ran))
    }
  }

  /** In this iteration every test was reported as often as due, unless everything was
      skipped; none was run unless set-up was fine; with failFast none behind a failed one. */
  ghost predicate Fits(it: Iteration, due: map<TestInfo, nat>, setUp: SetUpOutcome, failFast: bool) {
    && ReportedTimes(it.before.handled, it.after.handled, due, if setUp.Skipped? then 0 else 1)
    && (!setUp.Fine? ==> it.after.ran == it.before.ran)
    && (failFast ==> it.Halts())
  }

  /** The iterations follow one another, from the first tally to the last. */
  ghost predicate Linked(log: seq<Iteration>, first: Tally, last: Tally) {
    if log == [] then first == last
    else
      var init, it := log[..|log| - 1], log[|log| - 1];
      Linked(init, first, it.before) && it.after == last
  }

  lemma LinkedSnoc(log: seq<Iteration>, it: Iteration, first: Tally, middle: Tally)
    requires Linked(log, first, middle) && it.before == middle
    ensures Linked(log + [it], first, it.after)
  {
    assert (log + [it])[..|log|] == log;
  }

  /** Over all the iterations. */
  lemma {:induction false} LogTotals(log: seq<Iteration>, first: Tally, last: Tally, due: map<TestInfo, nat>,
                                     setUps: seq<SetUpOutcome>, failFast: bool)
    requires Linked(log, first, last) && |log| == |setUps|
    requires first.handled.Keys == due.Keys && forall t :: t in due ==> due[t] <= 1
    requires forall k :: 0 <= k < |log| ==> Fits(log[k], due, setUps[k], failFast)
    ensures ReportedTimes(first.handled, last.handled, due, Reporting(setUps))
  {
    if log != [] {
      var n := |log| - 1;
      var times := if setUps[n].Skipped? then 0 else 1;
      LogTotals(log[..n], first, log[n].before, due, setUps[..n], failFast);
      ReportedJoin(first.handled, log[n].before.handled, last.handled, due, Reporting(setUps[..n]), times);
    }
  }

  /** One iteration when no test is selected. */
  method RunNothing(impl: UnitTestImpl)
    requires impl.Valid()
    modifies impl.suiteIndices, set s | s in impl.testSuites :: s.testIndices
    modifies AllTests(impl.testSuites)`failed
    ensures impl.Valid() && impl.InOrder()
    ensures TallyOf(impl.testSuites) == old(TallyOf(impl.testSuites))
  {
    hide TallyOf, impl.Valid, impl.InOrder, impl.Unshuffled, FailedTests;
    impl.ClearNonAdHocTestResult();
    impl.UnshuffleTests();
  }

  /** In this iteration the i-th test of the n-th suite was reported once if it is selected
      and not everything was skipped, else not at all; and with failFast nothing was run
      behind a failed test. */
  ghost predicate RanAsChosen(it: Iteration, sel: Selection, suites: seq<TestSuite>, setUp: SetUpOutcome,
                              failFast: bool)
    requires sel.sharding.Shard? ==> sel.sharding.total > 0
  {
    && (forall n, i :: 0 <= n < |suites| && 0 <= i < |suites[n].tests| ==>
          var t := suites[n].tests[i];
          && t in it.before.handled && t in it.after.handled
          && it.after.handled[t] ==
            it.before.handled[t] + (if !setUp.Skipped? && Chosen(sel, suites, n, i) then 1 else 0))
    && (!setUp.Fine? ==> it.after.ran == it.before.ran)
    && (failFast ==> it.Halts())
  }

  lemma FitsAsChosen(it: Iteration, sel: Selection, suites: seq<TestSuite>, due: map<TestInfo, nat>,
                     setUp: SetUpOutcome, failFast: bool)
    requires sel.sharding.Shard? ==> sel.sharding.total > 0
    requires DueAsChosen(sel, suites, due) && Fits(it, due, setUp, failFast)
    ensures RanAsChosen(it, sel, suites, setUp, failFast)
  {
    hide Chosen, AllTests, Iteration.Halts;
  }

  /** RunAllTests from the flags on, with a finite repeat count. The log has one entry for
      each iteration: there each selected test is run or skipped once, unless global set-up
      asks to skip everything, the others never; with failFast nothing is run behind a
      failed test. From registration order, every iteration has the one schedule its own
      seed gives. Afterwards the order is restored. */
  method RunAllTests(impl: UnitTestImpl, sel: Selection, repeat: nat, shuffle: bool, rawSeed: nat, failFast: bool,
                     setUps: seq<SetUpOutcome>, random: Random) returns (ghost log: seq<Iteration>)
    requires sel.sharding.Shard? ==> sel.sharding.total > 0
    requires impl.Valid() && |setUps| == repeat && rawSeed < 0x1_0000_0000
    modifies random, impl.suiteIndices, set s | s in impl.testSuites :: s.testIndices
    modifies impl.testSuites`shouldRun, AllTests(impl.testSuites)
    ensures impl.Valid() && (repeat > 0 || old(impl.InOrder()) ==> impl.InOrder())
    ensures |log| == repeat && Linked(log, old(TallyOf(impl.testSuites)), TallyOf(impl.testSuites))
    ensures forall k :: 0 <= k < repeat ==> RanAsChosen(log[k], sel, impl.testSuites, setUps[k], failFast)
    ensures forall n, i :: 0 <= n < |impl.testSuites| && 0 <= i < |impl.testSuites[n].tests| ==>
      Handled(impl.testSuites[n].tests[i]) == old(Handled(impl.testSuites[n].tests[i])) +
        (if Chosen(sel, impl.testSuites, n, i) then Reporting(setUps) else 0)
    ensures old(impl.InOrder()) && ChosenCount(sel, Runnable(sel, impl.testSuites, |impl.testSuites|, 0)) > 0 ==>
      ScheduledAll(log, impl.testSuites, impl.lastDeathTestSuite + 1, shuffle, rawSeed)
  {
    hide Chosen, AllTests, IsDue, ChosenCount, Runnable, HandledMap, RanMap, ReportedTimes, DueAsChosen, ScheduledAll,
         Fits, Linked, RanAsChosen, Reporting, impl.Valid, impl.InOrder;
    ghost var suites, start := impl.testSuites, TallyOf(impl.testSuites);
    StartHandled(suites);
    var selected;
    ghost var due;
    selected, due := SelectTests(impl, sel);
    DueOnce(sel, suites, due);
    HandledMapIs(suites, due);
    log := RunIterations(impl, selected, repeat, shuffle, rawSeed, failFast, setUps, random, due);
    LogTotals(log, start, TallyOf(suites), due, setUps, failFast);
    forall k | 0 <= k < repeat ensures RanAsChosen(log[k], sel, suites, setUps[k], failFast) {
      FitsAsChosen(log[k], sel, suites, due, setUps[k], failFast);
    }
    ReportsAsChosen(sel, suites, start.handled, due, Reporting(setUps));
  }

  /** Every iteration has the schedule its own seed gives. */
  ghost predicate ScheduledAll(log: seq<Iteration>, suites: seq<TestSuite>, deaths: int, shuffle: bool, rawSeed: nat)
    requires rawSeed < 0x1_0000_0000
  {
    forall k :: 0 <= k < |log| ==>
      ScheduledBy(log[k].schedule, suites, deaths, shuffle, IterationSeed(shuffle, rawSeed, k))
  }

  lemma ScheduledSnoc(log: seq<Iteration>, it: Iteration, suites: seq<TestSuite>, deaths: int, shuffle: bool,
                      rawSeed: nat)
    requires rawSeed < 0x1_0000_0000 && ScheduledAll(log, suites, deaths, shuffle, rawSeed)
    requires ScheduledBy(it.schedule, suites, deaths, shuffle, IterationSeed(shuffle, rawSeed, |log|))
    ensures ScheduledAll(log + [it], suites, deaths, shuffle, rawSeed)
  {
    hide ScheduledBy, IterationSeed;
  }

  lemma NothingHalts(due: map<TestInfo, nat>, setUp: SetUpOutcome, failFast: bool, t: Tally)
    requires t.handled.Keys == due.Keys && forall t :: t in due ==> due[t] == 0
    ensures Fits(Iteration([], t, t), due, setUp, failFast)
  {
    NoneReported(t.handled, due, if setUp.Skipped? then 0 else 1);
  }

  lemma IterationHalts(schedule: seq<seq<TestInfo>>, before: Tally, after: Tally, failed: set<TestInfo>)
    requires FailedIn(before.ran, after.ran) <= failed
    ensures HaltsAtFailure(schedule, before.ran, after.ran, failed) ==> Iteration(schedule, before, after).Halts()
  {
    if HaltsAtFailure(schedule, before.ran, after.ran, failed) {
      HaltsForFewer(schedule, before.ran, after.ran, failed, FailedIn(before.ran, after.ran));
    }
  }

  /** The loop over the iterations. Without a selected test nothing is shuffled or run. */
  method RunIterations(impl: UnitTestImpl, selected: nat, repeat: nat, shuffle: bool, rawSeed: nat, failFast: bool,
                       setUps: seq<SetUpOutcome>, random: Random, ghost due: map<TestInfo, nat>)
    returns (ghost log: seq<Iteration>)
    requires impl.Valid() && IsDue(impl.testSuites, due) && |setUps| == repeat && rawSeed < 0x1_0000_0000
    requires forall t :: t in due ==> due[t] <= if selected == 0 then 0 else 1
    modifies random, impl.suiteIndices, set s | s in impl.testSuites :: s.testIndices
    modifies AllTests(impl.testSuites)`skipped, AllTests(impl.testSuites)`ran, AllTests(impl.testSuites)`failed
    ensures impl.Valid() && (repeat > 0 || old(impl.InOrder()) ==> impl.InOrder())
    ensures |log| == repeat && Linked(log, old(TallyOf(impl.testSuites)), TallyOf(impl.testSuites))
    ensures forall k :: 0 <= k < repeat ==> Fits(log[k], due, setUps[k], failFast)
    ensures old(impl.InOrder()) && selected > 0 ==>
      ScheduledAll(log, impl.testSuites, impl.lastDeathTestSuite + 1, shuffle, rawSeed)
  {
    hide AllTests, IsDue, HandledMap, ReportedTimes, ScheduledAll, ScheduledBy, IterationSeed, Linked,
         GetRandomSeedFromFlag, GetNextRandomSeed, impl.Valid, impl.InOrder, impl.Unshuffled, RanMap, FailedTests,
         FailedIn, HaltsAtFailure, Iteration.Halts;
    ghost var suites, start, inOrder := impl.testSuites, TallyOf(impl.testSuites), impl.InOrder();
    StartLog(start, suites, impl.lastDeathTestSuite + 1, shuffle, rawSeed);
    NextSeed(shuffle, rawSeed, 0);
    log := [];
    var seed := GetRandomSeedFromFlag(rawSeed);
    for i := 0 to repeat
      invariant impl.Valid() && IsDue(suites, due) && (i > 0 || inOrder ==> impl.InOrder())
      invariant |log| == i && Linked(log, start, TallyOf(suites))
      invariant forall k :: 0 <= k < i ==> Fits(log[k], due, setUps[k], failFast)
      invariant 1 <= seed <= MAX_RANDOM_SEED && seed == IterationSeed(shuffle, rawSeed, i)
      invariant inOrder && selected > 0 ==> ScheduledAll(log, suites, impl.lastDeathTestSuite + 1, shuffle, rawSeed)
    {
      ghost var before, schedule := TallyOf(suites), [];
      HandledMapIs(suites, due);
      if selected > 0 {
        schedule := impl.RunIteration(shuffle, seed, failFast, setUps[i], random, due);
        IterationHalts(schedule, before, TallyOf(suites), FailedTests(suites));
      } else {
        RunNothing(impl);
        NothingHalts(due, setUps[i], failFast, before);
      }
      ghost var it := Iteration(schedule, before, TallyOf(suites));
      LinkedSnoc(log, it, start, before);
      if inOrder && selected > 0 {
        ScheduledSnoc(log, it, suites, impl.lastDeathTestSuite + 1, shuffle, rawSeed);
      }
      log := log + [it];
      NextSeed(shuffle, rawSeed, i);
      if shuffle {
        seed := GetNextRandomSeed(seed);
      }
    }
  }

  lemma StartHandled(suites: seq<TestSuite>)
    ensures forall n, i :: 0 <= n < |suites| && 0 <= i < |suites[n].tests| ==>
      suites[n].tests[i] in HandledMap(suites) && HandledMap(suites)[suites[n].tests[i]] == Handled(suites[n].tests[i])
  {
    SuiteTestsAreTests(suites);
  }

  lemma StartLog(start: Tally, suites: seq<TestSuite>, deaths: int, shuffle: bool, rawSeed: nat)
    requires rawSeed < 0x1_0000_0000
    ensures Linked([], start, start) && ScheduledAll([], suites, deaths, shuffle, rawSeed)
  {
  }

  lemma ReportsAsChosen(sel: Selection, suites: seq<TestSuite>, before: map<TestInfo, nat>, due: map<TestInfo, nat>,
                        times: nat)
    requires sel.sharding.Shard? ==> sel.sharding.total > 0
    requires DueAsChosen(sel, suites, due) && ReportedTimes(before, HandledMap(suites), due, times)
    ensures forall n, i :: 0 <= n < |suites| && 0 <= i < |suites[n].tests| ==>
      suites[n].tests[i] in before &&
      Handled(suites[n].tests[i]) == before[suites[n].tests[i]] + (if Chosen(sel, suites, n, i) then times else 0)
  {
    hide Chosen, AllTests;
  }

  lemma NextSeed(shuffle: bool, rawSeed: nat, k: nat)
    requires rawSeed < 0x1_0000_0000
    ensures IterationSeed(shuffle, rawSeed, 0) == GetRandomSeedFromFlag(rawSeed)
    ensures 1 <= IterationSeed(shuffle, rawSeed, k) <= MAX_RANDOM_SEED
    ensures IterationSeed(shuffle, rawSeed, k + 1) ==
      if shuffle then GetNextRandomSeed(IterationSeed(shuffle, rawSeed, k)) else IterationSeed(shuffle, rawSeed, k)
  {
  }

  /** The seed of the k-th iteration; only shuffling uses it and goes on to the next. */
  ghost function IterationSeed(shuffle: bool, rawSeed: nat, k: nat): nat
    requires rawSeed < 0x1_0000_0000
  {
    if shuffle then SeedAt(GetRandomSeedFromFlag(rawSeed), k) else GetRandomSeedFromFlag(rawSeed)
  }

  /** As a number: the flag counts round the valid seeds, with the iterations if tests are
      shuffled. Flag 0 stands for the clock; the number 0 itself would be taken as 2^32. */
  lemma IterationSeedIs(rawSeed: nat, k: nat)
    requires rawSeed < 0x1_0000_0000
    ensures rawSeed > 0 ==> IterationSeed(false, rawSeed, k) == (rawSeed - 1) % 99999 + 1
    ensures rawSeed > 0 ==> IterationSeed(true, rawSeed, k) == (rawSeed - 1 + k) % 99999 + 1
    ensures IterationSeed(false, 0, k) == 10246
  {
    FirstSeed(rawSeed);
    hide GetRandomSeedFromFlag;
    SeedAtIs(GetRandomSeedFromFlag(rawSeed), k);
    if rawSeed > 0 {
      AddToRemainder(rawSeed - 1, k);
    }
  }

  lemma FirstSeed(rawSeed: nat)
    requires rawSeed < 0x1_0000_0000
    ensures GetRandomSeedFromFlag(rawSeed) == if rawSeed == 0 then 10246 else (rawSeed - 1) % 99999 + 1
  {
  }

  lemma AddToRemainder(x: nat, k: nat)
    ensures (x % 99999 + k) % 99999 == (x + k) % 99999
  {
  }

  /** The order of any iteration can be had again without the iterations before it, by
      giving its seed as the flag. */
  lemma OrderIsReproducible(schedule: seq<seq<TestInfo>>, again: seq<seq<TestInfo>>, suites: seq<TestSuite>,
                            deaths: int, rawSeed: nat, k: nat)
    requires rawSeed < 0x1_0000_0000
    requires ScheduledBy(schedule, suites, deaths, true, IterationSeed(true, rawSeed, k))
    requires ScheduledBy(again, suites, deaths, true, IterationSeed(true, IterationSeed(true, rawSeed, k), 0))
    ensures schedule == again
  {
    hide ScheduledBy;
    SeedAtIs(GetRandomSeedFromFlag(rawSeed), k);
    OneSchedule(schedule, again, suites, deaths, true, IterationSeed(true, rawSeed, k));
  }
}
