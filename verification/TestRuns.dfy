/** Suites of tests, the order they run in, and running them (gtest.cc,
    gtest-internal-inl.h). */
module TestRuns {
  import opened Shuffles
  import opened GlobFilters

  // ----- tests and suites

  class TestInfo {
    const name: string
    /** Whether its n-th run records a failure: what user code does is an input. */
    const outcome: nat -> bool
    var shouldRun: bool
    var isDisabled: bool
    var matchesFilter: bool
    var isInAnotherShard: bool
    var failed: bool
    /** How often the test was run, and how often it was skipped. */
    var ran: nat
    var skipped: nat

    constructor (name: string, outcome: nat -> bool) { this.name, this.outcome := name, outcome; }

    method Run()
      modifies this`ran, this`failed
      ensures ran == old(ran) + (if shouldRun then 1 else 0)
      ensures failed == if shouldRun then outcome(old(ran)) else old(failed)
    {
      if !shouldRun {
        return;
      }
      failed := outcome(ran);
      ran := ran + 1;
    }

    method Skip()
      modifies this`skipped
      ensures skipped == old(skipped) + (if shouldRun then 1 else 0)
    {
      if !shouldRun {
        return;
      }
      skipped := skipped + 1;
    }
  }

  /** Tests reported so far for t, run or skipped. */
  ghost function Handled(t: TestInfo): nat
    reads t`ran, t`skipped
  {
    t.ran + t.skipped
  }

  /** Since it had been run r times, t was not run, or once, and shows how that run ended. */
  ghost predicate RanAtMostOnce(t: TestInfo, r: nat)
    reads t`shouldRun, t`ran, t`failed
  {
    t.ran == r || (t.shouldRun && t.ran == r + 1 && t.failed == t.outcome(r))
  }

  /** A test that should run is due for one report. */
  ghost function Due(t: TestInfo): nat
    reads t`shouldRun
  {
    if t.shouldRun then 1 else 0
  }

  /** t has been reported once if it should run: skipped if everything is, else run. */
  ghost predicate ReportDone(t: TestInfo, ran: nat, skipped: nat, skipAll: bool)
    reads t`shouldRun, t`ran, t`skipped, t`failed
  {
    && Handled(t) == ran + skipped + Due(t) && RanAtMostOnce(t, ran)
    && if skipAll then t.ran == ran else t.skipped == skipped
  }

  /** A test in a suite that should not run is never reported. */
  ghost function DueIn(s: TestSuite, t: TestInfo): nat
    reads s`shouldRun, t`shouldRun
  {
    if s.shouldRun then Due(t) else 0
  }

  class TestSuite {
    const name: string
    const tests: seq<TestInfo>
    const testIndices: array<int>
    var shouldRun: bool

    ghost predicate Valid()
      reads testIndices
    {
      && testIndices.Length == |tests| <= INT_MAX
      && Permutes(testIndices[..], 0, |tests|)
      && forall j, k :: 0 <= j < k < |tests| ==> tests[j] != tests[k]
    }

    constructor (name: string, tests: seq<TestInfo>)
      requires |tests| <= INT_MAX && forall j, k :: 0 <= j < k < |tests| ==> tests[j] != tests[k]
      ensures Valid() && this.name == name && this.tests == tests && fresh(testIndices)
      ensures forall k :: 0 <= k < |tests| ==> testIndices[k] == k
    {
      this.name, this.tests, shouldRun := name, tests, false;
      testIndices := new int[|tests|](k => k);
    }

    /** The tests in the current order. */
    ghost function Order(): (order: seq<TestInfo>)
      requires Valid()
      reads testIndices
      ensures |order| == |tests|
      ensures Arranges(order, tests, testIndices[..])
      ensures forall k :: 0 <= k < |order| ==> order[k] == tests[testIndices[k]] && order[k] in tests
      ensures forall j, k :: 0 <= j < k < |order| ==> order[j] != order[k]
    {
      var indices := testIndices[..];
      seq(|tests|, k requires 0 <= k < |tests| => tests[indices[k]])
    }

    /** Every test has a place in the current order. */
    lemma OrderCovers()
      requires Valid()
      ensures forall t :: t in tests <==> t in Order()
    {
      forall t | t in tests ensures t in Order() {
        var x :| 0 <= x < |tests| && tests[x] == t;
        var k := PermutationIsOnto(testIndices[..], x);
        assert Order()[k] == t;
      }
    }

    /** The i-th test in the current order, if there is one. */
    method GetMutableTestInfo(i: int) returns (test: TestInfo?)
      requires Valid()
      ensures if 0 <= i < |tests| then test == Order()[i] && test in tests else test == null
    {
      var index := GetElementOr(testIndices[..], i, -1);
      test := if index < 0 then null else tests[index];
    }

    /** Skips the tests from a place in the order on. */
    method SkipFrom(from: nat, ghost order: seq<TestInfo>)
      requires Valid() && from <= |tests| && order == Order()
      modifies tests`skipped
      ensures forall k :: 0 <= k < |order| ==>
        order[k].skipped == old(order[k].skipped) + (if k < from then 0 else Due(order[k]))
    {
      for j := from to |tests|
        invariant order == Order()
        invariant forall k :: 0 <= k < |order| ==>
          order[k].skipped == old(order[k].skipped) + (if from <= k < j then Due(order[k]) else 0)
      {
        var test := GetMutableTestInfo(j);
        test.Skip();
      }
    }

    /** Runs or skips the i-th test. */
    method Report(i: nat, skipAll: bool, ghost next: TestInfo) returns (test: TestInfo)
      requires Valid() && i < |tests| && next == Order()[i]
      modifies next`ran, next`skipped, next`failed
      ensures test == next && ReportDone(test, old(next.ran), old(next.skipped), skipAll)
    {
      var found := GetMutableTestInfo(i);
      test := found;
      if skipAll {
        test.Skip();
      } else {
        test.Run();
      }
    }

    /** Run: every test that should run is run, or skipped because setting up failed
        or, with failFast, an earlier test did. */
    method Run(failFast: bool) returns (ghost setUpFailed: bool)
      requires Valid()
      modifies tests`ran, tests`skipped, tests`failed
      ensures forall t :: t in tests ==> Handled(t) == old(Handled(t)) + DueIn(this, t)
      ensures forall t :: t in tests ==> RanAtMostOnce(t, old(t.ran))
      ensures setUpFailed ==> forall t :: t in tests ==> t.ran == old(t.ran)
      ensures !setUpFailed && !failFast ==> forall t :: t in tests ==> t.skipped == old(t.skipped)
      ensures failFast ==>
        forall j, k :: 0 <= j < k < |tests| && Order()[j].failed ==> Order()[k].ran == old(Order()[k].ran)
    {
      setUpFailed := false;
      if !shouldRun {
        return;
      }
      hide Permutes;
      ghost var order := Order();
      OrderCovers();
      var skipAll: bool := *;  // RunSetUpTestSuite may fail.
      setUpFailed := skipAll;
      RunInOrder(failFast, skipAll, order);
    }

    /** The loop over the tests; with failFast it ends after a failed test, and the
        rest is skipped. */
    method RunInOrder(failFast: bool, skipAll: bool, ghost order: seq<TestInfo>)
      requires Valid() && order == Order()
      modifies tests`ran, tests`skipped, tests`failed
      ensures forall k :: 0 <= k < |order| ==>
        && Handled(order[k]) == old(Handled(order[k])) + Due(order[k])
        && RanAtMostOnce(order[k], old(order[k].ran))
        && (skipAll ==> order[k].ran == old(order[k].ran))
        && (!skipAll && !failFast ==> order[k].skipped == old(order[k].skipped))
      ensures failFast ==> forall j, k :: 0 <= j < k < |order| && order[j].failed ==> order[k].ran == old(order[k].ran)
    {
      hide Permutes, Valid, Order;
      var stop := RunUntilFailure(failFast, skipAll, order);
      SkipFrom(stop, order);
    }

    method RunUntilFailure(failFast: bool, skipAll: bool, ghost order: seq<TestInfo>) returns (stop: nat)
      requires Valid() && order == Order()
      modifies tests`ran, tests`skipped, tests`failed
      ensures stop <= |tests| && (!failFast ==> stop == |tests|)
      ensures forall k :: 0 <= k < stop ==>
        && ReportDone(order[k], old(order[k].ran), old(order[k].skipped), skipAll)
        && (failFast && k < stop - 1 ==> !order[k].failed)
      ensures forall k :: stop <= k < |order| ==>
        order[k].ran == old(order[k].ran) && order[k].skipped == old(order[k].skipped)
    {
      hide Permutes, Valid, Order, ReportDone;
      OrderCovers();
      assert forall k :: 0 <= k < |order| ==> order[k] in tests;
      for i := 0 to |tests|
        invariant order == Order()
        invariant forall k :: 0 <= k < i ==>
          && ReportDone(order[k], old(order[k].ran), old(order[k].skipped), skipAll)
          && (failFast ==> !order[k].failed)
        invariant forall k :: i <= k < |order| ==>
          order[k].ran == old(order[k].ran) && order[k].skipped == old(order[k].skipped)
      {
        var test := Report(i, skipAll, order[i]);
        if failFast && test.failed {
          return i + 1;
        }
      }
      return |tests|;
    }

    /** Skip: every test that should run is skipped. */
    method Skip()
      requires Valid()
      modifies tests`skipped
      ensures forall t :: t in tests ==> Handled(t) == old(Handled(t)) + DueIn(this, t)
    {
      if !shouldRun {
        return;
      }
      OrderCovers();
      SkipFrom(0, Order());
    }

    /** Whether any test of the suite, or anything outside its tests, failed. */
    method Failed() returns (failed: bool)
      ensures (exists t :: t in tests && t.shouldRun && t.failed) ==> failed
    {
      var failedTestCount := 0;
      for i := 0 to |tests|
        invariant failedTestCount == 0 ==> forall k :: 0 <= k < i ==> !(tests[k].shouldRun && tests[k].failed)
      {
        if tests[i].shouldRun && tests[i].failed {
          failedTestCount := failedTestCount + 1;
        }
      }
      var adHocFailed: bool := *;
      failed := failedTestCount > 0 || adHocFailed;
    }

    method ClearResult()
      modifies tests`failed
      ensures forall t :: t in tests ==> !t.failed
    {
      for i := 0 to |tests|
        invariant forall k :: 0 <= k < i ==> !tests[k].failed
      {
        tests[i].failed := false;
      }
    }

    method ShuffleTests(random: Random)
      requires Valid()
      modifies random, testIndices
      ensures Valid()
      ensures testIndices[..] == Shuffled(old(testIndices[..]), 0, |tests|, Draws(old(random.state), |tests|))
      ensures random.state == StateAfter(old(random.state), |tests|)
    {
      ghost var before, state := testIndices[..], random.state;
      ShuffleRange(random, 0, testIndices.Length, testIndices);
      ShufflePermutes(before, testIndices[..], 0, |tests|, state);
    }

    method UnshuffleTests()
      requires Valid()
      modifies testIndices
      ensures Valid() && forall k :: 0 <= k < testIndices.Length ==> testIndices[k] == k
    {
      for i := 0 to testIndices.Length
        invariant forall k :: 0 <= k < i ==> testIndices[k] == k
      {
        testIndices[i] := i;
      }
    }
  }

  const DEATH_TEST_SUITE_FILTER := "*DeathTest:*DeathTest/*"

  ghost predicate IsDeathTestSuite(name: string) { Accepts(DEATH_TEST_SUITE_FILTER, name) }

  /** Suites, their index arrays and their tests are all separate objects. */
  ghost predicate Separate(suites: seq<TestSuite>) {
    forall j, k :: 0 <= j < |suites| && 0 <= k < |suites| && j != k ==>
      && suites[j] != suites[k]
      && suites[j].testIndices != suites[k].testIndices
      && forall t :: t in suites[j].tests ==> t !in suites[k].tests
  }

  /** The last suite of that name. */
  ghost predicate IsLastNamed(suites: seq<TestSuite>, name: string, suite: TestSuite) {
    exists k :: 0 <= k < |suites| && suites[k] == suite && suite.name == name &&
                forall j :: k < j < |suites| ==> suites[j].name != name
  }

  function Inserted(suites: seq<TestSuite>, created: TestSuite, at: nat): seq<TestSuite>
    requires at <= |suites|
  {
    suites[..at] + [created] + suites[at..]
  }

  /** The new suite stands at its place, the others around it in their order. */
  lemma InsertedPlaces(suites: seq<TestSuite>, created: TestSuite, at: nat, k: nat)
    requires at <= |suites| && k <= |suites|
    ensures |Inserted(suites, created, at)| == |suites| + 1
    ensures Inserted(suites, created, at)[k] == if k < at then suites[k] else if k == at then created else suites[k - 1]
  {
  }

  lemma InsertedSeparate(suites: seq<TestSuite>, created: TestSuite, at: nat)
    requires at <= |suites| && Separate(suites + [created])
    ensures Separate(Inserted(suites, created, at))
  {
    var all, r := suites + [created], Inserted(suites, created, at);
    var place := seq(|r|, k => if k < at then k else if k == at then |suites| else k - 1);
    assert forall k :: 0 <= k < |r| ==> r[k] == all[place[k]];
  }

  lemma OneMoreSeparate(suites: seq<TestSuite>, created: TestSuite)
    requires Separate(suites)
    requires forall s :: s in suites ==>
      s != created && s.testIndices != created.testIndices && forall t :: t in created.tests ==> t !in s.tests
    ensures Separate(suites + [created])
  {
    var all := suites + [created];
    forall j, k | 0 <= j < |all| && 0 <= k < |all| && j != k
      ensures all[j] != all[k] && all[j].testIndices != all[k].testIndices
      ensures forall t :: t in all[j].tests ==> t !in all[k].tests
    {
      assert j < |suites| ==> all[j] == suites[j] && all[j] in suites;
      assert k < |suites| ==> all[k] == suites[k] && all[k] in suites;
    }
  }

  lemma IdentityPermutes(s: seq<int>, lo: int, hi: int)
    requires 0 <= lo <= hi <= |s| && forall k :: 0 <= k < |s| ==> s[k] == k
    ensures Permutes(s, lo, hi)
  {
  }

  ghost function AllTests(suites: seq<TestSuite>): set<TestInfo> {
    set s, t | s in suites && t in s.tests :: t
  }

  /** The same suites in another order have the same tests. */
  lemma SameTests(a: seq<TestSuite>, b: seq<TestSuite>)
    requires forall s :: s in a <==> s in b
    ensures AllTests(a) == AllTests(b)
  {
  }

  /** The tests of the first n suites. */
  ghost function TestsBelow(order: seq<TestSuite>, n: nat): set<TestInfo>
    requires n <= |order|
  {
    if n == 0 then {}
    else
      var suite := order[n - 1];
      TestsBelow(order, n - 1) + (set t | t in suite.tests)
  }

  lemma {:induction false} TestsBelowAre(order: seq<TestSuite>, n: nat)
    requires n <= |order|
    ensures TestsBelow(order, n) <= AllTests(order)
    ensures TestsBelow(order, |order|) == AllTests(order)
    ensures Separate(order) && n < |order| ==> forall t :: t in order[n].tests ==> t !in TestsBelow(order, n)
  {
    TestsBelowMembers(order, n);
    TestsBelowMembers(order, |order|);
  }

  lemma TestsBelowNext(order: seq<TestSuite>, n: nat)
    requires n < |order|
    ensures forall t :: t in TestsBelow(order, n + 1) <==> t in TestsBelow(order, n) || t in order[n].tests
  {
  }

  lemma {:induction false} TestsBelowMembers(order: seq<TestSuite>, n: nat)
    requires n <= |order|
    ensures forall t :: t in TestsBelow(order, n) ==> exists k :: 0 <= k < n && t in order[k].tests
    ensures forall k, t :: 0 <= k < n && t in order[k].tests ==> t in TestsBelow(order, n)
  {
    if n > 0 {
      TestsBelowMembers(order, n - 1);
    }
  }

  /** due says how often each test is to be reported. */
  ghost predicate IsDue(order: seq<TestSuite>, due: map<TestInfo, nat>)
    reads (set s | s in order)`shouldRun, AllTests(order)`shouldRun
  {
    && due.Keys == AllTests(order)
    && forall k, t :: 0 <= k < |order| && t in order[k].tests ==> t in due && due[t] == DueIn(order[k], t)
  }

  ghost function HandledMap(suites: seq<TestSuite>): map<TestInfo, nat>
    reads AllTests(suites)`ran, AllTests(suites)`skipped
  {
    map t | t in AllTests(suites) :: Handled(t)
  }

  /** Each test has been reported that many times more, if it is due. */
  ghost predicate ReportedTimes(before: map<TestInfo, nat>, now: map<TestInfo, nat>, due: map<TestInfo, nat>,
                                times: nat) {
    && before.Keys == now.Keys == due.Keys
    && forall t :: t in before ==> due[t] <= 1 && now[t] == before[t] + (if due[t] == 1 then times else 0)
  }

  lemma HandledMapIs(suites: seq<TestSuite>, due: map<TestInfo, nat>)
    requires IsDue(suites, due)
    ensures HandledMap(suites).Keys == due.Keys == AllTests(suites)
    ensures forall t :: t in HandledMap(suites) ==> Handled(t) == HandledMap(suites)[t]
  {
  }

  // ----- stopping at a failure

  /** How often each test was run, and which tests that should run have failed. */
  ghost function RanMap(suites: seq<TestSuite>): map<TestInfo, nat>
    reads AllTests(suites)`ran
  {
    map t | t in AllTests(suites) :: t.ran
  }

  ghost function FailedTests(suites: seq<TestSuite>): set<TestInfo>
    reads AllTests(suites)`shouldRun, AllTests(suites)`failed
  {
    set t | t in AllTests(suites) && t.shouldRun && t.failed
  }

  /** The tests that were run in the meantime, and whose run failed. */
  ghost function FailedIn(before: map<TestInfo, nat>, now: map<TestInfo, nat>): set<TestInfo> {
    set t | t in before && t in now && now[t] > before[t] && t.outcome(before[t])
  }

  /** The tests of the first n suites, each suite in its current order. */
  ghost function ScheduleOf(order: seq<TestSuite>, n: nat): (schedule: seq<seq<TestInfo>>)
    requires n <= |order| && forall s :: s in order ==> s.Valid()
    reads set s | s in order :: s.testIndices
    ensures |schedule| == n && forall k :: 0 <= k < n ==> schedule[k] == order[k].Order()
  {
    if n == 0 then [] else ScheduleOf(order, n - 1) + [order[n - 1].Order()]
  }

  /** The schedule lists the tests of these suites. */
  ghost predicate Lists(schedule: seq<seq<TestInfo>>, order: seq<TestSuite>) {
    && |schedule| == |order|
    && (forall k, a :: 0 <= k < |schedule| && 0 <= a < |schedule[k]| ==> schedule[k][a] in order[k].tests)
    && (forall k, i :: 0 <= k < |order| && 0 <= i < |order[k].tests| ==> order[k].tests[i] in schedule[k])
  }

  ghost predicate NotRun(suite: seq<TestInfo>, from: nat, before: map<TestInfo, nat>, now: map<TestInfo, nat>) {
    forall b :: from <= b < |suite| ==> suite[b] in before && suite[b] in now && now[suite[b]] == before[suite[b]]
  }

  /** Within one suite no test behind a failed one was run. */
  ghost predicate SuiteHalts(suite: seq<TestInfo>, before: map<TestInfo, nat>, now: map<TestInfo, nat>,
                             failed: set<TestInfo>) {
    forall a :: 0 <= a < |suite| && suite[a] in failed ==> NotRun(suite, a + 1, before, now)
  }

  ghost predicate NoneFailed(suite: seq<TestInfo>, failed: set<TestInfo>) {
    forall a :: 0 <= a < |suite| ==> suite[a] !in failed
  }

  /** No test of the whole schedule behind a failed one was run: not in its suite, and
      not in a later one. */
  ghost predicate HaltsAtFailure(schedule: seq<seq<TestInfo>>, before: map<TestInfo, nat>, now: map<TestInfo, nat>,
                                 failed: set<TestInfo>) {
    forall k :: 0 <= k < |schedule| ==>
      && SuiteHalts(schedule[k], before, now, failed)
      && (!NoneFailed(schedule[k], failed) ==> forall m :: k < m < |schedule| ==> NotRun(schedule[m], 0, before, now))
  }

  /** Before the n-th suite: none of the earlier tests failed, none of the later was run. */
  ghost predicate RunsOn(schedule: seq<seq<TestInfo>>, before: map<TestInfo, nat>, now: map<TestInfo, nat>,
                         failed: set<TestInfo>, n: nat) {
    && (forall k :: 0 <= k < n && k < |schedule| ==> NoneFailed(schedule[k], failed))
    && (forall k :: n <= k < |schedule| ==> NotRun(schedule[k], 0, before, now))
  }

  /** Nothing but the n-th suite has changed. */
  ghost predicate OnlySuite(order: seq<TestSuite>, n: nat, ran: map<TestInfo, nat>, ran': map<TestInfo, nat>,
                            failed: set<TestInfo>, failed': set<TestInfo>)
    requires n < |order|
  {
    && ran.Keys == ran'.Keys
    && forall t :: t in ran && t !in order[n].tests ==> ran'[t] == ran[t] && (t in failed' <==> t in failed)
  }

  /** Place by place: what stands behind a failed test, in its suite or in a later one, was
      not run. */
  lemma HaltsMeans(schedule: seq<seq<TestInfo>>, before: map<TestInfo, nat>, now: map<TestInfo, nat>,
                   failed: set<TestInfo>, j: nat, a: nat, k: nat, b: nat)
    requires HaltsAtFailure(schedule, before, now, failed)
    requires j < |schedule| && a < |schedule[j]| && k < |schedule| && b < |schedule[k]|
    requires j < k || (j == k && a < b)
    requires schedule[j][a] in failed
    ensures var t := schedule[k][b]; t in before && t in now && now[t] == before[t]
  {
    assert !NoneFailed(schedule[j], failed) && SuiteHalts(schedule[j], before, now, failed);
    assert j < k ==> NotRun(schedule[k], 0, before, now);
    assert j == k ==> NotRun(schedule[j], a + 1, before, now);
  }

  /** Fewer failures, fewer reasons to stop. */
  lemma HaltsForFewer(schedule: seq<seq<TestInfo>>, before: map<TestInfo, nat>, now: map<TestInfo, nat>,
                      failed: set<TestInfo>, fewer: set<TestInfo>)
    requires HaltsAtFailure(schedule, before, now, failed) && fewer <= failed
    ensures HaltsAtFailure(schedule, before, now, fewer)
  {
    hide NotRun;
    forall k | 0 <= k < |schedule| ensures NoneFailed(schedule[k], failed) ==> NoneFailed(schedule[k], fewer) {}
  }

  lemma RunsOnStep(schedule: seq<seq<TestInfo>>, order: seq<TestSuite>, n: nat, before: map<TestInfo, nat>,
                   ran: map<TestInfo, nat>, ran': map<TestInfo, nat>, failed: set<TestInfo>, failed': set<TestInfo>)
    requires Separate(order) && Lists(schedule, order) && n < |order| && ran.Keys == AllTests(order)
    requires RunsOn(schedule, before, ran, failed, n) && OnlySuite(order, n, ran, ran', failed, failed')
    requires SuiteHalts(schedule[n], ran, ran', failed')
    ensures HaltsAtFailure(schedule, before, ran', failed')
    ensures NoneFailed(schedule[n], failed') ==> RunsOn(schedule, before, ran', failed', n + 1)
  {
    forall k, a | 0 <= k < |schedule| && k != n && 0 <= a < |schedule[k]|
      ensures schedule[k][a] in ran && schedule[k][a] !in order[n].tests
    {
      assert schedule[k][a] in order[k].tests && order[k] in order;
    }
  }

  lemma TestsOfSuite(order: seq<TestSuite>, n: nat)
    requires n < |order|
    ensures forall t :: t in order[n].tests ==> t in AllTests(order)
  {
    assert order[n] in order;
  }

  /** As long as nothing is run, nothing is run after a failed test. */
  lemma NothingRun(schedule: seq<seq<TestInfo>>, order: seq<TestSuite>, ran: map<TestInfo, nat>, failed: set<TestInfo>)
    requires Lists(schedule, order) && ran.Keys == AllTests(order)
    ensures RunsOn(schedule, ran, ran, failed, 0) && HaltsAtFailure(schedule, ran, ran, failed)
  {
    forall k, a | 0 <= k < |schedule| && 0 <= a < |schedule[k]| ensures schedule[k][a] in ran {
      assert schedule[k][a] in order[k].tests && order[k] in order;
    }
  }

  lemma RunsOnEnd(schedule: seq<seq<TestInfo>>, before: map<TestInfo, nat>, now: map<TestInfo, nat>,
                  failed: set<TestInfo>, n: nat)
    requires |schedule| <= n
    ensures RunsOn(schedule, before, now, failed, n) ==> HaltsAtFailure(schedule, before, now, failed)
  {
  }

  // ----- what decides the order

  ghost function Sizes(suites: seq<TestSuite>): seq<nat> {
    seq(|suites|, k requires 0 <= k < |suites| => |suites[k].tests|)
  }

  /** The schedule is the one that the seed, or registration, gives to these suites, the
      first `deaths` of them death test suites. */
  ghost predicate ScheduledBy(schedule: seq<seq<TestInfo>>, suites: seq<TestSuite>, deaths: int, shuffle: bool,
                              seed: nat) {
    && 0 <= deaths <= |suites| && |schedule| == |suites|
    && forall k :: 0 <= k < |schedule| ==>
      var x := SuitePlaces(|suites|, deaths, shuffle, seed)[k];
      0 <= x < |suites| && Arranges(schedule[k], suites[x].tests, TestPlaces(Sizes(suites), deaths, shuffle, seed, x))
  }

  /** Without shuffling that is registration order. */
  lemma RegisteredSchedule(schedule: seq<seq<TestInfo>>, suites: seq<TestSuite>, deaths: int, seed: nat, k: nat)
    requires ScheduledBy(schedule, suites, deaths, false, seed) && k < |suites|
    ensures k < |schedule| && schedule[k] == suites[k].tests
  {
    assert SuitePlaces(|suites|, deaths, false, seed)[k] == k;
  }

  /** There is only one such schedule: the seed decides the whole order. */
  lemma OneSchedule(a: seq<seq<TestInfo>>, b: seq<seq<TestInfo>>, suites: seq<TestSuite>, deaths: int, shuffle: bool,
                    seed: nat)
    requires ScheduledBy(a, suites, deaths, shuffle, seed) && ScheduledBy(b, suites, deaths, shuffle, seed)
    ensures a == b
  {
    hide SuitePlaces, TestPlaces;
    forall k | 0 <= k < |a| ensures a[k] == b[k] {
      assert forall j :: 0 <= j < |a[k]| ==> a[k][j] == b[k][j];
    }
  }

  /** What an iteration starts from: the order of the suites, the schedule, how often
      each test was reported, is due to be, and was run, and whether to stop at a failure. */
  datatype Plan = Plan(
    order: seq<TestSuite>,
    schedule: seq<seq<TestInfo>>,
    before: map<TestInfo, nat>,
    due: map<TestInfo, nat>,
    ran: map<TestInfo, nat>,
    failFast: bool)

  /** How global set-up ended. */
  datatype SetUpOutcome = Fine | Skipped | FatalFailure

  /** That is once, unless everything was skipped. */
  lemma ReportedOnce(suites: seq<TestSuite>, before: map<TestInfo, nat>, due: map<TestInfo, nat>, setUp: SetUpOutcome)
    requires IsDue(suites, due) && before.Keys == due.Keys
    requires forall t :: t in before ==> Handled(t) == before[t] + (if setUp.Skipped? then 0 else due[t])
    ensures ReportedTimes(before, HandledMap(suites), due, if setUp.Skipped? then 0 else 1)
  {
    forall t | t in due ensures due[t] <= 1 {
      var k :| 0 <= k < |suites| && t in suites[k].tests;
    }
  }

  class UnitTestImpl {
    var testSuites: seq<TestSuite>
    var suiteIndices: array<int>
    var lastDeathTestSuite: int

    ghost predicate Valid()
      reads this, suiteIndices, set s | s in testSuites :: s.testIndices
    {
      && suiteIndices.Length == |testSuites| <= INT_MAX
      && -1 <= lastDeathTestSuite < |testSuites|
      && Separate(testSuites)
      && (forall k :: 0 <= k < |testSuites| ==> testSuites[k].Valid() && testSuites[k].testIndices != suiteIndices)
      // Death test suites come first, in the list and in the current order.
      && (forall k :: 0 <= k < |testSuites| ==> (IsDeathTestSuite(testSuites[k].name) <==> k <= lastDeathTestSuite))
      && Permutes(suiteIndices[..], 0, lastDeathTestSuite + 1)
      && Permutes(suiteIndices[..], lastDeathTestSuite + 1, |testSuites|)
    }

    ghost predicate Unshuffled()
      reads this, suiteIndices
    {
      forall k :: 0 <= k < suiteIndices.Length ==> suiteIndices[k] == k
    }

    constructor ()
      ensures Valid() && testSuites == [] && Unshuffled()
    {
      testSuites, lastDeathTestSuite := [], -1;
      suiteIndices := new int[0];
    }

    /** GetMutableSuiteCase: the i-th suite in the current order, if there is one. */
    method GetMutableSuiteCase(i: int) returns (suite: TestSuite?)
      requires Valid()
      ensures if 0 <= i < |testSuites|
        then suite == SuiteOrder()[i] && suite in testSuites && suite.Valid() else suite == null
    {
      PermutesJoin(suiteIndices[..], 0, lastDeathTestSuite + 1, |testSuites|);
      var index := GetElementOr(suiteIndices[..], i, -1);
      suite := if index < 0 then null else testSuites[index];
    }

    /** The reverse search by name. */
    method FindTestSuite(name: string) returns (found: bool, suite: TestSuite?)
      ensures found <==> exists k :: 0 <= k < |testSuites| && testSuites[k].name == name
      ensures found ==> suite != null && IsLastNamed(testSuites, name, suite)
    {
      suite := null;
      var k := |testSuites|;
      while k > 0
        invariant 0 <= k <= |testSuites|
        invariant forall j :: k <= j < |testSuites| ==> testSuites[j].name != name
      {
        if testSuites[k - 1].name == name {
          suite := testSuites[k - 1];
          return true, suite;
        }
        k := k - 1;
      }
      return false, null;
    }

    /** GetTestSuite: a known name gets its last suite; else a new suite is created and
        inserted behind the last death test suite, or at the end. Only called when not
        shuffled. A new suite comes with its tests. */
    method GetTestSuite(name: string, tests: seq<TestInfo>) returns (suite: TestSuite)
      requires Valid() && Unshuffled() && |testSuites| < INT_MAX
      requires |tests| <= INT_MAX && forall j, k :: 0 <= j < k < |tests| ==> tests[j] != tests[k]
      requires forall s, t :: s in testSuites && t in tests ==> t !in s.tests
      modifies this
      ensures Valid() && Unshuffled() && suite.name == name && suite in testSuites
      ensures if exists k :: 0 <= k < |old(testSuites)| && old(testSuites)[k].name == name then
          testSuites == old(testSuites) && IsLastNamed(testSuites, name, suite)
        else
          && fresh(suite) && suite.tests == tests && testSuites == Inserted(old(testSuites), suite,
          if IsDeathTestSuite(name) then old(lastDeathTestSuite) + 1 else |old(testSuites)|)
    {
      hide Separate, Permutes, IsDeathTestSuite;
      var found, known := FindTestSuite(name);
      if found {
        return known;
      }
      suite := new TestSuite(name, tests);
      assert Separate(testSuites + [suite]) by { OneMoreSeparate(testSuites, suite); }
      hide Valid;
      var isDeath := MatchesDeathTestFilter(name);
      InsertTestSuite(suite, isDeath);
    }

    method MatchesDeathTestFilter(name: string) returns (isDeath: bool)
      ensures isDeath <==> IsDeathTestSuite(name)
    {
      hide Split, GlobMatches;
      var filter := MakeFilter(DEATH_TEST_SUITE_FILTER);
      isDeath := filter.MatchesName(name);
    }

    method InsertTestSuite(created: TestSuite, isDeath: bool)
      requires Valid() && Unshuffled() && |testSuites| < INT_MAX
      requires created.Valid() && Separate(testSuites + [created]) && (isDeath <==> IsDeathTestSuite(created.name))
      modifies this
      ensures Valid() && Unshuffled()
      ensures testSuites ==
        Inserted(old(testSuites), created, if isDeath then old(lastDeathTestSuite) + 1 else |old(testSuites)|)
      ensures created in testSuites
    {
      hide IsDeathTestSuite, Separate, Permutes;
      InsertedSeparate(testSuites, created, if isDeath then lastDeathTestSuite + 1 else |testSuites|);
      ghost var at := if isDeath then lastDeathTestSuite + 1 else |testSuites|;
      ghost var before := testSuites;
      if isDeath {
        lastDeathTestSuite := lastDeathTestSuite + 1;
        testSuites := testSuites[..lastDeathTestSuite] + [created] + testSuites[lastDeathTestSuite..];
      } else {
        testSuites := testSuites + [created];
      }
      assert testSuites == Inserted(before, created, at);
      assert testSuites[at] == created;
      suiteIndices := new int[|testSuites|](i => i);
      IdentityPermutes(suiteIndices[..], 0, lastDeathTestSuite + 1);
      IdentityPermutes(suiteIndices[..], lastDeathTestSuite + 1, |testSuites|);
      assert forall k :: 0 <= k < |testSuites| ==>
        testSuites[k] == if k < at then before[k] else if k == at then created else before[k - 1];
    }

    /** The suites and the tests in each suite are in the order the seed gives, or in
        registration order. */
    ghost predicate ArrangedBy(shuffle: bool, seed: nat)
      reads this, suiteIndices, set s | s in testSuites :: s.testIndices
    {
      && -1 <= lastDeathTestSuite < |testSuites|
      && suiteIndices[..] == SuitePlaces(|testSuites|, lastDeathTestSuite + 1, shuffle, seed)
      && forall k :: 0 <= k < |testSuites| ==>
        testSuites[k].testIndices[..] == TestPlaces(Sizes(testSuites), lastDeathTestSuite + 1, shuffle, seed, k)
    }

    ghost predicate InOrder()
      reads this, suiteIndices, set s | s in testSuites :: s.testIndices
    {
      ArrangedBy(false, 0)
    }

    lemma IsInOrder()
      requires Valid() && Unshuffled()
      requires forall j, k :: 0 <= j < |testSuites| && 0 <= k < |testSuites[j].tests| ==>
        testSuites[j].testIndices[k] == k
      ensures InOrder()
    {
    }

    /** ShuffleTests: suites are shuffled among the death tests and among the rest,
        tests within their suite. From registration order, the state of the generator
        decides the whole order. */
    method ShuffleTests(random: Random)
      requires Valid()
      modifies random, suiteIndices, set s | s in testSuites :: s.testIndices
      ensures Valid()
      ensures old(InOrder()) ==> ArrangedBy(true, old(random.state))
    {
      hide Valid, Shuffled, Draws, StateAfter, NextState, InOrder, ArrangedBy, ShuffledBelow;
      ghost var inOrder, seed, deaths := InOrder(), random.state, lastDeathTestSuite + 1;
      StartShuffle(seed);
      ShuffleSuites(random);
      ghost var state, places := random.state, suiteIndices[..];
      assert inOrder ==> places == SuitePlaces(|testSuites|, deaths, true, seed);
      ShuffleEach(random, Sizes(testSuites), deaths, seed, state);
      if inOrder {
        EndShuffle(seed);
      }
    }

    method ShuffleEach(random: Random, ghost sizes: seq<nat>, ghost deaths: nat, ghost seed: nat, ghost state: nat)
      requires Valid() && sizes == Sizes(testSuites) && deaths <= |sizes| && random.state == state
      requires state == StateAfter(StateAfter(seed, deaths), |sizes| - deaths)
      modifies random, set s | s in testSuites :: s.testIndices
      ensures Valid() && suiteIndices[..] == old(suiteIndices[..])
      ensures old(ShuffledBelow(sizes, deaths, seed, 0)) ==> ShuffledBelow(sizes, deaths, seed, |testSuites|)
    {
      hide Valid, StateAfter, ShuffledBelow;
      assert StateBefore(sizes, state, 0) == state;
      hide StateBefore;
      ghost var start, places := ShuffledBelow(sizes, deaths, seed, 0), suiteIndices[..];
      for k := 0 to |testSuites|
        invariant Valid() && suiteIndices[..] == places && random.state == StateBefore(sizes, state, k)
        invariant start ==> ShuffledBelow(sizes, deaths, seed, k)
      {
        ShuffleNext(k, random, sizes, deaths, seed, state);
      }
    }

    /** The tests of the first n suites are shuffled from registration order. */
    ghost predicate ShuffledBelow(sizes: seq<nat>, deaths: nat, seed: nat, n: nat)
      reads this, set s | s in testSuites :: s.testIndices
    {
      && |sizes| == |testSuites| && deaths <= |sizes|
      && forall k :: 0 <= k < |testSuites| ==>
        testSuites[k].testIndices[..] == if k < n then TestPlaces(sizes, deaths, true, seed, k) else Identity(sizes[k])
    }

    lemma StartShuffle(seed: nat)
      requires Valid()
      ensures -1 <= lastDeathTestSuite < |testSuites| && forall s :: s in testSuites ==> s.testIndices != suiteIndices
      ensures InOrder() ==>
        lastDeathTestSuite >= -1 && ShuffledBelow(Sizes(testSuites), lastDeathTestSuite + 1, seed, 0)
      ensures InOrder() ==> suiteIndices[..] == Identity(|testSuites|)
    {
    }

    lemma EndShuffle(seed: nat)
      requires -1 <= lastDeathTestSuite < |testSuites|
      requires ShuffledBelow(Sizes(testSuites), lastDeathTestSuite + 1, seed, |testSuites|)
      requires suiteIndices[..] == SuitePlaces(|testSuites|, lastDeathTestSuite + 1, true, seed)
      ensures ArrangedBy(true, seed)
    {
    }

    method ShuffleNext(k: nat, random: Random, ghost sizes: seq<nat>, ghost deaths: nat, ghost seed: nat,
                       ghost state: nat)
      requires Valid() && k < |testSuites| && sizes == Sizes(testSuites) && deaths <= |sizes|
      requires state == StateAfter(StateAfter(seed, deaths), |sizes| - deaths) &&
        random.state == StateBefore(sizes, state, k)
      modifies random, testSuites[k].testIndices
      ensures Valid() && suiteIndices[..] == old(suiteIndices[..]) && random.state == StateBefore(sizes, state, k + 1)
      ensures old(ShuffledBelow(sizes, deaths, seed, k)) ==> ShuffledBelow(sizes, deaths, seed, k + 1)
    {
      hide Shuffled, Draws, StateAfter, NextState, StateBefore, TestPlaces, Permutes, IsDeathTestSuite;
      TestPlacesShuffled(sizes, deaths, seed, k, state);
      testSuites[k].ShuffleTests(random);
    }

    /** The death tests are shuffled first, then the others. */
    method ShuffleSuites(random: Random)
      requires Valid()
      modifies random, suiteIndices
      ensures Valid()
      ensures var state, deaths := old(random.state), lastDeathTestSuite + 1;
        var others := |testSuites| - deaths;
        suiteIndices[..] == Shuffled(Shuffled(old(suiteIndices[..]), 0, deaths, Draws(state, deaths)),
                                     deaths, others, Draws(StateAfter(state, deaths), others))
          && random.state == StateAfter(StateAfter(state, deaths), others)
    {
      hide IsDeathTestSuite, Permutes, Separate, Shuffled, Draws, StateAfter, IsChoice, NextState;
      ghost var before, first := suiteIndices[..], random.state;
      assert -1 <= lastDeathTestSuite < |testSuites|;
      ShuffleRange(random, 0, lastDeathTestSuite + 1, suiteIndices);
      ghost var middle, second := suiteIndices[..], random.state;
      ShufflePermutes(before, middle, 0, lastDeathTestSuite + 1, first);
      ShuffleLeaves(before, middle, 0, lastDeathTestSuite + 1, first, lastDeathTestSuite + 1, |testSuites|);
      ShuffleRange(random, lastDeathTestSuite + 1, |testSuites|, suiteIndices);
      ShufflePermutes(middle, suiteIndices[..], lastDeathTestSuite + 1, |testSuites| - lastDeathTestSuite - 1, second);
      ShuffleLeaves(middle, suiteIndices[..], lastDeathTestSuite + 1, |testSuites| - lastDeathTestSuite - 1, second,
                    0, lastDeathTestSuite + 1);
    }

    /** UnshuffleTests: everything is back in registration order. */
    method UnshuffleTests()
      requires Valid()
      modifies suiteIndices, set s | s in testSuites :: s.testIndices
      ensures Valid() && Unshuffled() && InOrder()
      ensures forall s, k :: s in testSuites && 0 <= k < |s.tests| ==> s.testIndices[k] == k
    {
      hide IsDeathTestSuite, Permutes;
      for i := 0 to |testSuites|
        invariant forall k :: 0 <= k < |testSuites| ==> testSuites[k].Valid()
        invariant forall k :: 0 <= k < i ==> suiteIndices[k] == k
        invariant forall j, k :: 0 <= j < i && 0 <= k < |testSuites[j].tests| ==> testSuites[j].testIndices[k] == k
      {
        testSuites[i].UnshuffleTests();
        suiteIndices[i] := i;
      }
      IdentityPermutes(suiteIndices[..], 0, lastDeathTestSuite + 1);
      IdentityPermutes(suiteIndices[..], lastDeathTestSuite + 1, |testSuites|);
      IsInOrder();
    }

    /** The suites in the current order. */
    ghost function SuiteOrder(): (order: seq<TestSuite>)
      requires Valid()
      reads this, suiteIndices, set s | s in testSuites :: s.testIndices
      ensures |order| == |testSuites|
      ensures forall k :: 0 <= k < |order| ==>
        0 <= suiteIndices[k] < |testSuites| && order[k] == testSuites[suiteIndices[k]]
    {
      PermutesJoin(suiteIndices[..], 0, lastDeathTestSuite + 1, |testSuites|);
      var indices, suites := suiteIndices[..], testSuites;
      seq(|suites|, k requires 0 <= k < |suites| => suites[indices[k]])
    }

    /** Every suite has a place in the order, and no two places share a test. */
    lemma SuiteOrderCovers()
      requires Valid()
      ensures forall s :: s in testSuites <==> s in SuiteOrder()
      ensures Separate(SuiteOrder())
    {
      hide IsDeathTestSuite;
      PermutesJoin(suiteIndices[..], 0, lastDeathTestSuite + 1, |testSuites|);
      forall s | s in testSuites ensures s in SuiteOrder() {
        var x :| 0 <= x < |testSuites| && testSuites[x] == s;
        var k := PermutationIsOnto(suiteIndices[..], x);
        assert SuiteOrder()[k] == s;
      }
    }

    /** Death tests run first: whatever the shuffle, no death test suite comes after
        another kind of suite. */
    lemma DeathTestsFirst(j: nat, k: nat)
      requires Valid() && j < k < |testSuites| && IsDeathTestSuite(SuiteOrder()[k].name)
      ensures IsDeathTestSuite(SuiteOrder()[j].name)
    {
    }

    /** Where the suite loop is: the tests of the first n suites have been reported as
        often as due, the others have not. */
    ghost predicate Counted(plan: Plan, n: nat)
      reads this, suiteIndices, set s | s in testSuites :: s.testIndices
      reads (set s | s in plan.order)`shouldRun, AllTests(plan.order), plan.before.Keys
    {
      && Valid() && plan.order == SuiteOrder() && Separate(plan.order) && IsDue(plan.order, plan.due)
      && n <= |plan.order| && plan.before.Keys == plan.ran.Keys == AllTests(plan.order)
      && (forall t :: t in plan.before ==>
            Handled(t) == plan.before[t] + (if t in TestsBelow(plan.order, n) then plan.due[t] else 0))
      && (forall t :: t in plan.ran ==>
            if t in TestsBelow(plan.order, n) then RanAtMostOnce(t, plan.ran[t]) else t.ran == plan.ran[t])
    }

    /** The schedule gives the tests of each suite in their current order. */
    ghost predicate IsSchedule(order: seq<TestSuite>, schedule: seq<seq<TestInfo>>)
      reads set s | s in order :: s.testIndices
    {
      && Lists(schedule, order)
      && forall k :: 0 <= k < |order| ==> order[k].Valid() && schedule[k] == order[k].Order()
    }

    /** The loop is still going: with failFast no test has failed so far. */
    ghost predicate Running(plan: Plan, n: nat)
      reads this, suiteIndices, set s | s in testSuites :: s.testIndices
      reads (set s | s in plan.order)`shouldRun, AllTests(plan.order), plan.before.Keys
      reads set s | s in plan.order :: s.testIndices
    {
      && Counted(plan, n) && IsSchedule(plan.order, plan.schedule)
      && (plan.failFast ==> RunsOn(plan.schedule, plan.ran, RanMap(plan.order), FailedTests(plan.order), n))
    }

    /** The loop may have been stopped: with failFast nothing was run after a failed test. */
    ghost predicate Stopping(plan: Plan, n: nat)
      reads this, suiteIndices, set s | s in testSuites :: s.testIndices
      reads (set s | s in plan.order)`shouldRun, AllTests(plan.order), plan.before.Keys
      reads set s | s in plan.order :: s.testIndices
    {
      && Counted(plan, n) && IsSchedule(plan.order, plan.schedule)
      && (plan.failFast ==> HaltsAtFailure(plan.schedule, plan.ran, RanMap(plan.order), FailedTests(plan.order)))
    }

    lemma LoopEnds(plan: Plan)
      requires Running(plan, |testSuites|)
      ensures Stopping(plan, |testSuites|)
    {
      RunsOnEnd(plan.schedule, plan.ran, RanMap(plan.order), FailedTests(plan.order), |testSuites|);
    }

    /** Runs the n-th suite, and with failFast says whether it failed. */
    method RunSuite(n: nat, failFast: bool, ghost next: TestSuite) returns (failed: bool)
      requires Valid() && n < |testSuites| && next == SuiteOrder()[n]
      modifies next.tests`skipped, next.tests`ran, next.tests`failed
      ensures next.Valid() && forall t :: t in next.tests ==> Handled(t) == old(Handled(t)) + DueIn(next, t)
      ensures forall t :: t in next.tests ==> RanAtMostOnce(t, old(t.ran))
      ensures failFast ==>
        forall j, k :: 0 <= j < k < |next.tests| && next.Order()[j].failed ==>
          next.Order()[k].ran == old(next.Order()[k].ran)
      ensures failFast && !failed ==> forall t :: t in next.tests ==> !(t.shouldRun && t.failed)
    {
      hide Permutes, Separate, IsDeathTestSuite;
      var suite := GetMutableSuiteCase(n);
      hide Valid;
      ghost var setUpFailed := suite.Run(failFast);
      failed := false;
      if failFast {
        failed := suite.Failed();
      }
    }

    /** The same in terms of all the tests: only those of the n-th suite are touched. */
    method RunOnly(n: nat, failFast: bool, ghost order: seq<TestSuite>) returns (failed: bool)
      requires Valid() && n < |testSuites| && order == SuiteOrder()
      modifies order[n].tests`skipped, order[n].tests`ran, order[n].tests`failed
      ensures order[n].Valid() && forall t :: t in order[n].tests ==> Handled(t) == old(Handled(t)) + DueIn(order[n], t)
      ensures forall t :: t in order[n].tests ==> RanAtMostOnce(t, old(t.ran))
      ensures OnlySuite(order, n, old(RanMap(order)), RanMap(order), old(FailedTests(order)), FailedTests(order))
      ensures failFast ==> SuiteHalts(order[n].Order(), old(RanMap(order)), RanMap(order), FailedTests(order))
      ensures failFast && !failed ==> NoneFailed(order[n].Order(), FailedTests(order))
    {
      hide Valid, RanAtMostOnce, Handled, DueIn;
      ghost var next := order[n];
      TestsOfSuite(order, n);
      failed := RunSuite(n, failFast, next);
      assert forall t :: t in AllTests(order) && t !in next.tests ==> t.ran == old(t.ran) && t.failed == old(t.failed);
    }

    method RunCounted(n: nat, failFast: bool, ghost plan: Plan) returns (failed: bool)
      requires n < |testSuites| && Counted(plan, n) && failFast == plan.failFast
      modifies AllTests(plan.order)`skipped, AllTests(plan.order)`ran, AllTests(plan.order)`failed
      ensures Counted(plan, n + 1) && plan.order[n].Valid()
      ensures OnlySuite(plan.order, n, old(RanMap(plan.order)), RanMap(plan.order), old(FailedTests(plan.order)),
        FailedTests(plan.order))
      ensures plan.failFast ==>
        SuiteHalts(plan.order[n].Order(), old(RanMap(plan.order)), RanMap(plan.order), FailedTests(plan.order))
      ensures plan.failFast && !failed ==> NoneFailed(plan.order[n].Order(), FailedTests(plan.order))
    {
      hide Valid, Permutes, Separate, AllTests, TestsBelow, OnlySuite, SuiteHalts, NoneFailed, RanMap, FailedTests,
           RanAtMostOnce, Handled, DueIn;
      ghost var order := plan.order;
      TestsBelowAre(order, n);
      TestsBelowAre(order, n + 1);
      TestsBelowNext(order, n);
      TestsOfSuite(order, n);
      failed := RunOnly(n, failFast, order);
    }

    /** One round of the loop. */
    method RunNext(n: nat, failFast: bool, ghost plan: Plan) returns (failed: bool)
      requires n < |testSuites| && Running(plan, n) && failFast == plan.failFast
      modifies AllTests(plan.order)`skipped, AllTests(plan.order)`ran, AllTests(plan.order)`failed
      ensures Stopping(plan, n + 1)
      ensures !(failFast && failed) ==> Running(plan, n + 1)
    {
      hide Running, Stopping, IsSchedule, Valid, Counted, Separate, AllTests, Lists, OnlySuite, SuiteHalts,
        NoneFailed, RanMap, FailedTests, RunsOn, HaltsAtFailure;
      OpenRunning(plan, n);
      ghost var ran, failedTests := RanMap(plan.order), FailedTests(plan.order);
      failed := RunCounted(n, failFast, plan);
      if failFast {
        RunsOnStep(plan.schedule, plan.order, n, plan.ran, ran, RanMap(plan.order), failedTests,
          FailedTests(plan.order));
      }
      CloseRunning(plan, n + 1);
    }

    lemma OpenRunning(plan: Plan, n: nat)
      requires Running(plan, n)
      ensures Counted(plan, n) && IsSchedule(plan.order, plan.schedule) && Lists(plan.schedule, plan.order)
      ensures |plan.order| == |testSuites| && Separate(plan.order) && RanMap(plan.order).Keys == AllTests(plan.order)
      ensures forall k :: 0 <= k < |plan.order| ==> plan.order[k].Valid() && plan.schedule[k] == plan.order[k].Order()
      ensures plan.failFast ==> RunsOn(plan.schedule, plan.ran, RanMap(plan.order), FailedTests(plan.order), n)
    {
    }

    lemma OpenStopping(plan: Plan, n: nat)
      requires Stopping(plan, n)
      ensures Counted(plan, n) && IsSchedule(plan.order, plan.schedule)
      ensures plan.failFast ==> HaltsAtFailure(plan.schedule, plan.ran, RanMap(plan.order), FailedTests(plan.order))
    {
    }

    lemma CloseRunning(plan: Plan, n: nat)
      requires Counted(plan, n) && IsSchedule(plan.order, plan.schedule)
      ensures var ran, failed := RanMap(plan.order), FailedTests(plan.order);
        && ((plan.failFast ==> HaltsAtFailure(plan.schedule, plan.ran, ran, failed)) ==> Stopping(plan, n))
        && ((plan.failFast ==> RunsOn(plan.schedule, plan.ran, ran, failed, n)) ==> Running(plan, n))
    {
    }

    /** Skips the n-th suite. */
    method SkipSuite(n: nat, ghost next: TestSuite)
      requires Valid() && n < |testSuites| && next == SuiteOrder()[n]
      modifies next.tests`skipped
      ensures forall t :: t in next.tests ==> Handled(t) == old(Handled(t)) + DueIn(next, t)
    {
      var suite := GetMutableSuiteCase(n);
      suite.Skip();
    }

    method SkipNext(n: nat, ghost plan: Plan)
      requires n < |testSuites| && Stopping(plan, n)
      modifies AllTests(plan.order)`skipped
      ensures Stopping(plan, n + 1)
    {
      hide Valid, Stopping, Running, Counted, RanMap, FailedTests, HaltsAtFailure, IsSchedule, AllTests;
      OpenStopping(plan, n);
      SkipCounted(n, plan);
      CloseRunning(plan, n + 1);
    }

    method SkipCounted(n: nat, ghost plan: Plan)
      requires n < |testSuites| && Counted(plan, n)
      modifies AllTests(plan.order)`skipped
      ensures Counted(plan, n + 1)
    {
      hide Valid, Permutes, Separate, AllTests, TestsBelow;
      ghost var order := plan.order;
      TestsBelowAre(order, n);
      TestsBelowAre(order, n + 1);
      TestsBelowNext(order, n);
      TestsOfSuite(order, n);
      SkipSuite(n, order[n]);
    }

    /** The suite loop of RunAllTests: every selected test is run or skipped exactly
        once, whatever fails; with failFast nothing is run after a failed test. */
    method RunSuites(failFast: bool, ghost plan: Plan)
      requires Running(plan, 0) && failFast == plan.failFast
      modifies AllTests(plan.order)`skipped, AllTests(plan.order)`ran, AllTests(plan.order)`failed
      ensures Stopping(plan, |testSuites|)
    {
      hide Running, Stopping, AllTests;
      for i := 0 to |testSuites|
        invariant Running(plan, i)
      {
        var failed := RunNext(i, failFast, plan);
        if failFast && failed {
          for j := i + 1 to |testSuites|
            invariant Stopping(plan, j)
          {
            SkipNext(j, plan);
          }
          return;
        }
      }
      LoopEnds(plan);
    }

    /** Skips every suite, after a fatal failure during global set-up. */
    method SkipSuites(ghost plan: Plan)
      requires Stopping(plan, 0)
      modifies AllTests(plan.order)`skipped
      ensures Stopping(plan, |testSuites|)
    {
      hide Stopping, AllTests;
      for i := 0 to |testSuites|
        invariant Stopping(plan, i)
      {
        SkipNext(i, plan);
      }
    }


    /** The results of the last iteration are forgotten. */
    method ClearNonAdHocTestResult()
      modifies AllTests(testSuites)`failed
      ensures FailedTests(testSuites) == {}
    {
      for i := 0 to |testSuites|
        invariant forall k, t :: 0 <= k < i && t in testSuites[k].tests ==> !t.failed
      {
        TestsOfSuite(testSuites, i);
        testSuites[i].ClearResult();
      }
    }

    /** One iteration of RunAllTests. `due` says how often each test is to be reported:
        once if it is selected in a suite that should run, else never. Unless global
        set-up asked to skip everything, that is what happens; after a fatal failure no
        test is run, all are skipped. With failFast nothing is run after a test that
        fails in this iteration. Afterwards the order is restored. */
    method RunIteration(shuffle: bool, seed: nat, failFast: bool, setUp: SetUpOutcome, random: Random,
                        ghost due: map<TestInfo, nat>)
      returns (ghost schedule: seq<seq<TestInfo>>)
      requires Valid() && IsDue(testSuites, due) && seed < 0x1_0000_0000
      modifies random, suiteIndices, set s | s in testSuites :: s.testIndices
      modifies AllTests(testSuites)`skipped, AllTests(testSuites)`ran, AllTests(testSuites)`failed
      ensures Valid() && Unshuffled() && InOrder()
      ensures ReportedTimes(old(HandledMap(testSuites)), HandledMap(testSuites), due, if setUp.Skipped? then 0 else 1)
      ensures !setUp.Fine? ==> RanMap(testSuites) == old(RanMap(testSuites))
      ensures failFast ==>
        HaltsAtFailure(schedule, old(RanMap(testSuites)), RanMap(testSuites), FailedTests(testSuites))
      ensures FailedIn(old(RanMap(testSuites)), RanMap(testSuites)) <= FailedTests(testSuites)
      ensures old(InOrder()) ==> ScheduledBy(schedule, testSuites, lastDeathTestSuite + 1, shuffle, seed)
    {
      hide *;
      ghost var before := HandledMap(testSuites);
      HandledMapIs(testSuites, due);
      StartIteration(shuffle, seed, random);
      schedule := RunInOrder(failFast, setUp, before, due);
      ReportedOnce(testSuites, before, due, setUp);
      ArrangedSchedule(shuffle, seed, schedule);
      UnshuffleTests();
    }

    /** Before the tests are run: old results are forgotten, and the order is settled. */
    method StartIteration(shuffle: bool, seed: nat, random: Random)
      requires Valid() && seed < 0x1_0000_0000
      modifies random, suiteIndices, set s | s in testSuites :: s.testIndices
      modifies AllTests(testSuites)`failed
      ensures Valid() && FailedTests(testSuites) == {}
      ensures old(InOrder()) ==> ArrangedBy(shuffle, seed)
    {
      hide Valid, InOrder, ArrangedBy;
      ClearNonAdHocTestResult();
      NotShuffled(seed);
      if shuffle {
        random.Reseed(seed);
        ShuffleTests(random);
      }
    }

    lemma NotShuffled(seed: nat)
      ensures InOrder() ==> ArrangedBy(false, seed)
    {
    }

    lemma ArrangedSchedule(shuffle: bool, seed: nat, schedule: seq<seq<TestInfo>>)
      requires Valid() && IsSchedule(SuiteOrder(), schedule)
      ensures ArrangedBy(shuffle, seed) ==> ScheduledBy(schedule, testSuites, lastDeathTestSuite + 1, shuffle, seed)
    {
      hide Permutes, Separate, IsDeathTestSuite, SuitePlaces, TestPlaces;
    }

    /** The middle of an iteration: the tests, in the current order. */
    method RunInOrder(failFast: bool, setUp: SetUpOutcome,
                      ghost before: map<TestInfo, nat>, ghost due: map<TestInfo, nat>)
      returns (ghost schedule: seq<seq<TestInfo>>)
      requires Valid() && IsDue(testSuites, due)
      requires before.Keys == AllTests(testSuites) && forall t :: t in before ==> Handled(t) == before[t]
      modifies AllTests(testSuites)`skipped, AllTests(testSuites)`ran, AllTests(testSuites)`failed
      ensures Valid() && IsSchedule(SuiteOrder(), schedule)
      ensures forall t :: t in before ==> Handled(t) == before[t] + (if setUp.Skipped? then 0 else due[t])
      ensures !setUp.Fine? ==> RanMap(testSuites) == old(RanMap(testSuites))
      ensures failFast ==>
        HaltsAtFailure(schedule, old(RanMap(testSuites)), RanMap(testSuites), FailedTests(testSuites))
      ensures FailedIn(old(RanMap(testSuites)), RanMap(testSuites)) <= FailedTests(testSuites)
    {
      hide Valid, Permutes, Separate, IsDue, AllTests, TestsBelow, RunsOn, HaltsAtFailure, FailedIn, FailedTests;
      ghost var plan := StartRunning(failFast, before, due);
      schedule := plan.schedule;
      TestsBelowAre(plan.order, |plan.order|);
      if setUp.Fine? {
        RunSuites(failFast, plan);
      } else if setUp.FatalFailure? {
        SkipSuites(plan);
      }
      SameFailed(plan.order, testSuites);
      if setUp.Skipped? {
        NoneFailedIn(plan.ran);
      } else {
        FailuresShow(plan);
      }
    }

    /** After the loop every failed run shows. */
    lemma FailuresShow(plan: Plan)
      requires Counted(plan, |plan.order|) && AllTests(plan.order) == AllTests(testSuites)
      ensures FailedIn(plan.ran, RanMap(testSuites)) <= FailedTests(testSuites)
    {
      hide Valid, Separate, IsDue;
      TestsBelowAre(plan.order, |plan.order|);
    }

    static lemma SameFailed(a: seq<TestSuite>, b: seq<TestSuite>)
      requires AllTests(a) == AllTests(b)
      ensures FailedTests(a) == FailedTests(b)
    {
      hide AllTests;
    }

    static lemma NoneFailedIn(ran: map<TestInfo, nat>)
      ensures FailedIn(ran, ran) == {}
    {
    }

    lemma StartRunning(failFast: bool, before: map<TestInfo, nat>, due: map<TestInfo, nat>) returns (plan: Plan)
      requires Valid() && IsDue(testSuites, due)
      requires before.Keys == AllTests(testSuites) && forall t :: t in before ==> Handled(t) == before[t]
      ensures plan.order == SuiteOrder() && AllTests(plan.order) == AllTests(testSuites)
      ensures plan.before == before && plan.due == due && plan.ran == RanMap(testSuites) && plan.failFast == failFast
      ensures Running(plan, 0) && Stopping(plan, 0)
    {
      hide *;
      var order := StartOrder(due);
      plan := Plan(order, ScheduleOf(order, |order|), before, due, RanMap(testSuites), failFast);
      StartCounted(plan);
      ScheduleIs(order);
      RanMapIs(order);
      RanMapIs(testSuites);
      NothingRun(plan.schedule, order, plan.ran, FailedTests(order));
      CloseRunning(plan, 0);
    }

    lemma StartOrder(due: map<TestInfo, nat>) returns (order: seq<TestSuite>)
      requires Valid() && IsDue(testSuites, due)
      ensures order == SuiteOrder() && Separate(order) && IsDue(order, due)
      ensures AllTests(order) == AllTests(testSuites) && RanMap(order) == RanMap(testSuites)
      ensures forall s :: s in order ==> s.Valid()
    {
      order := SuiteOrder();
      SuiteOrderCovers();
      SuitesValid();
      hide Valid, Separate, Permutes;
      SameTests(order, testSuites);
      forall k, t | 0 <= k < |order| && t in order[k].tests ensures t in due && due[t] == DueIn(order[k], t) {
        var j :| 0 <= j < |testSuites| && testSuites[j] == order[k];
      }
    }

    lemma StartCounted(plan: Plan)
      requires Valid() && plan.order == SuiteOrder() && Separate(plan.order) && IsDue(plan.order, plan.due)
      requires plan.before.Keys == AllTests(plan.order) && forall t :: t in plan.before ==> Handled(t) == plan.before[t]
      requires plan.ran == RanMap(plan.order)
      ensures Counted(plan, 0)
    {
      hide Valid, Separate, IsDue, AllTests;
    }

    static lemma ScheduleIs(order: seq<TestSuite>)
      requires forall s :: s in order ==> s.Valid()
      ensures Lists(ScheduleOf(order, |order|), order)
      ensures forall k :: 0 <= k < |order| ==> ScheduleOf(order, |order|)[k] == order[k].Order()
    {
      forall k | 0 <= k < |order| ensures forall t :: t in order[k].tests <==> t in order[k].Order() {
        order[k].OrderCovers();
      }
    }

    static lemma RanMapIs(suites: seq<TestSuite>)
      ensures RanMap(suites).Keys == AllTests(suites)
    {
    }

    lemma SuitesValid()
      requires Valid()
      ensures forall s :: s in SuiteOrder() ==> s.Valid()
    {
    }
  }
}
