/** Shuffling index vectors (gtest.cc, gtest-internal-inl.h). */
module Shuffles {
  import opened Counting

  const MAX_RANGE: nat := 0x8000_0000
  const INT_MAX: nat := 0x7FFF_FFFF

  /** The linear congruential generator behind shuffling. */
  class Random {
    var state: nat

    constructor (seed: nat)
      requires seed < 0x1_0000_0000
      ensures state == seed
    {
      state := seed;
    }

    method Reseed(seed: nat)
      requires seed < 0x1_0000_0000
      modifies this
      ensures state == seed
    {
      state := seed;
    }

    method Generate(range: nat) returns (r: nat)
      requires 0 < range <= MAX_RANGE
      modifies this
      ensures state == NextState(old(state)) && r == state % range && r < range
    {
      state := NextState(state);
      r := state % range;
    }
  }

  function NextState(state: nat): (next: nat)
    ensures next < MAX_RANGE
  {
    (1103515245 * state + 12345) % 0x1_0000_0000 % MAX_RANGE
  }

  /** The generator can be run backwards: every state has only one predecessor, so
      different states never lead to the same draws from some point on. */
  function PreviousState(next: nat): (state: nat)
    ensures state < MAX_RANGE
  {
    1857678181 * (next + MAX_RANGE - 12345) % MAX_RANGE
  }

  lemma GeneratorIsInvertible(state: nat)
    requires state < MAX_RANGE
    ensures PreviousState(NextState(state)) == state
  {
    var sum := 1103515245 * state + 12345;
    var k, next := TwoRemainders(sum);
    assert NextState(state) == next;
    hide NextState;
    var j := 954594553 * state - 1857678181 * k + 1857678181;
    assert 1857678181 * (next + 0x8000_0000 - 12345) == 0x8000_0000 * j + state;
    Remainder(1857678181 * (next + 0x8000_0000 - 12345), j, state);
  }

  lemma TwoRemainders(sum: nat) returns (k: nat, next: nat)
    ensures next == sum % 0x1_0000_0000 % MAX_RANGE && sum == 0x8000_0000 * k + next
  {
    k, next := 2 * (sum / 0x1_0000_0000) + sum % 0x1_0000_0000 / MAX_RANGE, sum % 0x1_0000_0000 % MAX_RANGE;
  }

  lemma Remainder(x: int, j: int, r: int)
    requires x == 0x8000_0000 * j + r && 0 <= r < 0x8000_0000
    ensures x % 0x8000_0000 == r
  {
  }

  /** No two states lead to the same next state. */
  lemma GeneratorKeepsStatesApart(a: nat, b: nat)
    requires a < MAX_RANGE && b < MAX_RANGE && NextState(a) == NextState(b)
    ensures a == b
  {
    GeneratorIsInvertible(a);
    GeneratorIsInvertible(b);
  }

  // ----- seeds

  const MAX_RANDOM_SEED: nat := 99999

  /** GetRandomSeedFromFlag: the flag, or the time if the flag is 0, as an unsigned number. */
  function GetRandomSeedFromFlag(raw: nat): (seed: nat)
    requires raw < 0x1_0000_0000
    ensures 1 <= seed <= MAX_RANDOM_SEED
  {
    (raw + 0xFFFF_FFFF) % 0x1_0000_0000 % MAX_RANDOM_SEED + 1
  }

  function GetNextRandomSeed(seed: nat): (next: nat)
    requires 1 <= seed <= MAX_RANDOM_SEED
    ensures 1 <= next <= MAX_RANDOM_SEED
  {
    if seed + 1 > MAX_RANDOM_SEED then 1 else seed + 1
  }

  /** The seed of the i-th iteration. */
  ghost function SeedAt(seed: nat, i: nat): (r: nat)
    requires 1 <= seed <= MAX_RANDOM_SEED
    ensures 1 <= r <= MAX_RANDOM_SEED
  {
    if i == 0 then seed else GetNextRandomSeed(SeedAt(seed, i - 1))
  }

  /** The iterations go round all the seeds, and a seed given as the flag is taken as
      it is. */
  lemma {:induction false} SeedAtIs(seed: nat, i: nat)
    requires 1 <= seed <= MAX_RANDOM_SEED
    ensures SeedAt(seed, i) == (seed - 1 + i) % MAX_RANDOM_SEED + 1
    ensures GetRandomSeedFromFlag(SeedAt(seed, i)) == SeedAt(seed, i)
  {
    SeedFromFlag(SeedAt(seed, i));
    if i > 0 {
      SeedAtIs(seed, i - 1);
      NextRemainder(seed - 1 + i - 1);
    }
  }

  lemma SeedFromFlag(seed: nat)
    requires 1 <= seed <= MAX_RANDOM_SEED
    ensures GetRandomSeedFromFlag(seed) == seed
  {
  }

  lemma NextRemainder(x: nat)
    ensures (x + 1) % 99999 == if x % 99999 == 99998 then 0 else x % 99999 + 1
  {
  }

  // ----- index vectors

  /** The indices lo..hi in some order, at the places lo..hi. */
  ghost predicate Permutes(s: seq<int>, lo: int, hi: int) {
    && 0 <= lo <= hi <= |s|
    && (forall k :: lo <= k < hi ==> lo <= s[k] < hi)
    && (forall j, k :: lo <= j < k < hi ==> s[j] != s[k])
  }

  /** The indices in registration order. */
  ghost function Identity(n: nat): seq<int> { seq(n, k => k) }

  /** The items in the order of the indices. */
  ghost predicate Arranges<E>(arranged: seq<E>, items: seq<E>, indices: seq<int>) {
    && |arranged| == |indices| == |items|
    && forall k :: 0 <= k < |indices| ==> 0 <= indices[k] < |items| && arranged[k] == items[indices[k]]
  }

  /** A permutation leaves no index out. */
  lemma PermutationIsOnto(s: seq<int>, x: int) returns (k: nat)
    requires Permutes(s, 0, |s|) && 0 <= x < |s|
    ensures k < |s| && s[k] == x
  {
    assert Distinct(s);
    DistinctBelow(s, |s|);
    assert x in s;
    k :| k < |s| && s[k] == x;
  }

  /** Two adjacent permuted ranges make one. */
  lemma PermutesJoin(s: seq<int>, lo: int, mid: int, hi: int)
    requires Permutes(s, lo, mid) && Permutes(s, mid, hi)
    ensures Permutes(s, lo, hi)
  {
  }

  /** GetElementOr. */
  function GetElementOr(v: seq<int>, i: int, defaultValue: int): int {
    if i < 0 || i >= |v| then defaultValue else v[i]
  }

  // ----- the shuffle

  function Swapped<E>(v: seq<E>, i: nat, j: nat): seq<E>
    requires i < |v| && j < |v|
  {
    v[i := v[j]][j := v[i]]
  }

  /** One draw for each place of a range of that width, from the last place down to the
      second: each below the number of places left. */
  ghost predicate IsChoice(choices: seq<nat>, width: nat) {
    && |choices| == (if width < 2 then 0 else width - 1)
    && forall k :: 0 <= k < |choices| ==> choices[k] < width - k
  }

  /** The range after those draws. */
  ghost function Shuffled<E>(v: seq<E>, begin: nat, width: nat, choices: seq<nat>): (r: seq<E>)
    requires begin + width <= |v| && IsChoice(choices, width)
    ensures |r| == |v|
    decreases width
  {
    if width < 2 then v
    else Shuffled(Swapped(v, begin + choices[0], begin + width - 1), begin, width - 1, choices[1..])
  }

  /** The draws of the generator, and its state after them. */
  ghost function Draws(state: nat, width: nat): (choices: seq<nat>)
    ensures IsChoice(choices, width)
    decreases width
  {
    if width < 2 then []
    else
      var rest := Draws(NextState(state), width - 1);
      var first := NextState(state) % width;
      assert forall k :: 0 <= k < |[first] + rest| ==> ([first] + rest)[k] == if k == 0 then first else rest[k - 1];
      [first] + rest
  }

  ghost function StateAfter(state: nat, width: nat): nat
    decreases width
  {
    if width < 2 then state else StateAfter(NextState(state), width - 1)
  }

  /** The shuffle draws for the last place, and shuffles what is left. */
  lemma ShuffleStep<E>(v: seq<E>, begin: nat, width: nat, state: nat)
    requires begin + width <= |v| && width >= 2
    ensures var next := NextState(state);
      && Shuffled(v, begin, width, Draws(state, width)) ==
         Shuffled(Swapped(v, begin + next % width, begin + width - 1), begin, width - 1, Draws(next, width - 1))
      && StateAfter(state, width) == StateAfter(next, width - 1)
  {
    hide Swapped, NextState;
    DrawFirst(v, begin, width, NextState(state) % width, Draws(NextState(state), width - 1));
  }

  lemma ShuffleEnd<E>(v: seq<E>, begin: nat, width: nat, state: nat)
    requires begin + width <= |v| && width < 2
    ensures Shuffled(v, begin, width, Draws(state, width)) == v && StateAfter(state, width) == state
  {
  }

  /** ShuffleRange (Fisher-Yates): what the generator draws decides the order. */
  method ShuffleRange<E>(random: Random, begin: int, end: int, v: array<E>)
    requires 0 <= begin <= end <= v.Length <= INT_MAX
    modifies random, v
    ensures v[..] == Shuffled(old(v[..]), begin, end - begin, Draws(old(random.state), end - begin))
    ensures random.state == StateAfter(old(random.state), end - begin)
  {
    hide Shuffled, IsChoice, Draws, StateAfter, NextState;
    var rangeWidth := end - begin;
    while rangeWidth >= 2
      invariant 0 <= rangeWidth <= end - begin
      invariant Shuffled(v[..], begin, rangeWidth, Draws(random.state, rangeWidth)) ==
        old(Shuffled(v[..], begin, end - begin, Draws(random.state, end - begin)))
      invariant StateAfter(random.state, rangeWidth) == StateAfter(old(random.state), end - begin)
    {
      ghost var before, state := v[..], random.state;
      var lastInRange := begin + rangeWidth - 1;
      var offset := random.Generate(rangeWidth);
      var selected := begin + offset;
      v[selected], v[lastInRange] := v[lastInRange], v[selected];
      assert v[..] == Swapped(before, selected, lastInRange);
      ShuffleStep(before, begin, rangeWidth, state);
      rangeWidth := rangeWidth - 1;
    }
    ShuffleEnd(v[..], begin, rangeWidth, random.state);
  }

  /** The places of n suites of which the first `deaths` are death test suites: each
      kind is shuffled among itself. */
  ghost function SuitePlaces(n: nat, deaths: nat, shuffle: bool, seed: nat): (r: seq<int>)
    requires deaths <= n
    ensures |r| == n
  {
    if shuffle then
      var first := Shuffled(Identity(n), 0, deaths, Draws(seed, deaths));
      Shuffled(first, deaths, n - deaths, Draws(StateAfter(seed, deaths), n - deaths))
    else Identity(n)
  }

  /** The generator before the tests of the k-th suite are shuffled, from its state
      before the first. */
  ghost function StateBefore(sizes: seq<nat>, state: nat, k: nat): nat
    requires k <= |sizes|
  {
    if k == 0 then state else StateAfter(StateBefore(sizes, state, k - 1), sizes[k - 1])
  }

  /** The places of the tests of the k-th suite. */
  ghost function TestPlaces(sizes: seq<nat>, deaths: nat, shuffle: bool, seed: nat, k: nat): (r: seq<int>)
    requires deaths <= |sizes| && k < |sizes|
    ensures |r| == sizes[k]
  {
    if shuffle then
      var state := StateBefore(sizes, StateAfter(StateAfter(seed, deaths), |sizes| - deaths), k);
      Shuffled(Identity(sizes[k]), 0, sizes[k], Draws(state, sizes[k]))
    else Identity(sizes[k])
  }

  lemma TestPlacesShuffled(sizes: seq<nat>, deaths: nat, seed: nat, k: nat, state: nat)
    requires deaths <= |sizes| && k < |sizes| && state == StateAfter(StateAfter(seed, deaths), |sizes| - deaths)
    ensures TestPlaces(sizes, deaths, true, seed, k) ==
      Shuffled(Identity(sizes[k]), 0, sizes[k], Draws(StateBefore(sizes, state, k), sizes[k]))
    ensures StateBefore(sizes, state, k + 1) == StateAfter(StateBefore(sizes, state, k), sizes[k])
  {
  }

  lemma SwapKeeps<E>(v: seq<E>, lo: nat, hi: nat, i: nat, j: nat)
    requires lo <= i < hi <= |v| && lo <= j < hi
    ensures multiset(Swapped(v, i, j)[lo..hi]) == multiset(v[lo..hi])
  {
    var r := v[lo..hi];
    assert Swapped(v, i, j)[lo..hi] == Swapped(r, i - lo, j - lo);
  }

  /** The first draw settles the last place of the range. */
  lemma FirstDraw<E>(v: seq<E>, begin: nat, width: nat, choices: seq<nat>) returns (s: seq<E>)
    requires begin + width <= |v| && IsChoice(choices, width) && width >= 2
    ensures var last := begin + width - 1;
      && s == Swapped(v, begin + choices[0], last) && |s| == |v| && IsChoice(choices[1..], width - 1)
      && Shuffled(v, begin, width, choices) == Shuffled(s, begin, width - 1, choices[1..])
      && s[last] == v[begin + choices[0]]
      && (forall k :: 0 <= k < |v| && !(begin <= k <= last) ==> s[k] == v[k])
      && multiset(s[begin..last]) + multiset{s[last]} == multiset(v[begin..begin + width])
  {
    s := Swapped(v, begin + choices[0], begin + width - 1);
    SwappedLast(v, begin, width, begin + choices[0]);
    hide Swapped;
  }

  lemma SwappedLast<E>(v: seq<E>, begin: nat, width: nat, i: nat)
    requires width >= 1 && begin <= i < begin + width <= |v|
    ensures var last, s := begin + width - 1, Swapped(v, i, begin + width - 1);
      && |s| == |v| && s[last] == v[i]
      && (forall k :: 0 <= k < |v| && !(begin <= k <= last) ==> s[k] == v[k])
      && multiset(s[begin..last]) + multiset{s[last]} == multiset(v[begin..begin + width])
  {
    var s := Swapped(v, i, begin + width - 1);
    SwapKeeps(v, begin, begin + width, i, begin + width - 1);
    assert s[begin + width - 1] == v[i];
    assert forall k :: 0 <= k < |v| && !(begin <= k < begin + width) ==> s[k] == v[k];
    hide Swapped;
    SplitLast(s, begin, width);
  }

  /** Whatever is drawn, the rest of the vector stays as it is. */
  lemma {:induction false} ShuffledOutside<E>(v: seq<E>, begin: nat, width: nat, choices: seq<nat>)
    requires begin + width <= |v| && IsChoice(choices, width)
    ensures forall k :: 0 <= k < |v| && !(begin <= k < begin + width) ==> Shuffled(v, begin, width, choices)[k] == v[k]
    decreases width
  {
    if width >= 2 {
      var s := FirstDraw(v, begin, width, choices);
      hide Shuffled, Swapped, IsChoice;
      ShuffledOutside(s, begin, width - 1, choices[1..]);
    }
  }

  /** The last place of the range gets the element that the first draw names. */
  lemma ShuffledLast<E>(v: seq<E>, begin: nat, width: nat, choices: seq<nat>)
    requires begin + width <= |v| && IsChoice(choices, width) && width >= 2
    ensures Shuffled(v, begin, width, choices)[begin + width - 1] == v[begin + choices[0]]
  {
    var s := FirstDraw(v, begin, width, choices);
    ShuffledOutside(s, begin, width - 1, choices[1..]);
    hide Shuffled, Swapped, IsChoice;
  }

  /** What is left is shuffled by the other draws, with the element of the last place where
      the first draw took one away. */
  lemma ShuffledRest<E>(v: seq<E>, begin: nat, width: nat, choices: seq<nat>)
    requires begin + width <= |v| && IsChoice(choices, width) && width >= 2
    ensures var last := begin + width - 1;
      Shuffled(v, begin, width, choices) ==
        Shuffled(v[last := v[begin + choices[0]]][begin + choices[0] := v[last]], begin, width - 1, choices[1..])
  {
    var last, i := begin + width - 1, begin + choices[0];
    assert Swapped(v, i, last) == v[last := v[i]][i := v[last]];
  }

  /** Draws that always name the last place leave everything as it is. */
  lemma {:induction false} ShuffledStays<E>(v: seq<E>, begin: nat, width: nat, choices: seq<nat>)
    requires begin + width <= |v| && IsChoice(choices, width)
    requires forall k :: 0 <= k < |choices| ==> choices[k] == width - 1 - k
    ensures Shuffled(v, begin, width, choices) == v
    decreases width
  {
    if width >= 2 {
      var last := begin + width - 1;
      assert v[last := v[last]][last := v[last]] == v;
      ShuffledRest(v, begin, width, choices);
      hide Shuffled;
      ShuffledStays(v, begin, width - 1, choices[1..]);
    }
  }

  /** The states of the generator, one after the other. */
  ghost function StateAt(state: nat, k: nat): nat {
    if k == 0 then state else NextState(StateAt(state, k - 1))
  }

  lemma {:induction false} StateAtNext(state: nat, k: nat)
    ensures StateAt(NextState(state), k) == StateAt(state, k + 1)
  {
    hide NextState;
    if k > 0 {
      StateAtNext(state, k - 1);
    }
  }

  /** The k-th draw is the next state but k, below the number of places left. */
  lemma {:induction false} DrawsAre(state: nat, width: nat, k: nat)
    requires k + 1 < width
    ensures Draws(state, width)[k] == StateAt(state, k + 1) % (width - k)
    decreases width
  {
    if k == 0 {
      assert StateAt(state, 1) == NextState(StateAt(state, 0));
    } else {
      DrawsAre(NextState(state), width - 1, k - 1);
      StateAtNext(state, k);
    }
  }

  /** How many numbers the shuffle of a range draws: one less than its width. */
  ghost function DrawCount(width: nat): nat { if width == 0 then 0 else width - 1 }

  lemma {:induction false} StateAfterIs(state: nat, width: nat)
    ensures StateAfter(state, width) == StateAt(state, DrawCount(width))
    decreases width
  {
    hide NextState;
    if width >= 2 {
      StateAfterIs(NextState(state), width - 1);
      StateAtNext(state, width - 2);
    }
  }

  lemma {:induction false} StateAtSum(state: nat, j: nat, k: nat)
    ensures StateAt(StateAt(state, j), k) == StateAt(state, j + k)
  {
    hide NextState;
    if k > 0 {
      StateAtSum(state, j, k - 1);
    }
  }

  /** How many numbers are drawn before the tests of the k-th suite are shuffled. */
  ghost function DrawnBefore(sizes: seq<nat>, deaths: nat, k: nat): nat
    requires deaths <= |sizes| && k <= |sizes|
  {
    if k == 0 then DrawCount(deaths) + DrawCount(|sizes| - deaths)
    else DrawnBefore(sizes, deaths, k - 1) + DrawCount(sizes[k - 1])
  }

  lemma {:induction false} StateBeforeIs(sizes: seq<nat>, deaths: nat, seed: nat, k: nat)
    requires deaths <= |sizes| && k <= |sizes|
    ensures StateBefore(sizes, StateAfter(StateAfter(seed, deaths), |sizes| - deaths), k) ==
      StateAt(seed, DrawnBefore(sizes, deaths, k))
  {
    hide StateAfter, StateAt, DrawCount;
    if k == 0 {
      StateAfterIs(seed, deaths);
      StateAfterIs(StateAfter(seed, deaths), |sizes| - deaths);
      StateAtSum(seed, DrawCount(deaths), DrawCount(|sizes| - deaths));
    } else {
      var state := StateAfter(StateAfter(seed, deaths), |sizes| - deaths);
      StateBeforeIs(sizes, deaths, seed, k - 1);
      StateAfterIs(StateBefore(sizes, state, k - 1), sizes[k - 1]);
      StateAtSum(seed, DrawnBefore(sizes, deaths, k - 1), DrawCount(sizes[k - 1]));
    }
  }

  /** These draws are numbers of the generator, one after the other, behind the first `skipped`. */
  ghost predicate DrawnFrom(choices: seq<nat>, width: nat, seed: nat, skipped: nat) {
    && |choices| == DrawCount(width)
    && forall k :: 0 <= k < |choices| ==> choices[k] == StateAt(seed, skipped + k + 1) % (width - k)
  }

  lemma DrawnFromIs(choices: seq<nat>, width: nat, seed: nat, skipped: nat)
    requires DrawnFrom(choices, width, seed, skipped)
    ensures choices == Draws(StateAt(seed, skipped), width)
  {
    hide StateAt, Draws;
    forall k | 0 <= k < |choices| ensures choices[k] == Draws(StateAt(seed, skipped), width)[k] {
      DrawsAre(StateAt(seed, skipped), width, k);
      StateAtSum(seed, skipped, k + 1);
    }
  }

  /** The whole order comes from one stream of numbers that begins with the seed: death
      test suites draw first, then the other suites, */
  lemma SuiteDraws(n: nat, deaths: nat, seed: nat, first: seq<nat>, others: seq<nat>)
    requires deaths <= n
    requires DrawnFrom(first, deaths, seed, 0) && DrawnFrom(others, n - deaths, seed, DrawCount(deaths))
    ensures IsChoice(first, deaths) && IsChoice(others, n - deaths)
    ensures SuitePlaces(n, deaths, true, seed) ==
      Shuffled(Shuffled(Identity(n), 0, deaths, first), deaths, n - deaths, others)
  {
    DrawnFromIs(first, deaths, seed, 0);
    DrawnFromIs(others, n - deaths, seed, DrawCount(deaths));
    StateAfterIs(seed, deaths);
    assert StateAt(seed, 0) == seed;
    hide StateAt, Draws, Shuffled;
  }

  /** and then the tests of each suite, in order of registration. */
  lemma TestDraws(sizes: seq<nat>, deaths: nat, seed: nat, k: nat, choices: seq<nat>)
    requires deaths <= |sizes| && k < |sizes|
    requires DrawnFrom(choices, sizes[k], seed, DrawnBefore(sizes, deaths, k))
    ensures IsChoice(choices, sizes[k])
    ensures TestPlaces(sizes, deaths, true, seed, k) == Shuffled(Identity(sizes[k]), 0, sizes[k], choices)
  {
    StateBeforeIs(sizes, deaths, seed, k);
    DrawnFromIs(choices, sizes[k], seed, DrawnBefore(sizes, deaths, k));
    hide StateAt, Draws, Shuffled, StateBefore, StateAfter;
  }

  /** The first numbers of the generator. */
  lemma FirstStates()
    ensures NextState(0) == 12345 && NextState(1) == 1103527590 && NextState(2) == 59559187
    ensures StateAt(1, 1) == 1103527590
  {
  }

  /** And the range keeps its elements. */
  lemma {:induction false} ShuffledKeeps<E>(v: seq<E>, begin: nat, width: nat, choices: seq<nat>)
    requires begin + width <= |v| && IsChoice(choices, width)
    ensures multiset(Shuffled(v, begin, width, choices)[begin..begin + width]) == multiset(v[begin..begin + width])
    decreases width
  {
    if width >= 2 {
      hide Shuffled, Swapped;
      var s := FirstDraw(v, begin, width, choices);
      ShuffledKeeps(s, begin, width - 1, choices[1..]);
      ShuffledOutside(s, begin, width - 1, choices[1..]);
      hide IsChoice;
      KeepsLast(v, s, Shuffled(v, begin, width, choices), begin, width);
    }
  }

  lemma KeepsLast<E>(v: seq<E>, s: seq<E>, r: seq<E>, begin: nat, width: nat)
    requires width >= 1 && begin + width <= |v| == |s| == |r|
    requires multiset(r[begin..begin + (width - 1)]) == multiset(s[begin..begin + (width - 1)])
    requires r[begin + width - 1] == s[begin + width - 1]
    requires multiset(s[begin..begin + width - 1]) + multiset{s[begin + width - 1]} == multiset(v[begin..begin + width])
    ensures multiset(r[begin..begin + width]) == multiset(v[begin..begin + width])
  {
    SplitLast(r, begin, width);
  }

  lemma SplitLast<E>(v: seq<E>, begin: nat, width: nat)
    requires width >= 1 && begin + width <= |v|
    ensures v[begin..begin + width] == v[begin..begin + width - 1] + [v[begin + width - 1]]
    ensures multiset(v[begin..begin + width]) == multiset(v[begin..begin + width - 1]) + multiset{v[begin + width - 1]}
  {
    assert v[begin..begin + width] == v[begin..begin + width - 1] + [v[begin + width - 1]];
  }

  /** No two lists of draws give the same order. */
  lemma {:induction false} ShuffledOnce<E>(v: seq<E>, begin: nat, width: nat, a: seq<nat>, b: seq<nat>)
    requires begin + width <= |v| && IsChoice(a, width) && IsChoice(b, width)
    requires forall j, k :: begin <= j < k < begin + width ==> v[j] != v[k]
    requires Shuffled(v, begin, width, a) == Shuffled(v, begin, width, b)
    ensures a == b
    decreases width
  {
    hide Shuffled, Swapped;
    if width >= 2 {
      var s := FirstDraw(v, begin, width, a);
      var t := FirstDraw(v, begin, width, b);
      assert a == [a[0]] + a[1..] && b == [b[0]] + b[1..];
      SwappedDistinct(v, begin, width, begin + a[0]);
      ShuffledOutside(s, begin, width - 1, a[1..]);
      ShuffledOutside(t, begin, width - 1, b[1..]);
      hide Shuffled, Swapped, IsChoice;
      assert v[begin + a[0]] == v[begin + b[0]];
      SameDraw(v, begin, width, a[0], b[0]);
      ShuffledOnce(s, begin, width - 1, a[1..], b[1..]);
    }
  }

  lemma SameDraw<E>(v: seq<E>, begin: nat, width: nat, i: nat, j: nat)
    requires begin + width <= |v| && i < width && j < width && v[begin + i] == v[begin + j]
    requires forall j, k :: begin <= j < k < begin + width ==> v[j] != v[k]
    ensures i == j
  {
  }

  lemma SwappedDistinct<E>(v: seq<E>, begin: nat, width: nat, i: nat)
    requires width >= 1 && begin + width <= |v| && begin <= i < begin + width
    requires forall j, k :: begin <= j < k < begin + width ==> v[j] != v[k]
    ensures var s := Swapped(v, i, begin + width - 1);
      forall j, k :: begin <= j < k < begin + width ==> s[j] != s[k]
  {
  }

  /** Every order of the range can be drawn. */
  lemma {:induction false} ShuffledOnto<E>(v: seq<E>, target: seq<E>, begin: nat, width: nat)
    returns (choices: seq<nat>)
    requires begin + width <= |v| == |target|
    requires multiset(target[begin..begin + width]) == multiset(v[begin..begin + width])
    requires forall k :: 0 <= k < |v| && !(begin <= k < begin + width) ==> target[k] == v[k]
    ensures IsChoice(choices, width) && Shuffled(v, begin, width, choices) == target
    decreases width
  {
    hide Swapped, Shuffled, IsChoice;
    if width < 2 {
      choices := [];
      OneOrder(v, target, begin, width);
    } else {
      var last := begin + width - 1;
      SplitLast(target, begin, width);
      var j := PlaceOf(v, begin, width, target[last]);
      var s := Swapped(v, begin + j, last);
      SwappedLast(v, begin, width, begin + j);
      SameRest(multiset(s[begin..last]), multiset(target[begin..last]), target[last]);
      var rest := ShuffledOnto(s, target, begin, width - 1);
      choices := [j] + rest;
      DrawFirst(v, begin, width, j, rest);
    }
  }

  lemma DrawFirst<E>(v: seq<E>, begin: nat, width: nat, j: nat, rest: seq<nat>)
    requires begin + width <= |v| && width >= 2 && j < width && IsChoice(rest, width - 1)
    ensures IsChoice([j] + rest, width)
    ensures Shuffled(v, begin, width, [j] + rest) ==
      Shuffled(Swapped(v, begin + j, begin + width - 1), begin, width - 1, rest)
  {
    hide Swapped;
    var choices := [j] + rest;
    assert choices[0] == j && choices[1..] == rest;
    assert forall k :: 0 <= k < |choices| ==> choices[k] == if k == 0 then j else rest[k - 1];
  }

  lemma OneOrder<E>(v: seq<E>, target: seq<E>, begin: nat, width: nat)
    requires width < 2 && begin + width <= |v| == |target|
    requires multiset(target[begin..begin + width]) == multiset(v[begin..begin + width])
    requires forall k :: 0 <= k < |v| && !(begin <= k < begin + width) ==> target[k] == v[k]
    ensures IsChoice([], width) && Shuffled(v, begin, width, []) == target
  {
    if width == 1 {
      assert v[begin..begin + 1] == [v[begin]] && target[begin..begin + 1] == [target[begin]];
      assert v[begin] in multiset(v[begin..begin + 1]);
    }
  }

  lemma PlaceOf<E>(v: seq<E>, begin: nat, width: nat, x: E) returns (j: nat)
    requires begin + width <= |v| && x in multiset(v[begin..begin + width])
    ensures j < width && v[begin + j] == x
  {
    j :| 0 <= j < width && v[begin..begin + width][j] == x;
  }

  lemma SameRest<E>(a: multiset<E>, b: multiset<E>, x: E)
    requires a + multiset{x} == b + multiset{x}
    ensures a == b
  {
    assert a == a + multiset{x} - multiset{x};
  }

  // ----- shuffled index vectors

  /** A rearranged range still permutes its indices. */
  lemma RearrangedPermutes(before: seq<int>, after: seq<int>, lo: int, hi: int)
    requires |before| == |after| && Permutes(before, lo, hi)
    requires multiset(after[lo..hi]) == multiset(before[lo..hi])
    ensures Permutes(after, lo, hi)
  {
    var a, b := after[lo..hi], before[lo..hi];
    forall k | lo <= k < hi ensures lo <= after[k] < hi {
      assert a[k - lo] in multiset(a);
      assert after[k] in b;
    }
    forall j, k | lo <= j < k < hi ensures after[j] != after[k] {
      if after[j] == after[k] {
        Twice(a, j - lo, k - lo);
        OnlyOnce(b, after[j]);
      }
    }
  }

  /** A shuffled range permutes its indices if it did before, */
  lemma ShufflePermutes(before: seq<int>, after: seq<int>, lo: nat, width: nat, state: nat)
    requires lo + width <= |before| && Permutes(before, lo, lo + width)
    requires after == Shuffled(before, lo, width, Draws(state, width))
    ensures Permutes(after, lo, lo + width)
  {
    hide Shuffled, Draws, Permutes, IsChoice;
    ShuffledKeeps(before, lo, width, Draws(state, width));
    RearrangedPermutes(before, after, lo, lo + width);
  }

  /** and so does a range beside it. */
  lemma ShuffleLeaves(before: seq<int>, after: seq<int>, lo: nat, width: nat, state: nat, otherLo: nat, otherHi: nat)
    requires lo + width <= |before| && Permutes(before, otherLo, otherHi) && (otherHi <= lo || lo + width <= otherLo)
    requires after == Shuffled(before, lo, width, Draws(state, width))
    ensures Permutes(after, otherLo, otherHi)
  {
    hide Shuffled, Draws, IsChoice;
    ShuffledOutside(before, lo, width, Draws(state, width));
    assert forall k :: otherLo <= k < otherHi ==> after[k] == before[k];
  }

  lemma Twice(s: seq<int>, j: int, k: int)
    requires 0 <= j < k < |s| && s[j] == s[k]
    ensures multiset(s)[s[j]] >= 2
  {
    assert s == s[..k] + [s[k]] + s[k + 1..];
    assert s[..k][j] in multiset(s[..k]);
  }

  lemma {:induction false} OnlyOnce(s: seq<int>, x: int)
    requires forall j, k :: 0 <= j < k < |s| ==> s[j] != s[k]
    ensures multiset(s)[x] <= 1
  {
    if s != [] {
      var init, last := s[..|s| - 1], s[|s| - 1];
      OnlyOnce(init, x);
      assert s == init + [last];
      if x == last {
        assert x !in init;
      }
    }
  }
}
