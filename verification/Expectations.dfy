/** Expectations and their prerequisites (gmock-spec-builders): worklists over a
    shared acyclic graph of objects, two of them without a visited set. */
module Expectations {
  import opened PrerequisiteGraphs

  class ExpectationBase {
    /** cardinality(): how many calls satisfy the expectation, and how many saturate it. */
    const satisfiedBy: nat -> bool
    const saturatedBy: nat -> bool
    const retiresOnSaturation: bool
    /** The set of immediate prerequisites, in iteration order. */
    var immediatePrerequisites: seq<ExpectationBase>
    var callCount: nat
    var retired: bool

    constructor (satisfiedBy: nat -> bool, saturatedBy: nat -> bool, retiresOnSaturation: bool)
      ensures immediatePrerequisites == [] && callCount == 0 && !retired
    {
      this.satisfiedBy, this.saturatedBy, this.retiresOnSaturation := satisfiedBy, saturatedBy, retiresOnSaturation;
      immediatePrerequisites, callCount, retired := [], 0, false;
    }

    predicate IsSatisfied()
      reads this
    {
      satisfiedBy(callCount)
    }

    predicate IsSaturated()
      reads this
    {
      saturatedBy(callCount)
    }
  }

  /** g is the prerequisite graph of the expectations among its nodes. */
  ghost predicate IsGraph(g: Graph<ExpectationBase>)
    reads g.Keys
  {
    Closed(g) && forall e :: e in g ==> e.immediatePrerequisites == g[e]
  }

  ghost function Satisfied(g: Graph<ExpectationBase>): (s: set<ExpectationBase>)
    reads g.Keys
  {
    set e | e in g && e.IsSatisfied()
  }

  /** Satisfied without ever having been called. */
  ghost function SatisfiedUncalled(g: Graph<ExpectationBase>): (s: set<ExpectationBase>)
    reads g.Keys
  {
    set e | e in g && e.IsSatisfied() && e.callCount == 0
  }

  ghost function Retired(g: Graph<ExpectationBase>): (s: set<ExpectationBase>)
    reads g.Keys
  {
    set e | e in g && e.retired
  }

  /** Everything behind every node of the stack is in s. */
  ghost predicate BehindAllIn(g: Graph<ExpectationBase>, e: ExpectationBase, s: set<ExpectationBase>) {
    forall x :: Behind(g, e, x) ==> x in s
  }

  ghost predicate StackAllIn(g: Graph<ExpectationBase>, stack: seq<ExpectationBase>, s: set<ExpectationBase>) {
    forall i :: 0 <= i < |stack| ==> BehindAllIn(g, stack[i], s)
  }

  lemma BehindAllStep(g: Graph<ExpectationBase>, e: ExpectationBase, s: set<ExpectationBase>)
    requires Closed(g) && e in g
    ensures BehindAllIn(g, e, s) <==> StackAllIn(g, g[e], s) && forall i :: 0 <= i < |g[e]| ==> g[e][i] in s
  {
    forall x ensures Behind(g, e, x) <==> x in g[e] || exists i :: 0 <= i < |g[e]| && Behind(g, g[e][i], x) {
      BehindStep(g, g.Keys, e, x);
    }
    if BehindAllIn(g, e, s) {
      forall i | 0 <= i < |g[e]| ensures BehindAllIn(g, g[e][i], s) && g[e][i] in s {
        assert Behind(g, e, g[e][i]);
        forall x | Behind(g, g[e][i], x) ensures x in s {
          assert Behind(g, e, x);
        }
      }
    }
  }

  ghost predicate AllNodes(g: Graph<ExpectationBase>, s: seq<ExpectationBase>) {
    forall i :: 0 <= i < |s| ==> s[i] in g
  }

  /** Expanding the top of the stack does not change whether everything behind the
      stack, and the nodes expanded, is in s. */
  lemma ExpandTop(g: Graph<ExpectationBase>, rest: seq<ExpectationBase>, e: ExpectationBase, s: set<ExpectationBase>)
    requires Closed(g) && e in g
    ensures StackAllIn(g, rest + [e], s) <==>
      StackAllIn(g, rest + g[e], s) && forall i :: 0 <= i < |g[e]| ==> g[e][i] in s
  {
    BehindAllStep(g, e, s);
    assert (rest + [e])[|rest|] == e;
    assert StackAllIn(g, rest + [e], s) <==> StackAllIn(g, rest, s) && BehindAllIn(g, e, s) by {
      assert forall i :: 0 <= i < |rest| ==> (rest + [e])[i] == rest[i];
    }
    assert StackAllIn(g, rest + g[e], s) <==> StackAllIn(g, rest, s) && StackAllIn(g, g[e], s) by {
      assert forall i :: 0 <= i < |rest| ==> (rest + g[e])[i] == rest[i];
      assert forall i :: 0 <= i < |g[e]| ==> (rest + g[e])[|rest| + i] == g[e][i];
    }
  }

  /** Pushing the k-th prerequisite of e costs its walks. */
  lemma PushWalks(g: Graph<ExpectationBase>, rest: seq<ExpectationBase>, e: ExpectationBase, k: nat)
    requires Closed(g) && Acyclic(g) && e in g && k < |g[e]|
    requires AllNodes(g, rest)
    requires AllNodes(g, rest + g[e][..k])
    ensures AllNodes(g, rest + g[e][..k + 1])
    ensures StackWalks(g, rest + g[e][..k + 1]) == StackWalks(g, rest + g[e][..k]) + Walks(g, g[e][k])
  {
    assert rest + g[e][..k + 1] == rest + g[e][..k] + [g[e][k]];
    assert (rest + g[e][..k + 1])[..|rest| + k] == rest + g[e][..k];
  }

  /** One round of a walk without visited set makes it cheaper. */
  lemma {:induction false} RoundWalks(g: Graph<ExpectationBase>, rest: seq<ExpectationBase>, e: ExpectationBase, k: nat)
    requires Closed(g) && Acyclic(g) && e in g && k <= |g[e]|
    requires AllNodes(g, rest)
    ensures AllNodes(g, rest + g[e][..k])
    ensures StackWalks(g, rest + g[e][..k]) == StackWalks(g, rest) + WalksFrom(g, e, k)
  {
    hide Acyclic, Closed;
    if k == 0 {
      assert rest + g[e][..0] == rest;
    } else {
      RoundWalks(g, rest, e, k - 1);
      PushWalks(g, rest, e, k - 1);
    }
  }

  /** Popping e and pushing all its prerequisites makes the remaining walk shorter. */
  lemma RoundShorter(g: Graph<ExpectationBase>, rest: seq<ExpectationBase>, e: ExpectationBase)
    requires Closed(g) && Acyclic(g) && e in g
    requires AllNodes(g, rest)
    ensures AllNodes(g, rest + g[e]) && AllNodes(g, g[e])
    ensures StackWalks(g, rest + g[e]) < StackWalks(g, rest + [e])
  {
    RoundWalks(g, rest, e, |g[e]|);
    assert g[e][..|g[e]|] == g[e];
    assert (rest + [e])[..|rest|] == rest;
  }

  /** AllPrerequisitesAreSatisfied: walks every path, stopping at the first
      unsatisfied expectation. */
  method AllPrerequisitesAreSatisfied(self: ExpectationBase, ghost g: Graph<ExpectationBase>) returns (all: bool)
    requires IsGraph(g) && Acyclic(g) && self in g
    ensures all <==> BehindAllIn(g, self, Satisfied(g))
  {
    hide Behind, Acyclic, Closed, BehindAllIn, StackWalks;
    ghost var s := Satisfied(g);
    var expectations := [self];
    assert expectations[0] == self;
    while expectations != []
      invariant AllNodes(g, expectations)
      invariant BehindAllIn(g, self, s) <==> StackAllIn(g, expectations, s)
      decreases StackWalks(g, expectations)
    {
      var exp := expectations[|expectations| - 1];
      ghost var rest := expectations[..|expectations| - 1];
      assert expectations == rest + [exp];
      expectations := expectations[..|expectations| - 1];
      ExpandTop(g, rest, exp, s);
      RoundShorter(g, rest, exp);
      var prerequisites := exp.immediatePrerequisites;
      for k := 0 to |prerequisites|
        invariant expectations == rest + prerequisites[..k]
        invariant forall i :: 0 <= i < k ==> prerequisites[i] in s
      {
        var next := prerequisites[k];
        assert next in g;
        if !next.IsSatisfied() {
          return false;
        }
        expectations := expectations + [next];
      }
      assert expectations == rest + prerequisites;
    }
    return true;
  }

  // ----- what to report as unsatisfied

  /** x is to be reported for e: unsatisfied, and reached from e through
      expectations that are satisfied although they were never called. */
  ghost predicate Reported(g: Graph<ExpectationBase>, via: set<ExpectationBase>, sat: set<ExpectationBase>,
                           e: ExpectationBase, x: ExpectationBase) {
    BehindVia(g, via, e, x) && x !in sat
  }

  ghost predicate StackReported(g: Graph<ExpectationBase>, via: set<ExpectationBase>, sat: set<ExpectationBase>,
                                stack: seq<ExpectationBase>, x: ExpectationBase) {
    exists i :: 0 <= i < |stack| && Reported(g, via, sat, stack[i], x)
  }

  ghost function Kept(s: seq<ExpectationBase>, via: set<ExpectationBase>): seq<ExpectationBase> {
    if s == [] then []
    else Kept(s[..|s| - 1], via) + (if s[|s| - 1] in via then [s[|s| - 1]] else [])
  }

  lemma {:induction false} KeptMembers(s: seq<ExpectationBase>, via: set<ExpectationBase>, x: ExpectationBase)
    ensures x in Kept(s, via) <==> x in s && x in via
  {
    if s != [] {
      KeptMembers(s[..|s| - 1], via, x);
      assert s == s[..|s| - 1] + [s[|s| - 1]];
    }
  }

  /** Expanding the top of the stack: its unsatisfied prerequisites are reported
      now, the kept ones later. */
  lemma ExpandReported(g: Graph<ExpectationBase>, via: set<ExpectationBase>, sat: set<ExpectationBase>,
                       rest: seq<ExpectationBase>, e: ExpectationBase, x: ExpectationBase)
    requires Closed(g) && e in g
    ensures StackReported(g, via, sat, rest + [e], x) <==>
      StackReported(g, via, sat, rest + Kept(g[e], via), x) || (x in g[e] && x !in sat)
  {
    hide BehindVia;
    BehindStep(g, via, e, x);
    var kept := Kept(g[e], via);
    assert StackReported(g, via, sat, rest + [e], x) <==>
      StackReported(g, via, sat, rest, x) || Reported(g, via, sat, e, x) by {
      assert (rest + [e])[|rest|] == e && forall i :: 0 <= i < |rest| ==> (rest + [e])[i] == rest[i];
    }
    assert StackReported(g, via, sat, rest + kept, x) <==>
      StackReported(g, via, sat, rest, x) || StackReported(g, via, sat, kept, x) by {
      assert forall i :: 0 <= i < |rest| ==> (rest + kept)[i] == rest[i];
      assert forall i :: 0 <= i < |kept| ==> (rest + kept)[|rest| + i] == kept[i];
    }
    if i :| 0 <= i < |g[e]| && g[e][i] in via && BehindVia(g, via, g[e][i], x) {
      KeptMembers(g[e], via, g[e][i]);
      var j :| 0 <= j < |kept| && kept[j] == g[e][i];
    }
    if j :| 0 <= j < |kept| && BehindVia(g, via, kept[j], x) {
      KeptMembers(g[e], via, kept[j]);
      var i :| 0 <= i < |g[e]| && g[e][i] == kept[j];
    }
  }

  lemma {:induction false} KeptWalks(g: Graph<ExpectationBase>, via: set<ExpectationBase>,
                                     rest: seq<ExpectationBase>, e: ExpectationBase, k: nat)
    requires Closed(g) && Acyclic(g) && e in g && k <= |g[e]| && AllNodes(g, rest)
    ensures AllNodes(g, rest + Kept(g[e][..k], via))
    ensures StackWalks(g, rest + Kept(g[e][..k], via)) <= StackWalks(g, rest) + WalksFrom(g, e, k)
  {
    hide Kept, Acyclic, StackWalks, Walks;
    if k == 0 {
      KeptNone(rest, g[e], via);
    } else {
      KeptWalks(g, via, rest, e, k - 1);
      KeptSnoc(g[e], via, k - 1);
      KeptOneMore(g, rest, Kept(g[e][..k - 1], via), g[e][k - 1]);
    }
  }

  lemma KeptNone(rest: seq<ExpectationBase>, s: seq<ExpectationBase>, via: set<ExpectationBase>)
    ensures rest + Kept(s[..0], via) == rest
  {
  }

  lemma KeptSnoc(s: seq<ExpectationBase>, via: set<ExpectationBase>, k: nat)
    requires k < |s|
    ensures Kept(s[..k + 1], via) == if s[k] in via then Kept(s[..k], via) + [s[k]] else Kept(s[..k], via)
  {
    assert s[..k + 1][..k] == s[..k];
  }

  lemma KeptOneMore(g: Graph<ExpectationBase>, rest: seq<ExpectationBase>, kept: seq<ExpectationBase>,
                    e: ExpectationBase)
    requires Closed(g) && Acyclic(g) && e in g && AllNodes(g, rest + kept)
    ensures AllNodes(g, rest + (kept + [e])) &&
      StackWalks(g, rest + (kept + [e])) == StackWalks(g, rest + kept) + Walks(g, e)
  {
    assert rest + (kept + [e]) == (rest + kept) + [e];
    PushOne(g, rest + kept, e);
  }

  lemma PushOne(g: Graph<ExpectationBase>, stack: seq<ExpectationBase>, e: ExpectationBase)
    requires Closed(g) && Acyclic(g) && e in g && AllNodes(g, stack)
    ensures AllNodes(g, stack + [e]) && StackWalks(g, stack + [e]) == StackWalks(g, stack) + Walks(g, e)
  {
    assert (stack + [e])[..|stack|] == stack;
  }

  lemma KeptShorter(g: Graph<ExpectationBase>, via: set<ExpectationBase>, rest: seq<ExpectationBase>,
                    e: ExpectationBase)
    requires Closed(g) && Acyclic(g) && e in g && AllNodes(g, rest)
    ensures AllNodes(g, rest + Kept(g[e], via)) && AllNodes(g, g[e])
    ensures StackWalks(g, rest + Kept(g[e], via)) < StackWalks(g, rest + [e])
  {
    KeptWalks(g, via, rest, e, |g[e]|);
    assert g[e][..|g[e]|] == g[e];
    assert (rest + [e])[..|rest|] == rest;
  }

  /** FindUnsatisfiedPrerequisites: adds exactly the reported expectations. */
  method FindUnsatisfiedPrerequisites(self: ExpectationBase, result: set<ExpectationBase>,
                                      ghost g: Graph<ExpectationBase>)
    returns (result': set<ExpectationBase>)
    requires IsGraph(g) && Acyclic(g) && self in g
    ensures forall x :: x in result' <==>
      x in result || (x in g && Reported(g, SatisfiedUncalled(g), Satisfied(g), self, x))
  {
    hide Acyclic, Closed, Reported, StackWalks;
    ghost var sat, via := Satisfied(g), SatisfiedUncalled(g);
    result' := result;
    var expectations := [self];
    assert forall x: ExpectationBase :: StackReported(g, via, sat, [self], x) <==> Reported(g, via, sat, self, x) by {
      assert [self][0] == self;
    }
    while expectations != []
      invariant AllNodes(g, expectations)
      invariant forall x: ExpectationBase :: (x in result || Reported(g, via, sat, self, x)) <==>
        (x in result' || StackReported(g, via, sat, expectations, x))
      decreases StackWalks(g, expectations)
    {
      var exp := expectations[|expectations| - 1];
      ghost var rest, result0 := expectations[..|expectations| - 1], result';
      assert expectations == rest + [exp];
      expectations := expectations[..|expectations| - 1];
      KeptShorter(g, via, rest, exp);
      forall x: ExpectationBase
        ensures StackReported(g, via, sat, rest + [exp], x) <==>
          StackReported(g, via, sat, rest + Kept(g[exp], via), x) || (x in g[exp] && x !in sat)
      {
        ExpandReported(g, via, sat, rest, exp, x);
      }
      var prerequisites := exp.immediatePrerequisites;
      for k := 0 to |prerequisites|
        invariant expectations == rest + Kept(prerequisites[..k], via)
        invariant forall x :: x in result' <==> x in result0 || (x in prerequisites[..k] && x !in sat)
      {
        var next := prerequisites[k];
        assert next in g;
        assert prerequisites[..k + 1] == prerequisites[..k] + [next];
        if next.IsSatisfied() {
          if next.callCount == 0 {
            expectations := expectations + [next];
          }
        } else {
          result' := result' + {next};
        }
      }
      assert prerequisites[..|prerequisites|] == prerequisites;
    }
    ReportedIsNode(g, via, sat, self);
  }

  lemma ReportedIsNode(g: Graph<ExpectationBase>, via: set<ExpectationBase>, sat: set<ExpectationBase>,
                       e: ExpectationBase)
    ensures forall x :: Reported(g, via, sat, e, x) ==> x in g
  {
  }

  /** If everything behind a called, satisfied expectation is satisfied, then
      something is reported exactly when not all prerequisites are satisfied. */
  lemma ReportsWhenUnsatisfied(g: Graph<ExpectationBase>, sat: set<ExpectationBase>, via: set<ExpectationBase>,
                               e: ExpectationBase)
    requires Closed(g) && via <= sat <= g.Keys
    requires forall c :: c in sat && c !in via ==> BehindAllIn(g, c, sat)
    ensures (exists x :: x in g && Reported(g, via, sat, e, x)) <==> !BehindAllIn(g, e, sat)
  {
    if x :| x in g && Reported(g, via, sat, e, x) {
      assert Behind(g, e, x);
    }
    if x :| Behind(g, e, x) && x !in sat {
      var p :| IsPath(g, p) && |p| >= 2 && p[0] == e && p[|p| - 1] == x;
      var y := FirstUnsatisfied(g, sat, via, p);
      assert y in g && Reported(g, via, sat, e, y);
    }
  }

  lemma {:induction false} FirstUnsatisfied(g: Graph<ExpectationBase>, sat: set<ExpectationBase>,
                                            via: set<ExpectationBase>,
                                            p: seq<ExpectationBase>) returns (y: ExpectationBase)
    requires Closed(g) && IsPath(g, p) && |p| >= 2 && p[|p| - 1] !in sat
    requires forall c :: c in sat && c !in via ==> BehindAllIn(g, c, sat)
    ensures y in g && BehindVia(g, via, p[0], y) && y !in sat
    decreases |p|
  {
    assert p[1] in g[p[0]];
    if p[1] !in sat {
      y := p[1];
      assert IsPath(g, [p[0], y]);
    } else {
      var tail := p[1..];
      assert IsPath(g, tail);
      assert Behind(g, p[1], p[|p| - 1]);
      assert p[1] in via;
      y := FirstUnsatisfied(g, sat, via, tail);
      var i :| 0 <= i < |g[p[0]]| && g[p[0]][i] == p[1];
      BehindStep(g, via, p[0], y);
    }
  }

  // ----- retiring

  /** How often each expectation has been called, and which are retired. */
  datatype Status = Status(calls: map<ExpectationBase, nat>, retired: set<ExpectationBase>)

  ghost predicate IsStatus(g: Graph<ExpectationBase>, s: Status) {
    s.calls.Keys == g.Keys && s.retired <= g.Keys
  }

  ghost function Now(g: Graph<ExpectationBase>): (s: Status)
    reads g.Keys
    ensures IsStatus(g, s) && s.retired == Retired(g)
  {
    Status(map e | e in g :: e.callCount, Retired(g))
  }

  /** Once an expectation is retired, so are all its prerequisites. */
  ghost predicate RetiredClosed(g: Graph<ExpectationBase>, retired: set<ExpectationBase>) {
    forall e, x :: e in g && e in retired && x in g[e] ==> x in retired
  }

  /** What the worklist has retired so far: the original set and things behind self;
      whatever is newly retired either is still on the stack or is done. */
  ghost predicate Retiring(g: Graph<ExpectationBase>, self: ExpectationBase, before: set<ExpectationBase>,
                           now: set<ExpectationBase>, stack: seq<ExpectationBase>) {
    && before <= now <= g.Keys
    && AllNodes(g, stack)
    && (forall x :: x in now ==> x in before || Behind(g, self, x))
    && (forall x :: x in stack ==> x == self || Behind(g, self, x))
    && (forall e, x :: e in g && (e == self || (e in now && e !in before)) && e !in stack && x in g[e] ==> x in now)
  }

  /** An empty stack: everything behind self, and nothing else, was added. */
  lemma RetiringDone(g: Graph<ExpectationBase>, self: ExpectationBase, before: set<ExpectationBase>,
                     now: set<ExpectationBase>)
    requires Closed(g) && self in g && RetiredClosed(g, before) && Retiring(g, self, before, now, [])
    ensures now == before + AllBehind(g, self)
    ensures RetiredClosed(g, now)
  {
    forall x | Behind(g, self, x) ensures x in now {
      var p :| IsPath(g, p) && |p| >= 2 && p[0] == self && p[|p| - 1] == x;
      BehindWithin(g, now, p);
    }
  }

  /** A retired expectation has nothing active behind it. */
  lemma RetiredBehind(g: Graph<ExpectationBase>, self: ExpectationBase, retired: set<ExpectationBase>)
    requires Closed(g) && self in g && RetiredClosed(g, retired) && self in retired
    ensures retired == retired + AllBehind(g, self)
  {
    forall x | Behind(g, self, x) ensures x in retired {
      var p :| IsPath(g, p) && |p| >= 2 && p[0] == self && p[|p| - 1] == x;
      BehindWithin(g, retired, p);
    }
  }

  /** The same in the middle of a round, when the first k prerequisites of exp are done. */
  ghost predicate Expanding(g: Graph<ExpectationBase>, self: ExpectationBase, before: set<ExpectationBase>,
                            now: set<ExpectationBase>, stack: seq<ExpectationBase>, exp: ExpectationBase, k: nat)
    requires exp in g && k <= |g[exp]|
  {
    && before <= now <= g.Keys
    && AllNodes(g, stack)
    && (exp == self || Behind(g, self, exp))
    && (forall x :: x in now ==> x in before || Behind(g, self, x))
    && (forall x :: x in stack ==> x == self || Behind(g, self, x))
    && (forall e, x :: e in g && e != exp && (e == self || (e in now && e !in before)) && e !in stack && x in g[e] ==>
          x in now)
    && (forall i :: 0 <= i < k ==> g[exp][i] in now)
  }

  lemma ExpandStart(g: Graph<ExpectationBase>, self: ExpectationBase, before: set<ExpectationBase>,
                    now: set<ExpectationBase>, rest: seq<ExpectationBase>, exp: ExpectationBase)
    requires Retiring(g, self, before, now, rest + [exp])
    ensures exp in g && Expanding(g, self, before, now, rest, exp, 0)
  {
    assert (rest + [exp])[|rest|] == exp;
    assert forall i :: 0 <= i < |rest| ==> (rest + [exp])[i] == rest[i];
  }

  /** The next prerequisite of exp: retired and pushed if it is still active. */
  lemma ExpandOne(g: Graph<ExpectationBase>, self: ExpectationBase, before: set<ExpectationBase>,
                  now: set<ExpectationBase>, stack: seq<ExpectationBase>, exp: ExpectationBase, k: nat)
    requires Closed(g) && exp in g && k < |g[exp]| && Expanding(g, self, before, now, stack, exp, k)
    ensures var next := g[exp][k];
      && next in g
      && if next in now then Expanding(g, self, before, now, stack, exp, k + 1)
         else Expanding(g, self, before, now + {next}, stack + [next], exp, k + 1)
  {
    hide BehindVia;
    var next := g[exp][k];
    BehindStep(g, g.Keys, exp, next);
    if exp != self {
      BehindTransitive(g, self, exp, next);
    }
  }

  lemma ExpandEnd(g: Graph<ExpectationBase>, self: ExpectationBase, before: set<ExpectationBase>,
                  now: set<ExpectationBase>, stack: seq<ExpectationBase>, exp: ExpectationBase)
    requires exp in g && Expanding(g, self, before, now, stack, exp, |g[exp]|)
    ensures Retiring(g, self, before, now, stack)
  {
  }

  /** Retire. */
  method Retire(e: ExpectationBase, ghost g: Graph<ExpectationBase>)
    requires IsGraph(g) && e in g
    modifies e`retired
    ensures IsGraph(g) && Now(g) == Status(old(Now(g)).calls, old(Retired(g)) + {e})
  {
    e.retired := true;
  }

  /** IncrementCallCount. */
  method IncrementCallCount(e: ExpectationBase, ghost g: Graph<ExpectationBase>)
    requires IsGraph(g) && e in g
    modifies e`callCount
    ensures IsGraph(g) && Now(g) == Status(old(Now(g)).calls[e := old(e.callCount) + 1], old(Retired(g)))
    ensures e.callCount == old(e.callCount) + 1
  {
    e.callCount := e.callCount + 1;
    assert Retired(g) == old(Retired(g));
  }

  /** RetireAllPreRequisites: retires exactly the active expectations behind self,
      and keeps retirement closed. Cycles would do no harm here. */
  method RetireAllPreRequisites(self: ExpectationBase, ghost g: Graph<ExpectationBase>)
    requires IsGraph(g) && self in g && RetiredClosed(g, Retired(g))
    modifies g.Keys`retired
    ensures IsGraph(g) && RetiredClosed(g, Retired(g))
    ensures Now(g) == Status(old(Now(g)).calls, old(Retired(g)) + AllBehind(g, self))
  {
    hide Now, Retired, BehindVia, Behind, Retiring, Expanding, RetiredClosed, AllBehind, BehindAllIn;
    ghost var before, calls := Retired(g), Now(g).calls;
    NowAt(g, self);
    if self.retired {
      RetiredBehind(g, self, before);
      return;
    }
    var expectations := [self];
    ghost var now := before;
    RetiringStart(g, self, before);
    while expectations != []
      invariant IsGraph(g) && Now(g) == Status(calls, now)
      invariant Retiring(g, self, before, now, expectations)
      decreases |g.Keys - now|, |expectations|
    {
      var exp := expectations[|expectations| - 1];
      ghost var rest, now0 := expectations[..|expectations| - 1], now;
      PopSplit(expectations);
      ExpandStart(g, self, before, now, rest, exp);
      expectations := expectations[..|expectations| - 1];
      var prerequisites := exp.immediatePrerequisites;
      for k := 0 to |prerequisites|
        invariant IsGraph(g) && Now(g) == Status(calls, now)
        invariant Expanding(g, self, before, now, expectations, exp, k)
        invariant now0 <= now <= g.Keys && (now == now0 ==> expectations == rest)
      {
        var next := prerequisites[k];
        ExpandOne(g, self, before, now, expectations, exp, k);
        NowAt(g, next);
        if !next.retired {
          Retire(next, g);
          expectations := expectations + [next];
          now := now + {next};
        }
      }
      ExpandEnd(g, self, before, now, expectations, exp);
      FewerLeft(g.Keys, now0, now);
    }
    RetiringDone(g, self, before, now);
  }

  lemma PopSplit<T>(s: seq<T>)
    requires s != []
    ensures s == s[..|s| - 1] + [s[|s| - 1]]
  {
  }

  lemma RetiringStart(g: Graph<ExpectationBase>, self: ExpectationBase, before: set<ExpectationBase>)
    requires Closed(g) && self in g && before <= g.Keys
    ensures Retiring(g, self, before, before, [self])
  {
  }

  lemma FewerLeft<T>(all: set<T>, a: set<T>, b: set<T>)
    requires a <= b <= all
    ensures a != b ==> |all - b| < |all - a|
  {
    if x :| x in b && x !in a {
      ProperSubsetSize(all - b, all - a, x);
    }
  }

  // ----- handling calls

  ghost function SatisfiedIn(g: Graph<ExpectationBase>, s: Status): set<ExpectationBase>
    requires IsStatus(g, s)
  {
    set e | e in g && e.satisfiedBy(s.calls[e])
  }

  ghost function UncalledIn(g: Graph<ExpectationBase>, s: Status): set<ExpectationBase>
    requires IsStatus(g, s)
  {
    set e | e in g && e.satisfiedBy(s.calls[e]) && s.calls[e] == 0
  }

  lemma NowSatisfied(g: Graph<ExpectationBase>)
    ensures SatisfiedIn(g, Now(g)) == Satisfied(g) && UncalledIn(g, Now(g)) == SatisfiedUncalled(g)
  {
  }

  /** A further call of e would be excessive. */
  ghost predicate Excessive(s: Status, e: ExpectationBase)
    requires e in s.calls
  {
    e.saturatedBy(s.calls[e])
  }

  /** e may handle a call that matches it: it is active, and everything behind it is
      satisfied. */
  ghost predicate MayHandle(g: Graph<ExpectationBase>, s: Status, e: ExpectationBase)
    requires IsStatus(g, s)
  {
    e in g && e !in s.retired && BehindAllIn(g, e, SatisfiedIn(g, s))
  }

  /** What a call handled by e leaves: it is counted and, unless it was excessive,
      retires everything behind e, and e too if it is now saturated and asked for that. */
  ghost function After(g: Graph<ExpectationBase>, s: Status, e: ExpectationBase): (s': Status)
    requires IsStatus(g, s) && e in g
    ensures IsStatus(g, s')
  {
    var calls := s.calls[e := s.calls[e] + 1];
    if Excessive(s, e) then Status(calls, s.retired)
    else
      var self := if e.retiresOnSaturation && e.saturatedBy(calls[e]) then {e} else {};
      Status(calls, s.retired + AllBehind(g, e) + self)
  }

  ghost predicate Step(g: Graph<ExpectationBase>, s: Status, e: ExpectationBase, s': Status) {
    IsStatus(g, s) && MayHandle(g, s, e) && s' == After(g, s, e)
  }

  /** Any number of handled calls; `handlers` says who handled them. */
  ghost predicate Run(g: Graph<ExpectationBase>, states: seq<Status>, handlers: seq<ExpectationBase>) {
    && |states| == |handlers| + 1 && IsStatus(g, states[0])
    && forall i :: 0 <= i < |handlers| ==> Step(g, states[i], handlers[i], states[i + 1])
  }

  lemma RunStep(g: Graph<ExpectationBase>, states: seq<Status>, handlers: seq<ExpectationBase>, i: nat)
    requires Run(g, states, handlers) && i + 1 < |states|
    ensures |handlers| + 1 == |states| && Step(g, states[i], handlers[i], states[i + 1]) && IsStatus(g, states[i + 1])
  {
  }

  lemma RunStatus(g: Graph<ExpectationBase>, states: seq<Status>, handlers: seq<ExpectationBase>, i: nat)
    requires Run(g, states, handlers) && i < |states|
    ensures IsStatus(g, states[i])
  {
    if i > 0 {
      RunStep(g, states, handlers, i - 1);
    }
  }

  /** Nothing is ever un-retired, and a retired expectation is not called any more. */
  lemma {:induction false} RetiredStays(g: Graph<ExpectationBase>, states: seq<Status>, handlers: seq<ExpectationBase>,
                                        i: nat, j: nat, e: ExpectationBase)
    requires Run(g, states, handlers) && i <= j < |states| && e in states[i].retired
    ensures e in g && e in states[j].retired && e in states[i].calls && e in states[j].calls
    ensures states[j].calls[e] == states[i].calls[e]
    decreases j - i
  {
    RunStatus(g, states, handlers, i);
    if i < j {
      RunStep(g, states, handlers, i);
      hide Run, BehindAllIn, AllBehind;
      RetiredStays(g, states, handlers, i + 1, j, e);
    }
  }

  /** Prerequisites come first. At every handled call, everything behind its handler is
      satisfied; and if the call is not excessive, it stays satisfied for good, retired,
      and never handles a call again. */
  lemma RunsKeepOrder(g: Graph<ExpectationBase>, states: seq<Status>, handlers: seq<ExpectationBase>, i: nat, j: nat,
                      x: ExpectationBase)
    requires Acyclic(g) && Run(g, states, handlers) && i < j <= |handlers| && Behind(g, handlers[i], x)
    ensures x in states[i].calls && x.satisfiedBy(states[i].calls[x])
    ensures handlers[i] in states[i].calls && x in states[j].calls
    ensures !Excessive(states[i], handlers[i]) ==>
      && x.satisfiedBy(states[j].calls[x]) && x in states[j].retired
      && (j < |handlers| ==> handlers[j] != x)
  {
    var s, e := states[i], handlers[i];
    RunStep(g, states, handlers, i);
    RunStatus(g, states, handlers, j);
    assert x in SatisfiedIn(g, s);
    assert x != e by { assert e in g; }
    if !Excessive(s, e) {
      assert x in AllBehind(g, e);
      RetiredStays(g, states, handlers, i + 1, j, x);
      if j < |handlers| {
        RunStep(g, states, handlers, j);
      }
    }
  }

  /** Nobody has been called yet. */
  ghost predicate Unused(g: Graph<ExpectationBase>, s: Status) {
    IsStatus(g, s) && s.retired == {} && forall e :: e in g ==> s.calls[e] == 0
  }

  /** What has been called has a first call. */
  lemma {:induction false} FirstCall(g: Graph<ExpectationBase>, states: seq<Status>, handlers: seq<ExpectationBase>,
                                     i: nat, e: ExpectationBase) returns (first: nat)
    requires Run(g, states, handlers) && Unused(g, states[0]) && i < |states| && e in g
    requires e in states[i].calls && states[i].calls[e] > 0
    ensures first < i && handlers[first] == e && e in states[first].calls && states[first].calls[e] == 0
    decreases i
  {
    RunStep(g, states, handlers, i - 1);
    RunStatus(g, states, handlers, i - 1);
    hide Run, BehindAllIn, AllBehind;
    if states[i - 1].calls[e] == 0 {
      first := i - 1;
    } else {
      first := FirstCall(g, states, handlers, i - 1, e);
    }
  }

  /** In a run from the start the same holds behind every handler that is not saturated
      without any call, whether or not this call of it is excessive. */
  lemma RunsKeepOrderFromStart(g: Graph<ExpectationBase>, states: seq<Status>, handlers: seq<ExpectationBase>,
                               i: nat, j: nat, x: ExpectationBase)
    requires Acyclic(g) && Run(g, states, handlers) && Unused(g, states[0])
    requires i < j <= |handlers| && Behind(g, handlers[i], x) && !handlers[i].saturatedBy(0)
    ensures x in states[j].calls && x.satisfiedBy(states[j].calls[x]) && x in states[j].retired
    ensures j < |handlers| ==> handlers[j] != x
  {
    var e := handlers[i];
    RunStep(g, states, handlers, i);
    RunStatus(g, states, handlers, i);
    var first := i;
    if states[i].calls[e] > 0 {
      first := FirstCall(g, states, handlers, i, e);
    }
    RunsKeepOrder(g, states, handlers, first, j, x);
  }

  // ----- what a run counts and retires

  /** How many of these calls e handled. */
  ghost function CallsOf(handlers: seq<ExpectationBase>, e: ExpectationBase): nat {
    if handlers == [] then 0
    else CallsOf(handlers[..|handlers| - 1], e) + (if handlers[|handlers| - 1] == e then 1 else 0)
  }

  lemma CallsSnoc(handlers: seq<ExpectationBase>, n: nat, e: ExpectationBase)
    requires n < |handlers|
    ensures CallsOf(handlers[..n + 1], e) == CallsOf(handlers[..n], e) + (if handlers[n] == e then 1 else 0)
  {
    assert handlers[..n + 1][..n] == handlers[..n];
  }

  /** The call counts of a state: those at the start, and every handled call since. */
  ghost predicate CountsCalls(first: Status, s: Status, handlers: seq<ExpectationBase>, e: ExpectationBase) {
    e in first.calls && e in s.calls && s.calls[e] == first.calls[e] + CallsOf(handlers, e)
  }

  /** Every handled call is counted once, for its handler. */
  lemma {:induction false} RunCounts(g: Graph<ExpectationBase>, states: seq<Status>, handlers: seq<ExpectationBase>,
                                     j: nat, e: ExpectationBase)
    requires Run(g, states, handlers) && j <= |handlers| && e in g
    ensures CountsCalls(states[0], states[j], handlers[..j], e)
    decreases j
  {
    if j == 0 {
      RunStatus(g, states, handlers, 0);
    } else {
      RunCounts(g, states, handlers, j - 1, e);
      RunStep(g, states, handlers, j - 1);
      hide *;
      NextCounts(g, states[0], states[j - 1], states[j], handlers, j - 1, e);
    }
  }

  lemma NextCounts(g: Graph<ExpectationBase>, first: Status, s: Status, s': Status, handlers: seq<ExpectationBase>,
                   n: nat,
                   e: ExpectationBase)
    requires n < |handlers| && e in g && Step(g, s, handlers[n], s') && CountsCalls(first, s, handlers[..n], e)
    ensures CountsCalls(first, s', handlers[..n + 1], e)
  {
    CallsSnoc(handlers, n, e);
    StepCounts(g, s, handlers[n], s', e);
    hide Step, CallsOf;
  }

  lemma StepCounts(g: Graph<ExpectationBase>, s: Status, h: ExpectationBase, s': Status, e: ExpectationBase)
    requires Step(g, s, h, s') && e in g
    ensures e in s.calls && e in s'.calls && s'.calls[e] == s.calls[e] + (if h == e then 1 else 0)
  {
  }

  /** An expectation that asks for it is retired as soon as a call saturates it: from then
      on it never handles a call again. */
  lemma RetiresOnceSaturated(g: Graph<ExpectationBase>, states: seq<Status>, handlers: seq<ExpectationBase>, i: nat,
                             j: nat)
    requires Run(g, states, handlers) && i < j <= |handlers|
    requires var e := handlers[i];
      && e in states[i].calls && !e.saturatedBy(states[i].calls[e])
      && e.retiresOnSaturation && e.saturatedBy(states[i].calls[e] + 1)
    ensures handlers[i] in states[j].retired && (j < |handlers| ==> handlers[j] != handlers[i])
  {
    RunStep(g, states, handlers, i);
    hide AllBehind;
    assert handlers[i] in states[i + 1].retired;
    RetiredStays(g, states, handlers, i + 1, j, handlers[i]);
    if j < |handlers| {
      RunStatus(g, states, handlers, j);
      RunStep(g, states, handlers, j);
    }
  }

  /** The i-th call retires x: it is not excessive, and x lies behind its handler, or is the
      handler, now saturated, and asks for it. */
  ghost predicate RetiresAt(g: Graph<ExpectationBase>, states: seq<Status>, handlers: seq<ExpectationBase>, i: nat,
                            x: ExpectationBase)
    requires i < |handlers| && i < |states|
  {
    var e := handlers[i];
    && e in states[i].calls && !e.saturatedBy(states[i].calls[e])
    && (Behind(g, e, x) || (x == e && e.retiresOnSaturation && e.saturatedBy(states[i].calls[e] + 1)))
  }

  ghost predicate RetiredBefore(g: Graph<ExpectationBase>, states: seq<Status>, handlers: seq<ExpectationBase>, j: nat,
                                x: ExpectationBase)
    requires j <= |handlers| && j <= |states|
  {
    exists i: nat :: i < j && RetiresAt(g, states, handlers, i, x)
  }

  /** Nothing else is ever retired. */
  lemma {:induction false} RetiredBecause(g: Graph<ExpectationBase>, states: seq<Status>,
                                          handlers: seq<ExpectationBase>,
                                          j: nat, x: ExpectationBase)
    requires Run(g, states, handlers) && j <= |handlers|
    ensures x in states[j].retired <==> x in states[0].retired || RetiredBefore(g, states, handlers, j, x)
    decreases j
  {
    if j > 0 {
      RetiredBecause(g, states, handlers, j - 1, x);
      RunStep(g, states, handlers, j - 1);
      RetiredByStep(g, states, handlers, j - 1, x);
      RetiredSnoc(g, states, handlers, j - 1, x);
      hide Run, Step, RetiresAt, RetiredBefore;
    }
  }

  lemma RetiredSnoc(g: Graph<ExpectationBase>, states: seq<Status>, handlers: seq<ExpectationBase>, n: nat,
                    x: ExpectationBase)
    requires n < |handlers| && n + 1 < |states|
    ensures RetiredBefore(g, states, handlers, n + 1, x) <==>
      RetiredBefore(g, states, handlers, n, x) || RetiresAt(g, states, handlers, n, x)
  {
    hide RetiresAt;
    var j := n + 1;
    if i: nat :| i < j && RetiresAt(g, states, handlers, i, x) {
      assert i < n ==> RetiredBefore(g, states, handlers, n, x);
    }
  }

  lemma RetiredByStep(g: Graph<ExpectationBase>, states: seq<Status>, handlers: seq<ExpectationBase>, n: nat,
                      x: ExpectationBase)
    requires n < |handlers| && n + 1 < |states| && Step(g, states[n], handlers[n], states[n + 1])
    ensures x in states[n + 1].retired <==> x in states[n].retired || RetiresAt(g, states, handlers, n, x)
  {
  }

  // ----- called and satisfied

  /** Between(m, n), with the bounds it falls back to when they are out of order. */
  datatype BetweenCardinality = BetweenCardinality(min: int, max: int) {
    function Min(): int { if min >= 0 then min else 0 }
    function Max(): int { if max >= Min() then max else Min() }
    predicate IsSatisfiedByCallCount(callCount: nat) { Min() <= callCount <= Max() }
    predicate IsSaturatedByCallCount(callCount: nat) { callCount >= Max() }
  }

  /** A call beyond saturation leaves the expectation unsatisfied. */
  ghost predicate Lawful(satisfiedBy: nat -> bool, saturatedBy: nat -> bool) {
    forall n: nat :: saturatedBy(n) ==> !satisfiedBy(n + 1)
  }

  /** Saturated means exactly that no higher count satisfies. */
  lemma BetweenLaw(c: BetweenCardinality, n: nat)
    ensures c.IsSaturatedByCallCount(n) <==> forall m: nat :: m > n ==> !c.IsSatisfiedByCallCount(m)
    ensures Lawful((k: nat) => c.IsSatisfiedByCallCount(k), (k: nat) => c.IsSaturatedByCallCount(k))
  {
    if !c.IsSaturatedByCallCount(n) {
      var m: nat := if n < c.Min() then c.Min() else n + 1;
      assert c.IsSatisfiedByCallCount(m);
    }
  }

  /** Between(m, n) with the bounds in order: satisfied from m to n calls, saturated from n
      calls on. A negative lower bound counts as 0, an upper bound below the lower one as
      the lower one. */
  lemma BetweenMeans(m: nat, n: nat, c: nat)
    requires m <= n
    ensures BetweenCardinality(m, n).IsSatisfiedByCallCount(c) <==> m <= c <= n
    ensures BetweenCardinality(m, n).IsSaturatedByCallCount(c) <==> c >= n
    ensures forall low: int :: low < 0 ==>
      (BetweenCardinality(low, n).IsSatisfiedByCallCount(c) <==> c <= n) &&
      (BetweenCardinality(low, n).IsSaturatedByCallCount(c) <==> c >= n)
    ensures forall high: int :: high < m ==>
      (BetweenCardinality(m, high).IsSatisfiedByCallCount(c) <==> c == m) &&
      (BetweenCardinality(m, high).IsSaturatedByCallCount(c) <==> c >= m)
  {
  }

  ghost predicate AllLawful(g: Graph<ExpectationBase>) {
    forall e :: e in g ==> Lawful(e.satisfiedBy, e.saturatedBy)
  }

  /** What every run keeps: behind an expectation that was called and is satisfied,
      everything is satisfied and retired; and retirement is closed. */
  ghost predicate CalledInv(g: Graph<ExpectationBase>, s: Status) {
    && IsStatus(g, s) && RetiredClosed(g, s.retired)
    && forall e :: e in g && s.calls[e] > 0 && e.satisfiedBy(s.calls[e]) ==> CalledBehind(g, s, e)
  }

  ghost predicate CalledBehind(g: Graph<ExpectationBase>, s: Status, e: ExpectationBase)
    requires IsStatus(g, s)
  {
    BehindAllIn(g, e, SatisfiedIn(g, s)) && BehindAllIn(g, e, s.retired)
  }

  /** A call handled by an active h leaves what is behind e, all retired, as it is. */
  lemma OthersKeep(g: Graph<ExpectationBase>, s: Status, h: ExpectationBase, e: ExpectationBase)
    requires IsStatus(g, s) && h in g && h !in s.retired && CalledBehind(g, s, e)
    ensures CalledBehind(g, After(g, s, h), e)
  {
    hide Behind, AllBehind;
  }

  /** A call that is not excessive retires what is behind its handler, all satisfied. */
  lemma HandlerKeeps(g: Graph<ExpectationBase>, s: Status, h: ExpectationBase)
    requires Acyclic(g) && IsStatus(g, s) && MayHandle(g, s, h) && !Excessive(s, h)
    ensures CalledBehind(g, After(g, s, h), h)
  {
    assert !Behind(g, h, h);
    hide Behind;
  }

  lemma RetiredKeeps(g: Graph<ExpectationBase>, s: Status, h: ExpectationBase)
    requires Closed(g) && IsStatus(g, s) && RetiredClosed(g, s.retired) && h in g
    ensures RetiredClosed(g, After(g, s, h).retired)
  {
    hide Behind;
    forall e, x | e in g && e in After(g, s, h).retired && x in g[e] ensures x in After(g, s, h).retired {
      if e !in s.retired {
        if e != h {
          NextBehind(g, h, e, x);
        } else {
          FirstBehind(g, h, x);
        }
      }
    }
  }

  lemma FirstBehind(g: Graph<ExpectationBase>, e: ExpectationBase, x: ExpectationBase)
    requires Closed(g) && e in g && x in g[e]
    ensures Behind(g, e, x)
  {
    BehindStep(g, g.Keys, e, x);
  }

  lemma NextBehind(g: Graph<ExpectationBase>, h: ExpectationBase, e: ExpectationBase, x: ExpectationBase)
    requires Closed(g) && e in g && Behind(g, h, e) && x in g[e]
    ensures Behind(g, h, x)
  {
    FirstBehind(g, e, x);
    BehindTransitive(g, h, e, x);
  }

  lemma StepKeepsCalled(g: Graph<ExpectationBase>, s: Status, h: ExpectationBase, s': Status)
    requires Closed(g) && Acyclic(g) && AllLawful(g) && CalledInv(g, s) && Step(g, s, h, s')
    ensures CalledInv(g, s')
  {
    RetiredKeeps(g, s, h);
    hide BehindAllIn, CalledBehind, RetiredClosed;
    forall e | e in g && s'.calls[e] > 0 && e.satisfiedBy(s'.calls[e]) ensures CalledBehind(g, s', e) {
      if e != h {
        OthersKeep(g, s, h, e);
      } else {
        assert !Excessive(s, h);
        HandlerKeeps(g, s, h);
      }
    }
  }

  lemma {:induction false} RunKeepsCalled(g: Graph<ExpectationBase>, states: seq<Status>,
                                          handlers: seq<ExpectationBase>, i: nat)
    requires Closed(g) && Acyclic(g) && AllLawful(g) && Run(g, states, handlers) && Unused(g, states[0]) && i < |states|
    ensures CalledInv(g, states[i])
    decreases i
  {
    hide Closed, Acyclic, AllLawful, Run, CalledInv, Unused;
    if i == 0 {
      UnusedInv(g, states[0]);
    } else {
      RunKeepsCalled(g, states, handlers, i - 1);
      NextKeepsCalled(g, states, handlers, i - 1);
    }
  }

  lemma NextKeepsCalled(g: Graph<ExpectationBase>, states: seq<Status>, handlers: seq<ExpectationBase>, i: nat)
    requires Closed(g) && Acyclic(g) && AllLawful(g) && Run(g, states, handlers) && i + 1 < |states| &&
      CalledInv(g, states[i])
    ensures CalledInv(g, states[i + 1])
  {
    RunStep(g, states, handlers, i);
    hide *;
    StepKeepsCalled(g, states[i], handlers[i], states[i + 1]);
  }

  lemma UnusedInv(g: Graph<ExpectationBase>, s: Status)
    requires Unused(g, s)
    ensures CalledInv(g, s)
  {
  }

  /** After any run of calls there is something to report for e exactly when e has
      unsatisfied prerequisites, immediate or not. */
  lemma ReportsAfterRun(g: Graph<ExpectationBase>, states: seq<Status>, handlers: seq<ExpectationBase>, i: nat,
                        e: ExpectationBase)
    requires Closed(g) && Acyclic(g) && AllLawful(g) && Run(g, states, handlers) && Unused(g, states[0]) && i < |states|
    requires IsStatus(g, states[i])
    ensures (exists x :: x in g && Reported(g, UncalledIn(g, states[i]), SatisfiedIn(g, states[i]), e, x)) <==>
      !BehindAllIn(g, e, SatisfiedIn(g, states[i]))
  {
    RunKeepsCalled(g, states, handlers, i);
    ReportsWhenUnsatisfied(g, SatisfiedIn(g, states[i]), UncalledIn(g, states[i]), e);
  }

  /** ShouldHandleArguments; whether the arguments match is given. */
  method ShouldHandleArguments(self: ExpectationBase, matches: bool, ghost g: Graph<ExpectationBase>)
    returns (should: bool)
    requires IsGraph(g) && Acyclic(g) && self in g
    ensures should <==> MayHandle(g, Now(g), self) && matches
    ensures should <==> !self.retired && matches && forall x :: Behind(g, self, x) ==> x.satisfiedBy(x.callCount)
  {
    NowSatisfied(g);
    if self.retired {
      return false;
    }
    var all := AllPrerequisitesAreSatisfied(self, g);
    return all && matches;
  }

  /** None of the expectations from position k on should handle the call. */
  ghost predicate NoneFrom(g: Graph<ExpectationBase>, s: Status, expectations: seq<ExpectationBase>,
                           matches: ExpectationBase -> bool, k: nat)
    requires IsStatus(g, s)
  {
    forall i :: k <= i < |expectations| ==> !(MayHandle(g, s, expectations[i]) && matches(expectations[i]))
  }

  /** exp is the last of the expectations that should handle the call. */
  ghost predicate LastToHandle(g: Graph<ExpectationBase>, s: Status, expectations: seq<ExpectationBase>,
                               matches: ExpectationBase -> bool,
                               exp: ExpectationBase)
    requires IsStatus(g, s)
  {
    && MayHandle(g, s, exp) && matches(exp)
    && exists k :: 0 <= k < |expectations| && expectations[k] == exp && NoneFrom(g, s, expectations, matches, k + 1)
  }

  /** e is active and matches, and everything behind it is satisfied. */
  ghost predicate Ready(g: Graph<ExpectationBase>, s: Status, matches: ExpectationBase -> bool, e: ExpectationBase) {
    e !in s.retired && matches(e) && forall x :: Behind(g, e, x) ==> x in s.calls && x.satisfiedBy(s.calls[x])
  }

  /** Whoever handles a call is ready for it, and no expectation declared later is. */
  lemma LastToHandleMeans(g: Graph<ExpectationBase>, s: Status, expectations: seq<ExpectationBase>,
                          matches: ExpectationBase -> bool, exp: ExpectationBase)
    requires IsStatus(g, s) && AllNodes(g, expectations)
    ensures LastToHandle(g, s, expectations, matches, exp) <==>
      exists k :: 0 <= k < |expectations| && expectations[k] == exp && Ready(g, s, matches, exp) &&
                  forall i :: k < i < |expectations| ==> !Ready(g, s, matches, expectations[i])
    ensures NoneFrom(g, s, expectations, matches, 0) <==>
      forall i :: 0 <= i < |expectations| ==> !Ready(g, s, matches, expectations[i])
  {
    forall e | e in g ensures MayHandle(g, s, e) && matches(e) <==> Ready(g, s, matches, e) {
      if MayHandle(g, s, e) {
        assert forall x :: Behind(g, e, x) ==> x in SatisfiedIn(g, s);
      }
      assert forall x :: Behind(g, e, x) ==> x in g;
    }
    hide MayHandle, Ready;
    if k :| 0 <= k < |expectations| && expectations[k] == exp && NoneFrom(g, s, expectations, matches, k + 1) {
      assert forall i :: k < i < |expectations| ==> !Ready(g, s, matches, expectations[i]);
    }
  }

  /** FindMatchingExpectationLocked: the last one declared that should handle the call. */
  method FindMatchingExpectation(expectations: seq<ExpectationBase>, matches: ExpectationBase -> bool,
                                 ghost g: Graph<ExpectationBase>)
    returns (exp: ExpectationBase?)
    requires IsGraph(g) && Acyclic(g) && AllNodes(g, expectations)
    ensures exp == null ==> NoneFrom(g, Now(g), expectations, matches, 0)
    ensures exp != null ==> LastToHandle(g, Now(g), expectations, matches, exp)
    ensures exp != null ==> !exp.retired && matches(exp) && forall x :: Behind(g, exp, x) ==> x.satisfiedBy(x.callCount)
  {
    hide MayHandle, Acyclic;
    for i := |expectations| downto 0
      invariant NoneFrom(g, Now(g), expectations, matches, i)
    {
      var should := ShouldHandleArguments(expectations[i], matches(expectations[i]), g);
      if should {
        return expectations[i];
      }
    }
    return null;
  }

  /** UntypedFindMatchingExpectation, under the lock: whoever handles the call takes one
      step of a run, and if nobody does nothing changes. */
  method HandleCall(expectations: seq<ExpectationBase>, matches: ExpectationBase -> bool,
                    ghost g: Graph<ExpectationBase>)
    returns (exp: ExpectationBase?, isExcessive: bool)
    requires IsGraph(g) && Acyclic(g) && AllNodes(g, expectations) && RetiredClosed(g, Retired(g))
    modifies g.Keys`callCount, g.Keys`retired
    ensures IsGraph(g) && RetiredClosed(g, Retired(g))
    ensures exp == null ==> Now(g) == old(Now(g)) && NoneFrom(g, Now(g), expectations, matches, 0)
    ensures exp != null ==>
      && Step(g, old(Now(g)), exp, Now(g)) && LastToHandle(g, old(Now(g)), expectations, matches, exp)
      && isExcessive == Excessive(old(Now(g)), exp)
    ensures exp != null ==>
      isExcessive == exp.saturatedBy(old(exp.callCount)) && exp.callCount == old(exp.callCount) + 1
  {
    hide NoneFrom, MayHandle, Acyclic, RetiredClosed, AllBehind;
    isExcessive := false;
    exp := FindMatchingExpectation(expectations, matches, g);
    if exp != null {
      isExcessive := exp.IsSaturated();
      var _ := GetActionForArguments(exp, g);
    }
  }

  /** The state changes of GetActionForArguments: an excessive call is only counted. Any
      other retires all prerequisites, and the expectation itself if it is now saturated and
      asks for that. */
  method GetActionForArguments(self: ExpectationBase, ghost g: Graph<ExpectationBase>) returns (excessive: bool)
    requires IsGraph(g) && self in g && RetiredClosed(g, Retired(g))
    modifies self`callCount, g.Keys`retired
    ensures IsGraph(g) && RetiredClosed(g, Retired(g))
    ensures Now(g) == After(g, old(Now(g)), self)
    ensures excessive == Excessive(old(Now(g)), self)
    ensures excessive == self.saturatedBy(old(self.callCount)) && self.callCount == old(self.callCount) + 1
    ensures forall x :: x in g && x != self ==> x.callCount == old(x.callCount)
    ensures forall x :: x in g ==>
      (x.retired <==>
        || old(x.retired)
        || (!excessive && Behind(g, self, x))
        || (!excessive && x == self && self.retiresOnSaturation && self.saturatedBy(self.callCount)))
  {
    hide Now, Retired, Behind, AllBehind, RetiredClosed, After, Excessive;
    ghost var before := Now(g);
    NowAll(g);
    excessive := TakeCall(self, g);
    NowAll(g);
    AfterMeans(g, before, self);
  }

  /** The same in terms of the status. */
  method TakeCall(self: ExpectationBase, ghost g: Graph<ExpectationBase>) returns (excessive: bool)
    requires IsGraph(g) && self in g && RetiredClosed(g, Retired(g))
    modifies self`callCount, g.Keys`retired
    ensures IsGraph(g) && RetiredClosed(g, Retired(g))
    ensures Now(g) == After(g, old(Now(g)), self)
    ensures excessive == Excessive(old(Now(g)), self)
  {
    hide Now, Retired, Behind, AllBehind, RetiredClosed;
    ghost var before := Now(g);
    NowAt(g, self);
    RetiredKeeps(g, before, self);
    excessive := self.IsSaturated();
    IncrementCallCount(self, g);
    if excessive {
      return;
    }
    RetireAllPreRequisites(self, g);
    NowAt(g, self);
    if self.retiresOnSaturation && self.IsSaturated() {
      Retire(self, g);
    }
  }

  lemma NowAt(g: Graph<ExpectationBase>, e: ExpectationBase)
    requires e in g
    ensures Now(g).calls[e] == e.callCount && (e in Now(g).retired <==> e.retired)
  {
  }

  lemma NowAll(g: Graph<ExpectationBase>)
    ensures forall x :: x in g ==> Now(g).calls[x] == x.callCount && (x in Now(g).retired <==> x.retired)
  {
  }

  /** A call is counted for its handler only. Unless it is excessive, it retires what lies
      behind the handler, and the handler if it is now saturated and asks for that. */
  lemma AfterMeans(g: Graph<ExpectationBase>, s: Status, e: ExpectationBase)
    requires IsStatus(g, s) && e in g
    ensures Excessive(s, e) <==> e.saturatedBy(s.calls[e])
    ensures forall x :: x in g ==> After(g, s, e).calls[x] == s.calls[x] + (if x == e then 1 else 0)
    ensures forall x :: x in g ==>
      (x in After(g, s, e).retired <==>
        || x in s.retired
        || (!e.saturatedBy(s.calls[e]) && Behind(g, e, x))
        || (!e.saturatedBy(s.calls[e]) && x == e && e.retiresOnSaturation && e.saturatedBy(s.calls[e] + 1)))
  {
    hide Behind;
  }

  // ----- sequences

  class Sequence {
    var lastExpectation: ExpectationBase?

    constructor ()
      ensures lastExpectation == null
    {
      lastExpectation := null;
    }

    /** AddExpectation: the expectation added before becomes a prerequisite. The
        graph stays acyclic exactly when that one does not already wait for e;
        everything added earlier lies behind what is added later. */
    method AddExpectation(e: ExpectationBase, ghost g: Graph<ExpectationBase>)
      returns (ghost g': Graph<ExpectationBase>)
      requires IsGraph(g) && Acyclic(g) && e in g && (lastExpectation != null ==> lastExpectation in g)
      modifies this, e`immediatePrerequisites
      ensures IsGraph(g') && g'.Keys == g.Keys && lastExpectation == e
      ensures forall x :: x in g && x != e ==> g'[x] == g[x]
      ensures if old(lastExpectation) == null || old(lastExpectation) == e then g' == g
        else
          var last: ExpectationBase := old(lastExpectation);
          && (forall x :: x in g'[e] <==> x in g[e] || x == last)
          && (Acyclic(g') <==> !Behind(g, last, e))
          && Behind(g', e, last) && forall x :: Behind(g, last, x) ==> Behind(g', e, x)
    {
      hide BehindVia;
      g' := g;
      if lastExpectation != e {
        if lastExpectation != null {
          var last: ExpectationBase := lastExpectation;
          if last !in e.immediatePrerequisites {
            e.immediatePrerequisites := e.immediatePrerequisites + [last];
            g' := g[e := g[e] + [last]];
          }
          LinkLast(g, g', e, last);
        }
        lastExpectation := e;
      }
    }

    static lemma LinkLast(g: Graph<ExpectationBase>, g': Graph<ExpectationBase>, e: ExpectationBase,
                          last: ExpectationBase)
      requires Closed(g) && Acyclic(g) && e in g && last in g && last != e
      requires g' == if last in g[e] then g else g[e := g[e] + [last]]
      ensures Closed(g') && (Acyclic(g') <==> !Behind(g, last, e))
      ensures Behind(g', e, last) && forall x :: Behind(g, last, x) ==> Behind(g', e, x)
    {
      hide BehindVia;
      if last in g[e] {
        BehindStep(g, g.Keys, e, last);
        if Behind(g, last, e) {
          BehindTransitive(g, e, last, e);
        }
      } else {
        AddEdge(g, g', e, last);
        assert g'[e][|g[e]|] == last;
        BehindStep(g', g'.Keys, e, last);
      }
      forall x | Behind(g, last, x) ensures Behind(g', e, x) {
        assert Behind(g', last, x);
        BehindTransitive(g', e, last, x);
      }
    }
  }
}
