/** The whole pass of EHGraphPrinter.cpp: both caller indexes are built, then one graph
    for every call of a function that may throw. */
module ExceptionPasses {
  import opened ProgramModels
  import opened CallerIndexes
  import opened ExceptionPropagation

  /** What the two indexes leave behind for a module. */
  ghost predicate Indexed(p: Setting) {
    && WellMangled(p.m)
    && (forall b :: At(p.derived, b) == Subclasses(p.m, b, |p.m.globals|, 0))
    && (forall f :: At(p.callSitesMap, f) == SitesNaming(p.m, f, |p.m.instructions|))
    && (forall f :: At(p.callerMap, f) == VirtualCallers(p.m, f, |p.m.instructions|))
    && (forall f :: f in p.callSitesMap ==> p.callSitesMap[f] != {})
    && (forall f :: f in p.callerMap ==> p.callerMap[f] != {})
  }

  /** Only instructions of the module are listed, so the propagation may use the indexes. */
  lemma IndexedIsValid(p: Setting)
    requires p.m.Valid() && p.exception.throwSite in p.m.sites && Indexed(p)
    ensures p.Valid()
  {
    forall f | f in p.callSitesMap ensures p.callSitesMap[f] <= p.m.sites {
      forall site | site in At(p.callSitesMap, f) ensures site in p.m.sites {
        SitesNamingMembers(p.m, f, |p.m.instructions|, site);
      }
    }
    forall f | f in p.callerMap ensures p.callerMap[f] <= p.m.sites {
      forall site | site in At(p.callerMap, f) ensures site in p.m.sites {
        VirtualCallersMembers(p.m, f, |p.m.instructions|, site);
      }
    }
  }

  /** What is asked of the module beyond its indexes: the functions that may throw, in
      order, those that initialise globals, and which type info a call throws. */
  datatype Tracking = Tracking(
    functions: seq<FunctionId>,
    isGlobalInit: FunctionId -> bool,
    exceptionOf: CallSite -> Option<GlobalId>)

  /** One graph: where the exception is thrown, the graph, and whether it leaks. */
  datatype Report = Report(throwSite: CallSite, childs: map<FunctionId, set<FunctionId>>, leaked: bool)

  /** The calls among the first k users of a function. */
  ghost function ThrowingUsers(m: Module, t: Tracking, f: FunctionId, k: nat): seq<CallSite>
    requires k <= |m.users(f)|
  {
    if k == 0 then []
    else
      var user := m.users(f)[k - 1];
      ThrowingUsers(m, t, f, k - 1) +
      (if user.Call? && !t.isGlobalInit(m.enclosing(user.site)) then [user.site] else [])
  }

  /** The calls of the first n functions that may throw: one graph each. */
  ghost function ThrowSites(m: Module, t: Tracking, n: nat): seq<CallSite>
    requires n <= |t.functions|
  {
    if n == 0 then []
    else
      var f := t.functions[n - 1];
      ThrowSites(m, t, n - 1) + ThrowingUsers(m, t, f, |m.users(f)|)
  }

  /** The setting of the graph for one throwing call. */
  ghost function ThrownAt(p: Setting, t: Tracking, site: CallSite): Setting {
    p.(exception := CurrentException(site, t.exceptionOf(site)))
  }

  /** One exact graph for each of these calls, in order. */
  ghost predicate ReportsOn(reports: seq<Report>, p: Setting, t: Tracking, sites: seq<CallSite>) {
    && |reports| == |sites|
    && forall k :: 0 <= k < |sites| ==> ReportOn(reports[k], p, t, sites[k])
  }

  ghost predicate ReportOn(r: Report, p: Setting, t: Tracking, site: CallSite) {
    r.throwSite == site && IsGraphOf(ThrownAt(p, t, site), r.childs, r.leaked)
  }

  /** Settings that the same module indexes have the same graph. */
  lemma IndexedAgree(p: Setting, q: Setting, childs: map<FunctionId, set<FunctionId>>, leaked: bool)
    requires Indexed(p) && Indexed(q) && p.m == q.m && p.exception == q.exception && p.leakNode == q.leakNode
    requires IsGraphOf(p, childs, leaked)
    ensures IsGraphOf(q, childs, leaked)
  {
    hide WellMangled, Subclasses, SitesNaming, VirtualCallers;
    SameCallers(p, q);
    SameCatches(p, q);
    hide Indexed, Setting.IsCaller, Setting.Caught, Setting.Reaches;
    WeakerPassesLess(p, q);
    WeakerPassesLess(q, p);
    hide Setting.IsChild;
    assert forall f :: p.Passes(f) <==> q.Passes(f);
  }

  lemma SameCallers(p: Setting, q: Setting)
    requires Indexed(p) && Indexed(q) && p.m == q.m
    ensures forall f, s :: p.IsCaller(f, s) <==> q.IsCaller(f, s)
  {
    hide WellMangled, Subclasses, SitesNaming, VirtualCallers;
    forall f, s ensures p.IsCaller(f, s) <==> q.IsCaller(f, s) {
      assert At(p.callSitesMap, f) == At(q.callSitesMap, f) && At(p.callerMap, f) == At(q.callerMap, f);
      assert f in p.callSitesMap <==> f in q.callSitesMap;
    }
  }

  lemma SameCatches(p: Setting, q: Setting)
    requires Indexed(p) && Indexed(q) && p.m == q.m && p.exception == q.exception
    ensures forall s :: p.Caught(s) <==> q.Caught(s)
  {
    hide WellMangled, Subclasses, SitesNaming, VirtualCallers;
    forall clause ensures p.Catches(clause) <==> q.Catches(clause) {
      if clause.CatchType? {
        assert At(p.derived, Some(clause.typeInfo)) == At(q.derived, Some(clause.typeInfo));
      }
    }
  }

  lemma ReportsAgree(reports: seq<Report>, p: Setting, q: Setting, t: Tracking, sites: seq<CallSite>)
    requires Indexed(p) && Indexed(q) && p.m == q.m && p.leakNode == q.leakNode && ReportsOn(reports, p, t, sites)
    ensures ReportsOn(reports, q, t, sites)
  {
    forall k | 0 <= k < |sites| ensures ReportOn(reports[k], q, t, sites[k]) {
      assert ReportOn(reports[k], p, t, sites[k]);
      IndexedThrownAt(p, t, sites[k]);
      IndexedThrownAt(q, t, sites[k]);
      IndexedAgree(ThrownAt(p, t, sites[k]), ThrownAt(q, t, sites[k]), reports[k].childs, reports[k].leaked);
    }
  }

  /** run: analyses the module and reports on every call that may throw. What is reported
      depends on nothing but what the indexes of the module list. */
  method Run(m: Module, t: Tracking, leakNode: FunctionId) returns (reports: seq<Report>, ghost p: Setting)
    requires m.Valid() && WellMangled(m)
    ensures p.m == m && p.leakNode == leakNode && Indexed(p)
    ensures forall q: Setting :: q.m == m && q.leakNode == leakNode && Indexed(q) ==>
      ReportsOn(reports, q, t, ThrowSites(m, t, |t.functions|))
  {
    hide ReportsOn, ThrowSites, Subclasses, SitesNaming, VirtualCallers, Points, WellMangled, Setting.Valid;
    var analyzer := new VCallCandidatesAnalyzer();
    analyzer.Analyze(m);
    var solver := new ICallSolver();
    solver.Solve(m);
    p := Setting(m, analyzer.subclassesMap, solver.callSitesMap, analyzer.callerMap,
                 CurrentException(0, None), leakNode);
    reports := PrintGraphs(m, t, leakNode, analyzer, solver, p);
    AllAgree(reports, p, t);
  }

  lemma AllAgree(reports: seq<Report>, p: Setting, t: Tracking)
    requires Indexed(p) && ReportsOn(reports, p, t, ThrowSites(p.m, t, |t.functions|))
    ensures forall q: Setting :: q.m == p.m && q.leakNode == p.leakNode && Indexed(q) ==>
      ReportsOn(reports, q, t, ThrowSites(q.m, t, |t.functions|))
  {
    hide Indexed, ReportsOn, ThrowSites;
    forall q: Setting | q.m == p.m && q.leakNode == p.leakNode && Indexed(q)
      ensures ReportsOn(reports, q, t, ThrowSites(q.m, t, |t.functions|))
    {
      ReportsAgree(reports, p, q, t, ThrowSites(p.m, t, |t.functions|));
    }
  }

  /** doEHGraphDOTPrinting: the loop over the functions. */
  method PrintGraphs(m: Module, t: Tracking, leakNode: FunctionId, analyzer: VCallCandidatesAnalyzer,
                     solver: ICallSolver,
                     ghost p: Setting) returns (reports: seq<Report>)
    requires m.Valid() && Indexed(p)
    requires p == Setting(m, analyzer.subclassesMap, solver.callSitesMap, analyzer.callerMap, p.exception, leakNode)
    ensures ReportsOn(reports, p, t, ThrowSites(m, t, |t.functions|))
  {
    hide Indexed, ReportOn, ThrowingUsers;
    reports := [];
    var childsMap := new ChildsMapCell();
    for n := 0 to |t.functions|
      invariant ReportsOn(reports, p, t, ThrowSites(m, t, n))
    {
      var more := PrintGraphsOf(m, t, t.functions[n], leakNode, childsMap, analyzer, solver, p);
      reports := reports + more;
    }
  }

  /** The loop over the users of one function. */
  method PrintGraphsOf(m: Module, t: Tracking, f: FunctionId, leakNode: FunctionId, childsMap: ChildsMapCell,
                       analyzer: VCallCandidatesAnalyzer, solver: ICallSolver,
                         ghost p: Setting) returns (reports: seq<Report>)
    requires m.Valid() && Indexed(p)
    requires p == Setting(m, analyzer.subclassesMap, solver.callSitesMap, analyzer.callerMap, p.exception, leakNode)
    modifies childsMap
    ensures ReportsOn(reports, p, t, ThrowingUsers(m, t, f, |m.users(f)|))
  {
    hide Indexed, IsGraphOf, Setting.Valid;
    reports := [];
    var users := m.users(f);
    for k := 0 to |users|
      invariant ReportsOn(reports, p, t, ThrowingUsers(m, t, f, k))
    {
      if users[k].Call? && !t.isGlobalInit(m.enclosing(users[k].site)) {
        var site := users[k].site;
        IndexedThrownAt(p, t, site);
        IndexedIsValid(ThrownAt(p, t, site));
        var info :=
          new EHGraphDOTInfo(m, CurrentException(site, t.exceptionOf(site)), leakNode, childsMap, analyzer, solver);
        reports := reports + [Report(site, childsMap.childs, info.leaked)];
      }
    }
  }

  lemma IndexedThrownAt(p: Setting, t: Tracking, site: CallSite)
    requires Indexed(p)
    ensures Indexed(ThrownAt(p, t, site))
  {
  }

  // ----- metadata that hides a leak

  /** A class A whose only virtual function is 1, in the slot at offset 8 behind the address
      point at 16. Function 1 throws at call site 1; main, 0, calls it virtually at site 2.
      The metadata of call site 3, in function 5, names the given callees. */
  function Program(callees: seq<Option<FunctionId>>): Module {
    Module([Global(10, false, "_ZTV1A", [TypeEntry(16, Some("_ZTS1A"))])],
           [CallInstruction(1, []), CallInstruction(2, []), CallInstruction(3, callees)],
           {1, 2, 3}, _ => None, s => if s == 1 then 1 else if s == 2 then 0 else 5, _ => NotInvoke,
           s => if s == 2 then Loaded("_ZTS1A", 8) else NotALoad, _ => [], f => f == 0, _ => false, _ => false,
           (g, offset) => if g == 10 && offset == 24 then Some(1) else None)
  }

  lemma ProgramIsFine(callees: seq<Option<FunctionId>>)
    ensures Program(callees).Valid() && WellMangled(Program(callees)) && IsVTable(Program(callees).globals[0])
    ensures Counts(Program(callees).globals[0].types[0])
  {
    var name, id := "_ZTV1A", "_ZTS1A";
    assert name[..4] == "_ZTV" && id[..4] == "_ZTS" && |id| < |".virtual"|;
  }

  /** Main is the only caller of 1 the vtables know. */
  lemma MainCallsVirtually(callees: seq<Option<FunctionId>>)
    ensures VirtualCallers(Program(callees), 1, 3) == {2}
    ensures VirtualCallers(Program(callees), 5, 3) == {}
  {
    var m := Program(callees);
    ProgramIsFine(callees);
    assert Compatible(m, 0, 0, "_ZTS1A");
    forall p ensures p in Points(m, "_ZTS1A", 1, 0) <==> p == (10, 16) {
      PointsMembers(m, "_ZTS1A", 1, 0, p);
    }
    assert Resolves(m, 8, (10, 16), 1);
    assert IsCandidate(m, 2, 1) && m.instructions[1].CallInstruction? && m.instructions[1].site == 2;
    assert forall site, f :: IsCandidate(m, site, f) ==> site == 2 && f == 1;
    hide IsCandidate, VirtualCallers;
    forall site ensures site in VirtualCallers(m, 1, 3) <==> site == 2 {
      VirtualCallersMembers(m, 1, 3, site);
    }
    forall site ensures site !in VirtualCallers(m, 5, 3) {
      VirtualCallersMembers(m, 5, 3, site);
    }
  }

  /** Two programs that differ in the callees of one instruction only: without metadata
      the exception leaks out of main, with it the same leak is not found. */
  lemma HiddenLeak(p: Setting, q: Setting)
    requires p.m == Program([]) && q.m == Program([Some(1)]) && Indexed(p) && Indexed(q)
    requires p.exception == q.exception == CurrentException(1, None)
    ensures p.Leaks() && !q.Leaks()
  {
    KnownCallers(p, []);
    KnownCallers(q, [Some(1)]);
    hide Indexed;
    LeaksThroughMain(p);
    StopsAtSite3(q);
  }

  lemma KnownCallers(p: Setting, callees: seq<Option<FunctionId>>)
    requires p.m == Program(callees) && callees in {[], [Some(1)]} && Indexed(p)
    ensures forall site :: p.IsCaller(1, site) <==> site == if callees == [] then 2 else 3
    ensures forall site :: !p.IsCaller(5, site)
  {
    MainCallsVirtually(callees);
    MetadataNames(callees);
    ListedInIndexes(p, 1);
    ListedInIndexes(p, 5);
    hide Indexed, VirtualCallers, SitesNaming, At;
  }

  /** Without direct users, the callers of f are those its metadata names, or else its
      virtual callers. */
  lemma ListedInIndexes(p: Setting, f: FunctionId)
    requires Indexed(p) && p.m.users(f) == []
    ensures var named := SitesNaming(p.m, f, |p.m.instructions|);
      forall site :: p.IsCaller(f, site) <==>
        site in if named != {} then named else VirtualCallers(p.m, f, |p.m.instructions|)
  {
    hide WellMangled, Subclasses, SitesNaming, VirtualCallers;
    assert At(p.callSitesMap, f) == SitesNaming(p.m, f, |p.m.instructions|);
    assert At(p.callerMap, f) == VirtualCallers(p.m, f, |p.m.instructions|);
  }

  lemma MetadataNames(callees: seq<Option<FunctionId>>)
    requires callees in {[], [Some(1)]}
    ensures SitesNaming(Program(callees), 1, 3) == if callees == [] then {} else {3}
    ensures SitesNaming(Program(callees), 5, 3) == {}
  {
    var m := Program(callees);
    assert SitesNaming(m, 1, 1) == SitesNaming(m, 5, 1) == {};
    assert SitesNaming(m, 1, 2) == SitesNaming(m, 5, 2) == {};
  }

  lemma LeaksThroughMain(p: Setting)
    requires p.m == Program([]) && p.exception == CurrentException(1, None) && p.IsCaller(1, 2)
    ensures p.Leaks()
  {
    p.ReachesStart();
    assert p.Unwinds(1, 2);
    p.ReachesNext(1, 2);
  }

  lemma StopsAtSite3(q: Setting)
    requires q.m == Program([Some(1)]) && q.exception == CurrentException(1, None)
    requires (forall site :: q.IsCaller(1, site) ==> site == 3) && forall site :: !q.IsCaller(5, site)
    ensures !q.Leaks()
  {
    forall s | q.Reaches(s) ensures s in {1, 3} {
      var path :| q.Chain(path) && path[|path| - 1] == s;
      q.ReachesLeast({1, 3}, path);
    }
  }
}
