/** The exception propagation graph of EHGraphPrinter.cpp: which call sites an
    exception can unwind through, whether it leaks out of main, and the graph. */
module ExceptionPropagation {
  import opened ProgramModels
  import opened CallerIndexes

  /** The exception under study: thrown with a type info, or raised outside. */
  datatype CurrentException = CurrentException(throwSite: CallSite, exceptionValue: Option<GlobalId>) {
    predicate ExternalException() { exceptionValue.None? }
  }

  /** Everything a propagation depends on: the module, the class hierarchy, and
      the two caller indexes. */
  datatype Setting = Setting(
    m: Module,
    derived: map<Option<GlobalId>, set<Option<GlobalId>>>,
    callSitesMap: map<FunctionId, set<CallSite>>,
    callerMap: map<FunctionId, set<CallSite>>,
    exception: CurrentException,
    leakNode: FunctionId)
  {
    /** The module's sites are closed under both caller indexes. */
    ghost predicate Valid() {
      && m.Valid() && exception.throwSite in m.sites
      && (forall f :: f in callSitesMap ==> callSitesMap[f] <= m.sites)
      && (forall f :: f in callerMap ==> callerMap[f] <= m.sites)
    }

    /** The clause catches the exception. */
    predicate Catches(clause: Clause) {
      match clause
      case CatchAll => true
      case CatchType(typeInfo, externalGlobal) =>
        if exception.ExternalException() then externalGlobal
        else Some(typeInfo) == exception.exceptionValue ||
             (Some(typeInfo) in derived && exception.exceptionValue in derived[Some(typeInfo)])
    }

    /** Some clause of the landing pad of the site catches the exception. */
    ghost predicate Caught(site: CallSite) {
      && m.unwind(site).LandingPad?
      && exists i :: 0 <= i < |m.unwind(site).clauses| && Catches(m.unwind(site).clauses[i])
    }

    /** The call sites of f the analysis knows: direct users, and those of one of
        the two indexes, callees metadata taking precedence. */
    ghost predicate IsCaller(f: FunctionId, site: CallSite) {
      || Call(site) in m.users(f)
      || (if f in callSitesMap then site in callSitesMap[f] else site in At(callerMap, f))
    }

    /** The exception unwinds from `site` on into the frame of `next`. */
    ghost predicate Unwinds(site: CallSite, next: CallSite) {
      && !m.isMain(m.enclosing(site))
      && IsCaller(m.enclosing(site), next)
      && !Caught(next)
    }

    /** Call sites the exception can pass, from the throw site up. The throw site
        itself is not asked whether it catches. */
    ghost predicate Chain(path: seq<CallSite>) {
      && path != [] && path[0] == exception.throwSite
      && forall i :: 0 <= i < |path| - 1 ==> Unwinds(path[i], path[i + 1])
    }

    ghost predicate Reaches(site: CallSite) {
      exists path :: Chain(path) && path[|path| - 1] == site
    }

    /** Some chain ends in main. */
    ghost predicate Leaks() {
      exists site :: Reaches(site) && m.isMain(m.enclosing(site))
    }

    /** f holds a call site the exception passes. */
    ghost predicate Passes(f: FunctionId) {
      exists site :: Reaches(site) && m.enclosing(site) == f
    }

    /** g is drawn as a child of f. */
    ghost predicate IsChild(f: FunctionId, g: FunctionId) {
      && Passes(f)
      && if m.isMain(f) then g == leakNode else exists site :: IsCaller(f, site) && m.enclosing(site) == g
    }

    lemma ReachesStart()
      ensures Reaches(exception.throwSite)
    {
      assert Chain([exception.throwSite]);
    }

    lemma ReachesNext(site: CallSite, next: CallSite)
      requires Reaches(site) && Unwinds(site, next)
      ensures Reaches(next)
    {
      var path :| Chain(path) && path[|path| - 1] == site;
      assert Chain(path + [next]);
    }

    /** Closed under unwinding: every set with the throw site and closed contains
        everything reached, so the reached sites are the least such set. */
    lemma {:induction false} ReachesLeast(s: set<CallSite>, path: seq<CallSite>)
      requires exception.throwSite in s
      requires forall a, b :: a in s && Unwinds(a, b) ==> b in s
      requires Chain(path)
      ensures path[|path| - 1] in s
      decreases |path|
    {
      if |path| > 1 {
        ReachesLeast(s, path[..|path| - 1]);
        assert Unwinds(path[|path| - 2], path[|path| - 1]);
      }
    }
  }

  /** The class-level map the graph printer reads; every construction clears it. */
  class ChildsMapCell {
    var childs: map<FunctionId, set<FunctionId>>

    constructor () { childs := map[]; }
  }

  /** What the worklist has established at any time, whatever order it visits in. */
  ghost predicate Progress(p: Setting, visited: set<CallSite>, toVisit: seq<CallSite>) {
    && visited <= p.m.sites
    && (forall s :: s in toVisit ==> s in p.m.sites && p.Reaches(s))
    && (forall s :: s in visited ==> p.Reaches(s))
    && (p.exception.throwSite in visited || p.exception.throwSite in toVisit)
    && (forall a, b :: a in visited && p.Unwinds(a, b) ==> b in visited || b in toVisit)
  }

  /** An exhausted worklist has visited exactly the reached sites. */
  lemma ProgressDone(p: Setting, visited: set<CallSite>)
    requires Progress(p, visited, [])
    ensures forall s :: s in visited <==> p.Reaches(s)
  {
    forall s | p.Reaches(s) ensures s in visited {
      var path :| p.Chain(path) && path[|path| - 1] == s;
      p.ReachesLeast(visited, path);
    }
  }

  /** g contains a call site of f. */
  ghost predicate Calls(p: Setting, g: FunctionId, f: FunctionId) {
    exists site :: p.IsCaller(f, site) && p.m.enclosing(site) == g
  }

  /** The graph drawn for the visited sites: their functions are the keys, and each
      key already has all its children. */
  ghost predicate Drawn(p: Setting, visited: set<CallSite>, childs: map<FunctionId, set<FunctionId>>,
                        leafs: seq<FunctionId>, leaked: bool) {
    && (forall s :: s in visited ==> p.m.enclosing(s) in childs)
    && (forall f :: f in childs ==> exists s :: s in visited && p.m.enclosing(s) == f)
    && (forall f, g :: f in childs ==> (g in childs[f] <==> if p.m.isMain(f) then g == p.leakNode else Calls(p, g, f)))
    && (forall g :: g in leafs <==> exists f :: f in childs && g in childs[f])
    && (leaked <==> exists s :: s in visited && p.m.isMain(p.m.enclosing(s)))
  }

  class EHGraphDOTInfo {
    const m: Module
    const exception: CurrentException
    const leakNode: FunctionId
    const childsMap: ChildsMapCell
    var leaked: bool

    /** Builds the graph right away; whatever the shared map held is discarded. */
    constructor (m: Module, exception: CurrentException, leakNode: FunctionId, childsMap: ChildsMapCell,
                 analyzer: VCallCandidatesAnalyzer, solver: ICallSolver)
      requires Setting(m, analyzer.subclassesMap, solver.callSitesMap, analyzer.callerMap, exception, leakNode).Valid()
      modifies childsMap
      ensures this.childsMap == childsMap
      ensures var p := Setting(m, analyzer.subclassesMap, solver.callSitesMap, analyzer.callerMap, exception, leakNode);
        IsGraphOf(p, childsMap.childs, leaked)
    {
      this.m, this.exception, this.leakNode, this.childsMap := m, exception, leakNode, childsMap;
      leaked := false;
      new;
      BuildChildsMap(analyzer, solver);
    }

    /** What this object's propagation depends on. */
    ghost function TheSetting(analyzer: VCallCandidatesAnalyzer, solver: ICallSolver): Setting
      reads analyzer, solver
    {
      Setting(m, analyzer.subclassesMap, solver.callSitesMap, analyzer.callerMap, exception, leakNode)
    }

    /** canBeCaught: scans the clauses of the landing pad. */
    method CanBeCaught(site: CallSite, analyzer: VCallCandidatesAnalyzer, ghost p: Setting) returns (caught: bool)
      requires p.m == m && p.exception == exception && p.derived == analyzer.subclassesMap
      ensures caught <==> p.Caught(site)
    {
      if !m.unwind(site).LandingPad? {
        return false;
      }
      var clauses := m.unwind(site).clauses;
      for i := 0 to |clauses|
        invariant forall k :: 0 <= k < i ==> !p.Catches(clauses[k])
      {
        var clause := clauses[i];
        if !exception.ExternalException() {
          if clause.CatchAll? || Some(clause.typeInfo) == exception.exceptionValue ||
             analyzer.DerivedFrom(Some(clause.typeInfo), exception.exceptionValue) {
            return true;
          }
        } else {
          if clause.CatchAll? {
            return true;
          }
          if clause.externalGlobal {
            return true;
          }
        }
      }
      return false;
    }

    /** HandleUser for each user in turn: draws the caller and, unless it catches
        the exception, puts it on the worklist. */
    method HandleUsers(users: seq<User>, analyzer: VCallCandidatesAnalyzer, ghost p: Setting,
                       childs: set<FunctionId>, leafs: seq<FunctionId>, toVisit: seq<CallSite>)
      returns (childs': set<FunctionId>, leafs': seq<FunctionId>, toVisit': seq<CallSite>)
      requires p.m == m && p.exception == exception && p.derived == analyzer.subclassesMap
      ensures forall g :: g in childs' <==> g in childs || exists s :: Call(s) in users && m.enclosing(s) == g
      ensures forall g :: g in leafs' <==> g in leafs || exists s :: Call(s) in users && m.enclosing(s) == g
      ensures forall s :: s in toVisit' <==> s in toVisit || (Call(s) in users && !p.Caught(s))
    {
      childs', leafs', toVisit' := childs, leafs, toVisit;
      for k := 0 to |users|
        invariant forall g :: g in childs' <==> g in childs || exists s :: Call(s) in users[..k] && m.enclosing(s) == g
        invariant forall g :: g in leafs' <==> g in leafs || exists s :: Call(s) in users[..k] && m.enclosing(s) == g
        invariant forall s :: s in toVisit' <==> s in toVisit || (Call(s) in users[..k] && !p.Caught(s))
      {
        assert users[..k + 1] == users[..k] + [users[k]];
        if users[k].Call? {
          var site := users[k].site;
          childs' := childs' + {m.enclosing(site)};
          leafs' := leafs' + [m.enclosing(site)];
          var caught := CanBeCaught(site, analyzer, p);
          if !caught {
            toVisit' := toVisit' + [site];
          }
        }
      }
      assert users[..|users|] == users;
    }

    /** All callers of f: its users, then those of the index that lists it. */
    method HandleCallers(f: FunctionId, analyzer: VCallCandidatesAnalyzer, solver: ICallSolver, ghost p: Setting,
                         childs: set<FunctionId>, leafs: seq<FunctionId>, toVisit: seq<CallSite>)
      returns (childs': set<FunctionId>, leafs': seq<FunctionId>, toVisit': seq<CallSite>)
      requires p == TheSetting(analyzer, solver)
      ensures forall g :: g in childs' <==> g in childs || Calls(p, g, f)
      ensures forall g :: g in leafs' <==> g in leafs || Calls(p, g, f)
      ensures forall s :: s in toVisit' <==> s in toVisit || (p.IsCaller(f, s) && !p.Caught(s))
    {
      childs', leafs', toVisit' := HandleUsers(m.users(f), analyzer, p, childs, leafs, toVisit);
      var found, callers := solver.GetCallSites(f, []);
      if !found {
        found, callers := analyzer.GetCallerCandidates(f, []);
      }
      assert callers[0..] == callers;
      if found {
        childs', leafs', toVisit' := HandleUsers(callers, analyzer, p, childs', leafs', toVisit');
      }
    }

    /** buildChildsMap: the worklist, then every child gets a node of its own. */
    method BuildChildsMap(analyzer: VCallCandidatesAnalyzer, solver: ICallSolver)
      requires TheSetting(analyzer, solver).Valid() && !leaked
      modifies this`leaked, childsMap
      ensures IsGraphOf(TheSetting(analyzer, solver), childsMap.childs, leaked)
    {
      hide Drawn, Progress, IsGraphOf, Setting.Valid;
      ghost var p := TheSetting(analyzer, solver);
      var visited, leafs := Propagate(analyzer, solver, p);
      ghost var childs0, leaked0 := childsMap.childs, leaked;
      for k := 0 to |leafs|
        invariant forall f :: f in childsMap.childs <==> f in childs0 || f in leafs[..k]
        invariant forall f :: f in childsMap.childs ==> childsMap.childs[f] == At(childs0, f)
        invariant leaked == leaked0
      {
        assert leafs[..k + 1] == leafs[..k] + [leafs[k]];
        if leafs[k] !in childsMap.childs {
          childsMap.childs := childsMap.childs[leafs[k] := {}];
        }
      }
      assert leafs[..|leafs|] == leafs;
      DrawnIsGraph(p, visited, childs0, leafs, leaked, childsMap.childs);
    }

    /** The worklist of buildChildsMap. */
    method Propagate(analyzer: VCallCandidatesAnalyzer, solver: ICallSolver, ghost p: Setting)
      returns (ghost visited: set<CallSite>, leafs: seq<FunctionId>)
      requires p == TheSetting(analyzer, solver) && p.Valid() && !leaked
      modifies this`leaked, childsMap
      ensures Progress(p, visited, [])
      ensures Drawn(p, visited, childsMap.childs, leafs, leaked)
    {
      hide Drawn, Progress, Calls, Setting.Reaches, Setting.IsCaller, Setting.Caught;
      leafs := [];
      childsMap.childs := map[];
      NothingYet(p);
      var toVisit := [exception.throwSite];
      var seen: set<CallSite> := {};
      while toVisit != []
        invariant Progress(p, seen, toVisit)
        invariant Drawn(p, seen, childsMap.childs, leafs, leaked)
        invariant p == TheSetting(analyzer, solver)
        decreases p.m.sites - seen, |toVisit|
      {
        var visiting := toVisit[|toVisit| - 1];
        ghost var toVisit0, seen0, childs0, leafs0, leaked0 := toVisit, seen, childsMap.childs, leafs, leaked;
        toVisit := toVisit[..|toVisit| - 1];
        if visiting in seen {
          SkipStep(p, seen, toVisit0);
          continue;
        }
        seen := seen + {visiting};
        var f := m.enclosing(visiting);
        var childs := if f in childsMap.childs then childsMap.childs[f] else {};
        if m.isMain(f) {
          leaked := true;
          childs := childs + {leakNode};
          leafs := leafs + [leakNode];
        } else {
          childs, leafs, toVisit := HandleCallers(f, analyzer, solver, p, childs, leafs, toVisit);
        }
        childsMap.childs := childsMap.childs[f := childs];
        assert visiting in p.m.sites by { OnSites(p, seen0, toVisit0); }
        VisitStep(p, seen0, toVisit0, toVisit);
        DrawStep(p, seen0, visiting, childs0, leafs0, leaked0, childs, leafs, leaked);
      }
      visited := seen;
    }
  }

  /** The exact graph: G is a child of F when F is passed, is not main and G calls
      it, or F is main and G is the leak node. Every child is also a key. */
  ghost predicate IsGraphOf(p: Setting, childs: map<FunctionId, set<FunctionId>>, leaked: bool) {
    && (leaked <==> p.Leaks())
    && (forall f, g :: f in childs && g in childs[f] <==> p.IsChild(f, g))
    && (forall f :: f in childs <==> p.Passes(f) || exists f' :: p.IsChild(f', f))
  }

  lemma DrawnIsGraph(p: Setting, visited: set<CallSite>, childs: map<FunctionId, set<FunctionId>>,
                     leafs: seq<FunctionId>, leaked: bool,
                     childs': map<FunctionId, set<FunctionId>>)
    requires Progress(p, visited, []) && Drawn(p, visited, childs, leafs, leaked)
    requires forall f :: f in childs' <==> f in childs || f in leafs
    requires forall f :: f in childs' ==> childs'[f] == At(childs, f)
    ensures IsGraphOf(p, childs', leaked)
  {
    hide Progress, Setting.Reaches, Setting.IsCaller;
    ProgressDone(p, visited);
    forall f ensures f in childs <==> p.Passes(f) {}
    forall f, g ensures f in childs && g in childs[f] <==> p.IsChild(f, g) {}
  }

  /** A path in the drawn graph. */
  ghost predicate GraphPath(p: Setting, path: seq<FunctionId>) {
    && path != [] && path[0] == p.m.enclosing(p.exception.throwSite)
    && forall i :: 0 <= i < |path| - 1 ==> p.IsChild(path[i], path[i + 1])
  }

  lemma {:induction false} ChainIsGraphPath(p: Setting, chain: seq<CallSite>) returns (path: seq<FunctionId>)
    requires p.Chain(chain)
    ensures GraphPath(p, path) && path[|path| - 1] == p.m.enclosing(chain[|chain| - 1])
  {
    if |chain| == 1 {
      path := [p.m.enclosing(chain[0])];
    } else {
      var init, site := chain[..|chain| - 1], chain[|chain| - 2];
      path := ChainIsGraphPath(p, init);
      assert p.Chain(init) && p.Unwinds(site, chain[|chain| - 1]);
      assert p.Reaches(site) && p.Passes(p.m.enclosing(site));
      assert p.IsChild(p.m.enclosing(site), p.m.enclosing(chain[|chain| - 1]));
      path := path + [p.m.enclosing(chain[|chain| - 1])];
    }
  }

  /** Every key of the graph is reached from the entry node. */
  lemma KeysAreReachable(p: Setting, childs: map<FunctionId, set<FunctionId>>, leaked: bool, f: FunctionId)
    requires IsGraphOf(p, childs, leaked) && f in childs
    ensures exists path :: GraphPath(p, path) && path[|path| - 1] == f
  {
    var passed := f;
    if !p.Passes(f) {
      passed :| p.IsChild(passed, f);
    }
    var site :| p.Reaches(site) && p.m.enclosing(site) == passed;
    var chain :| p.Chain(chain) && chain[|chain| - 1] == site;
    var path := ChainIsGraphPath(p, chain);
    if !p.Passes(f) {
      assert GraphPath(p, path + [f]) && (path + [f])[|path|] == f;
    }
  }

  // ----- comparing two runs

  /** Whatever q can do, p can do: q catches more or has fewer callers. */
  ghost predicate Weaker(q: Setting, p: Setting) {
    && q.exception == p.exception && q.leakNode == p.leakNode
    && q.m.enclosing == p.m.enclosing && q.m.isMain == p.m.isMain
    && (forall s :: p.Caught(s) ==> q.Caught(s))
    && (forall f, s :: q.IsCaller(f, s) ==> p.IsCaller(f, s))
  }

  /** Everything q passes, draws or leaks, p does too. */
  ghost predicate PassesLess(q: Setting, p: Setting) {
    && (forall s :: q.Reaches(s) ==> p.Reaches(s))
    && (forall f, g :: q.IsChild(f, g) ==> p.IsChild(f, g))
    && (q.Leaks() ==> p.Leaks())
  }

  lemma WeakerPassesLess(q: Setting, p: Setting)
    requires Weaker(q, p)
    ensures PassesLess(q, p)
  {
    forall s | q.Reaches(s) ensures p.Reaches(s) {
      var path :| q.Chain(path) && path[|path| - 1] == s;
      assert p.Chain(path) by {
        forall i | 0 <= i < |path| - 1 ensures p.Unwinds(path[i], path[i + 1]) {
          assert q.Unwinds(path[i], path[i + 1]);
        }
      }
    }
  }

  /** A larger subclass relation can only make the exception pass less. */
  lemma MoreSubclassesPassLess(p: Setting, derived: map<Option<GlobalId>, set<Option<GlobalId>>>)
    requires forall b :: b in p.derived ==> b in derived && p.derived[b] <= derived[b]
    ensures PassesLess(p.(derived := derived), p)
  {
    var q := p.(derived := derived);
    forall s | p.Caught(s) ensures q.Caught(s) {
      var i :| 0 <= i < |p.m.unwind(s).clauses| && p.Catches(p.m.unwind(s).clauses[i]);
      assert q.Catches(q.m.unwind(s).clauses[i]);
    }
    WeakerPassesLess(q, p);
  }

  /** So can more catch clauses. */
  lemma MoreClausesPassLess(p: Setting, unwind: CallSite -> Unwind)
    requires forall s :: p.m.unwind(s).LandingPad? ==>
      && unwind(s).LandingPad?
      && forall i :: 0 <= i < |p.m.unwind(s).clauses| ==> p.m.unwind(s).clauses[i] in unwind(s).clauses
    ensures PassesLess(p.(m := p.m.(unwind := unwind)), p)
  {
    var q := p.(m := p.m.(unwind := unwind));
    forall s | p.Caught(s) ensures q.Caught(s) {
      var i :| 0 <= i < |p.m.unwind(s).clauses| && p.Catches(p.m.unwind(s).clauses[i]);
      var j :| 0 <= j < |unwind(s).clauses| && unwind(s).clauses[j] == p.m.unwind(s).clauses[i];
      assert q.Catches(q.m.unwind(s).clauses[j]);
    }
    WeakerPassesLess(q, p);
  }

  /** More direct users can only make it pass more. */
  lemma MoreUsersPassMore(p: Setting, users: FunctionId -> seq<User>)
    requires forall f, s :: Call(s) in p.m.users(f) ==> Call(s) in users(f)
    ensures PassesLess(p, p.(m := p.m.(users := users)))
  {
    var q := p.(m := p.m.(users := users));
    forall s | q.Caught(s) ensures p.Caught(s) {
      var i :| 0 <= i < |q.m.unwind(s).clauses| && q.Catches(q.m.unwind(s).clauses[i]);
      assert p.Catches(p.m.unwind(s).clauses[i]);
    }
    WeakerPassesLess(p, q);
  }

  /** A new metadata entry for f hides the virtual callers of f, unless it lists them
      or they are direct users. */
  ghost predicate Hides(p: Setting, f: FunctionId, listed: set<CallSite>, site: CallSite) {
    site in At(p.callerMap, f) && site !in listed && Call(site) !in p.m.users(f)
  }

  /** The setting with an entry for f. */
  ghost function Listing(p: Setting, f: FunctionId, listed: set<CallSite>): Setting {
    p.(callSitesMap := p.callSitesMap[f := listed])
  }

  /** The same program, thrown at another site and with other landing pads. */
  ghost function Thrown(p: Setting, site: CallSite, unwind: CallSite -> Unwind): Setting {
    p.(m := p.m.(unwind := unwind), exception := p.exception.(throwSite := site))
  }

  lemma ListingCallers(p: Setting, f: FunctionId, listed: set<CallSite>, g: FunctionId, site: CallSite)
    requires f !in p.callSitesMap && p.IsCaller(g, site)
    ensures Listing(p, f, listed).IsCaller(g, site) <==> !(g == f && Hides(p, f, listed, site))
  {
  }

  /** An entry that hides nothing only adds callers. */
  lemma HidingNothingPassesMore(p: Setting, f: FunctionId, listed: set<CallSite>)
    requires f !in p.callSitesMap && forall s :: s in At(p.callerMap, f) ==> !Hides(p, f, listed, s)
    ensures PassesLess(p, Listing(p, f, listed))
  {
    forall g, s | p.IsCaller(g, s) ensures Listing(p, f, listed).IsCaller(g, s) {
      ListingCallers(p, f, listed, g, s);
    }
    WeakerPassesLess(p, Listing(p, f, listed));
  }

  /** Neither does an entry for a function that the exception never unwinds out of,
      because it is main or holds no call site. */
  lemma EntryDoesNotMatter(p: Setting, f: FunctionId, listed: set<CallSite>)
    requires f !in p.callSitesMap && p.Valid()
    requires p.m.isMain(f) || forall s :: s in p.m.sites ==> p.m.enclosing(s) != f
    ensures PassesLess(p, Listing(p, f, listed))
  {
    var q := Listing(p, f, listed);
    forall s | p.Reaches(s) ensures q.Reaches(s) {
      var path :| p.Chain(path) && path[|path| - 1] == s;
      ChainOnSites(p, path);
      forall i | 0 <= i < |path| - 1 ensures q.Unwinds(path[i], path[i + 1]) {
        assert p.Unwinds(path[i], path[i + 1]);
        assert p.m.enclosing(path[i]) != f;
      }
      assert q.Chain(path);
    }
    forall g, h | p.IsChild(g, h) ensures q.IsChild(g, h) {
      var s :| p.Reaches(s) && p.m.enclosing(s) == g;
      ReachedIsSite(p, s);
    }
  }

  lemma {:induction false} ChainOnSites(p: Setting, path: seq<CallSite>)
    requires p.Valid() && p.Chain(path)
    ensures forall i :: 0 <= i < |path| ==> path[i] in p.m.sites
    decreases |path|
  {
    if |path| > 1 {
      var n := |path| - 1;
      ChainOnSites(p, path[..n]);
      assert p.Unwinds(path[n - 1], path[n]);
      IsCallerIsSite(p, p.m.enclosing(path[n - 1]), path[n]);
      forall i | 0 <= i < |path| ensures path[i] in p.m.sites {
        assert i < n ==> path[..n][i] == path[i];
      }
    }
  }

  lemma ReachedIsSite(p: Setting, site: CallSite)
    requires p.Valid() && p.Reaches(site)
    ensures site in p.m.sites
  {
    var path :| p.Chain(path) && path[|path| - 1] == site;
    ChainOnSites(p, path);
  }

  /** Landing pads that let the exception pass one call site only. */
  function OnlyThrough(open: CallSite): CallSite -> Unwind {
    s => if s == open then NotInvoke else LandingPad([CatchAll])
  }

  /** If the exception starts in f, away from a hidden caller that alone lets it pass,
      it passes that caller without the entry and nothing with it. */
  lemma HiddenCallerIsLost(p: Setting, f: FunctionId, listed: set<CallSite>, hidden: CallSite, site: CallSite)
    requires f !in p.callSitesMap && !p.m.isMain(f) && Hides(p, f, listed, hidden)
    requires p.m.enclosing(site) == f && site != hidden
    ensures Thrown(p, site, OnlyThrough(hidden)).Reaches(hidden)
    ensures !Thrown(Listing(p, f, listed), site, OnlyThrough(hidden)).Reaches(hidden)
  {
    var before, after := Thrown(p, site, OnlyThrough(hidden)), Thrown(Listing(p, f, listed), site, OnlyThrough(hidden));
    assert before.Unwinds(site, hidden);
    before.ReachesStart();
    before.ReachesNext(site, hidden);
    forall b ensures !after.Unwinds(site, b) {
      if b != hidden {
        assert after.m.unwind(b).clauses[0] == CatchAll;
        assert after.Caught(b);
      }
    }
    if after.Reaches(hidden) {
      var path :| after.Chain(path) && path[|path| - 1] == hidden;
      after.ReachesLeast({site}, path);
    }
  }

  /** If the hidden caller is the only call site of f, f calls itself there, and the edge
      from f to f is lost. */
  lemma OwnEdgeIsLost(p: Setting, f: FunctionId, listed: set<CallSite>, hidden: CallSite)
    requires p.Valid() && listed <= p.m.sites
    requires f !in p.callSitesMap && !p.m.isMain(f) && Hides(p, f, listed, hidden)
    requires p.m.enclosing(hidden) == f && forall s :: s in p.m.sites && p.m.enclosing(s) == f ==> s == hidden
    ensures Thrown(p, hidden, p.m.unwind).IsChild(f, f)
    ensures !Thrown(Listing(p, f, listed), hidden, p.m.unwind).IsChild(f, f)
  {
    var before, after := Thrown(p, hidden, p.m.unwind), Thrown(Listing(p, f, listed), hidden, p.m.unwind);
    before.ReachesStart();
    assert before.Passes(f) && before.IsCaller(f, hidden);
    forall s | after.IsCaller(f, s) ensures p.m.enclosing(s) != f {
      assert s in p.m.sites;
    }
  }

  /** Metadata is not monotone: wherever the exception is thrown and whatever the landing
      pads, a new entry for f takes nothing away from the result if and only if it hides
      no caller of f, or the exception never unwinds out of f. */
  lemma MetadataHidesVirtualCallers(p: Setting, f: FunctionId, listed: set<CallSite>)
    requires p.Valid() && listed <= p.m.sites && f !in p.callSitesMap
    ensures (forall site, unwind :: site in p.m.sites ==>
               PassesLess(Thrown(p, site, unwind), Thrown(Listing(p, f, listed), site, unwind))) <==>
      || (forall s :: s in At(p.callerMap, f) ==> !Hides(p, f, listed, s))
      || p.m.isMain(f)
      || forall s :: s in p.m.sites ==> p.m.enclosing(s) != f
  {
    if || p.m.isMain(f) || (forall s :: s in p.m.sites ==> p.m.enclosing(s) != f)
       || (forall s :: s in At(p.callerMap, f) ==> !Hides(p, f, listed, s))
    {
      forall site, unwind | site in p.m.sites
        ensures PassesLess(Thrown(p, site, unwind), Thrown(Listing(p, f, listed), site, unwind))
      {
        EntryTakesNothing(p, f, listed, site, unwind);
      }
    } else {
      var hidden :| hidden in At(p.callerMap, f) && Hides(p, f, listed, hidden);
      if site :| site in p.m.sites && p.m.enclosing(site) == f && site != hidden {
        HiddenCallerIsLost(p, f, listed, hidden, site);
        assert !PassesLess(Thrown(p, site, OnlyThrough(hidden)),
          Thrown(Listing(p, f, listed), site, OnlyThrough(hidden)));
      } else {
        OwnEdgeIsLost(p, f, listed, hidden);
        assert !PassesLess(Thrown(p, hidden, p.m.unwind), Thrown(Listing(p, f, listed), hidden, p.m.unwind));
      }
    }
  }

  lemma EntryTakesNothing(p: Setting, f: FunctionId, listed: set<CallSite>, site: CallSite, unwind: CallSite -> Unwind)
    requires p.Valid() && f !in p.callSitesMap && site in p.m.sites
    requires || p.m.isMain(f) || (forall s :: s in p.m.sites ==> p.m.enclosing(s) != f)
             || (forall s :: s in At(p.callerMap, f) ==> !Hides(p, f, listed, s))
    ensures PassesLess(Thrown(p, site, unwind), Thrown(Listing(p, f, listed), site, unwind))
  {
    var thrown := Thrown(p, site, unwind);
    assert Thrown(Listing(p, f, listed), site, unwind) == Listing(thrown, f, listed);
    if p.m.isMain(f) || forall s :: s in p.m.sites ==> p.m.enclosing(s) != f {
      EntryDoesNotMatter(thrown, f, listed);
    } else {
      HidingNothingPassesMore(thrown, f, listed);
    }
  }

  lemma NothingYet(p: Setting)
    requires p.Valid()
    ensures Progress(p, {}, [p.exception.throwSite])
    ensures Drawn(p, {}, map[], [], false)
  {
    p.ReachesStart();
  }

  lemma OnSites(p: Setting, visited: set<CallSite>, toVisit: seq<CallSite>)
    requires Progress(p, visited, toVisit)
    ensures visited <= p.m.sites && forall s :: s in toVisit ==> s in p.m.sites
  {
  }

  lemma SkipStep(p: Setting, visited: set<CallSite>, toVisit: seq<CallSite>)
    requires toVisit != [] && toVisit[|toVisit| - 1] in visited && Progress(p, visited, toVisit)
    ensures Progress(p, visited, toVisit[..|toVisit| - 1])
  {
    assert toVisit == toVisit[..|toVisit| - 1] + [toVisit[|toVisit| - 1]];
  }

  /** Visiting the top of the stack; its callers that do not catch are pushed. */
  lemma VisitStep(p: Setting, visited: set<CallSite>, toVisit: seq<CallSite>, toVisit': seq<CallSite>)
    requires p.Valid() && toVisit != [] && Progress(p, visited, toVisit)
    requires var visiting := toVisit[|toVisit| - 1];
      forall s :: s in toVisit' <==> s in toVisit[..|toVisit| - 1] || p.Unwinds(visiting, s)
    ensures Progress(p, visited + {toVisit[|toVisit| - 1]}, toVisit')
  {
    var visiting := toVisit[|toVisit| - 1];
    assert toVisit == toVisit[..|toVisit| - 1] + [visiting];
    forall s | p.Unwinds(visiting, s) ensures s in p.m.sites && p.Reaches(s) {
      p.ReachesNext(visiting, s);
      IsCallerIsSite(p, p.m.enclosing(visiting), s);
    }
  }

  lemma IsCallerIsSite(p: Setting, f: FunctionId, site: CallSite)
    requires p.Valid() && p.IsCaller(f, site)
    ensures site in p.m.sites
  {
    if Call(site) in p.m.users(f) {
      var i :| 0 <= i < |p.m.users(f)| && p.m.users(f)[i] == Call(site);
    }
  }

  /** Drawing a newly visited site completes its function's children. */
  lemma DrawStep(p: Setting, visited: set<CallSite>, visiting: CallSite,
                 childs: map<FunctionId, set<FunctionId>>, leafs: seq<FunctionId>, leaked: bool,
                 mine: set<FunctionId>, leafs': seq<FunctionId>, leaked': bool)
    requires Drawn(p, visited, childs, leafs, leaked)
    requires var f := p.m.enclosing(visiting);
      && (forall g :: g in mine <==> g in At(childs, f) || (if p.m.isMain(f) then g == p.leakNode else Calls(p, g, f)))
      && (forall g :: g in leafs' <==> g in leafs || (if p.m.isMain(f) then g == p.leakNode else Calls(p, g, f)))
      && leaked' == (leaked || p.m.isMain(f))
    ensures Drawn(p, visited + {visiting}, childs[p.m.enclosing(visiting) := mine], leafs', leaked')
  {
    hide Calls;
    var f := p.m.enclosing(visiting);
    var visited', childs' := visited + {visiting}, childs[f := mine];
    forall h | h in childs' ensures exists s :: s in visited' && p.m.enclosing(s) == h {
      if h == f {
        assert visiting in visited';
      } else {
        var s :| s in visited && p.m.enclosing(s) == h;
        assert s in visited';
      }
    }
    if leaked' {
      if p.m.isMain(f) {
        assert visiting in visited';
      } else {
        var s :| s in visited && p.m.isMain(p.m.enclosing(s));
        assert s in visited';
      }
    }
    forall g ensures g in leafs' <==> exists h :: h in childs' && g in childs'[h] {
      if g in leafs {
        var h :| h in childs && g in childs[h];
        assert h in childs' && g in childs'[h];
      }
      if h :| h in childs' && g in childs'[h] {
        if h != f {
          assert h in childs && g in childs[h];
        }
      }
      if g in mine {
        assert f in childs' && g in childs'[f];
      }
    }
  }
}
