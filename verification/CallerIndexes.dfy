/** The two caller indexes: callees metadata (IndirectCallSolver.cpp) and virtual
    call candidates (IndirectCallAnalysis.cpp). */
module CallerIndexes {
  import opened ProgramModels

  /** Listed call sites, as users. */
  function AsUsers(sites: seq<CallSite>): (users: seq<User>)
    ensures forall u :: u in users <==> u.Call? && u.site in sites
  {
    if sites == [] then [] else [Call(sites[0])] + AsUsers(sites[1..])
  }

  // ----- callees metadata

  /** The n-th instruction is the call site and its metadata names f. */
  ghost predicate Names(m: Module, n: int, f: FunctionId, site: CallSite) {
    && 0 <= n < |m.instructions|
    && m.instructions[n].CallInstruction?
    && m.instructions[n].site == site
    && Some(f) in m.instructions[n].callees
  }

  /** The call sites among the first n instructions whose metadata names f. */
  ghost function SitesNaming(m: Module, f: FunctionId, n: nat): set<CallSite>
    requires n <= |m.instructions|
  {
    if n == 0 then {}
    else
      var i := m.instructions[n - 1];
      SitesNaming(m, f, n - 1) + (if i.CallInstruction? && Some(f) in i.callees then {i.site} else {})
  }

  lemma {:induction false} SitesNamingMembers(m: Module, f: FunctionId, n: nat, site: CallSite)
    requires n <= |m.instructions|
    ensures site in SitesNaming(m, f, n) <==> exists i :: 0 <= i < n && Names(m, i, f, site)
  {
    if n > 0 {
      SitesNamingMembers(m, f, n - 1, site);
      assert site in SitesNaming(m, f, n) <==> site in SitesNaming(m, f, n - 1) || Names(m, n - 1, f, site);
    }
  }

  class ICallSolver {
    var callSitesMap: map<FunctionId, set<CallSite>>

    constructor ()
      ensures callSitesMap == map[]
    {
      callSitesMap := map[];
    }

    /** solve: adds to the sites listed under f exactly those whose metadata names
        f; only functions with a call site are listed. */
    method Solve(m: Module)
      requires forall f :: f in callSitesMap ==> callSitesMap[f] != {}
      modifies this
      ensures forall f, site :: site in At(callSitesMap, f) <==>
        site in At(old(callSitesMap), f) || exists n :: 0 <= n < |m.instructions| && Names(m, n, f, site)
      ensures forall f :: At(callSitesMap, f) == At(old(callSitesMap), f) + SitesNaming(m, f, |m.instructions|)
      ensures forall f :: f in callSitesMap ==> callSitesMap[f] != {}
    {
      for i := 0 to |m.instructions|
        invariant forall f :: At(callSitesMap, f) == At(old(callSitesMap), f) + SitesNaming(m, f, i)
        invariant forall f :: f in callSitesMap ==> callSitesMap[f] != {}
      {
        var instruction := m.instructions[i];
        if instruction.CallInstruction? {
          InsertSite(instruction.site, instruction.callees);
        }
      }
      forall f, site
        ensures site in At(callSitesMap, f) <==>
          site in At(old(callSitesMap), f) || exists n :: 0 <= n < |m.instructions| && Names(m, n, f, site)
      {
        SitesNamingMembers(m, f, |m.instructions|, site);
      }
    }

    method InsertSite(site: CallSite, callees: seq<Option<FunctionId>>)
      requires forall f :: f in callSitesMap ==> callSitesMap[f] != {}
      modifies this
      ensures forall f :: At(callSitesMap, f) == At(old(callSitesMap), f) + (if Some(f) in callees then {site} else {})
      ensures forall f :: f in callSitesMap ==> callSitesMap[f] != {}
    {
      for k := 0 to |callees|
        invariant forall f ::
          At(callSitesMap, f) == At(old(callSitesMap), f) + (if Some(f) in callees[..k] then {site} else {})
        invariant forall f :: f in callSitesMap ==> callSitesMap[f] != {}
      {
        assert callees[..k + 1] == callees[..k] + [callees[k]];
        if callees[k].Some? {
          callSitesMap := Insert(callSitesMap, callees[k].value, site);
        }
      }
      assert callees[..|callees|] == callees;
    }

    /** getCallSites: appends the call sites listed under f, if any. */
    method GetCallSites(f: FunctionId, users: seq<User>) returns (found: bool, users': seq<User>)
      ensures found <==> f in callSitesMap
      ensures users <= users'
      ensures forall u :: u in users'[|users|..] <==> u.Call? && u.site in At(callSitesMap, f)
    {
      if f in callSitesMap {
        var sites := Enumerate(callSitesMap[f]);
        found, users' := true, users + AsUsers(sites);
      } else {
        found, users' := false, users;
      }
    }
  }

  // ----- virtual calls

  /** A vtable and the offset of an address point in it. */
  type AddressPoint = (GlobalId, nat)

  /** The 64-bit sum of two offsets; overflow is dropped. */
  function AddOffsets(a: nat, b: nat): nat { (a + b) % 0x1_0000_0000_0000_0000 }

  predicate StartsWith(s: string, prefix: string) { prefix <= s }

  predicate EndsWith(s: string, suffix: string) {
    |suffix| <= |s| && s[|s| - |suffix|..] == suffix
  }

  /** The position of the first dot, or the length. */
  function FindDot(s: string): (k: nat)
    ensures k <= |s|
  {
    if s == [] || s[0] == '.' then 0 else 1 + FindDot(s[1..])
  }

  /** Only vtables that are not publicly visible are looked at. */
  predicate IsVTable(gv: Global) {
    !gv.publicVisibility && StartsWith(gv.name, "_ZTV")
  }

  /** The class a vtable belongs to: its name up to the first dot, unless it starts with one. */
  function ClassName(gv: Global): string
    requires IsVTable(gv)
  {
    var name := gv.name[4..];
    var index := FindDot(name);
    if index != 0 then name[..index] else name
  }

  /** A type entry that counts: a string that is not a virtual-pointer type id. */
  predicate Counts(t: TypeEntry) {
    t.typeId.Some? && !EndsWith(t.typeId.value, ".virtual")
  }

  /** What analyze demands of the module: the type ids that count are mangled names. */
  ghost predicate WellMangled(m: Module) {
    forall g, t ::
      (&& 0 <= g < |m.globals| && IsVTable(m.globals[g])
       && 0 <= t < |m.globals[g].types| && Counts(m.globals[g].types[t])) ==>
      StartsWith(m.globals[g].types[t].typeId.value, "_ZTS")
  }

  function BaseOf(m: Module, t: TypeEntry): Option<GlobalId>
    requires Counts(t) && StartsWith(t.typeId.value, "_ZTS")
  {
    m.namedGlobal("_ZTI" + t.typeId.value[4..])
  }

  function TypeInfoOf(m: Module, gv: Global): Option<GlobalId>
    requires IsVTable(gv)
  {
    m.namedGlobal("_ZTI" + ClassName(gv))
  }

  /** The vtable at index g says, in its t-th type entry, that it is compatible with typeId. */
  ghost predicate Compatible(m: Module, g: int, t: int, typeId: string) {
    && 0 <= g < |m.globals| && IsVTable(m.globals[g])
    && 0 <= t < |m.globals[g].types| && Counts(m.globals[g].types[t])
    && m.globals[g].types[t].typeId == Some(typeId)
  }

  /** The address points the first n vtables, and the first k entries of the next, give a type id. */
  ghost function Points(m: Module, typeId: string, n: nat, k: nat): set<AddressPoint>
    requires n <= |m.globals| && (if n < |m.globals| then k <= |m.globals[n].types| else k == 0)
    decreases n, k
  {
    if k > 0 then
      Points(m, typeId, n, k - 1) +
      (if Compatible(m, n, k - 1, typeId) then {(m.globals[n].id, m.globals[n].types[k - 1].offset)} else {})
    else if n > 0 then Points(m, typeId, n - 1, |m.globals[n - 1].types|)
    else {}
  }

  lemma {:induction false} PointsMembers(m: Module, typeId: string, n: nat, k: nat, p: AddressPoint)
    requires n <= |m.globals| && (if n < |m.globals| then k <= |m.globals[n].types| else k == 0)
    ensures p in Points(m, typeId, n, k) <==>
      exists g, t ::
        && (g < n || (g == n && t < k)) && Compatible(m, g, t, typeId)
        && p == (m.globals[g].id, m.globals[g].types[t].offset)
    decreases n, k
  {
    if k > 0 {
      PointsMembers(m, typeId, n, k - 1, p);
    } else if n > 0 {
      PointsMembers(m, typeId, n - 1, |m.globals[n - 1].types|, p);
    }
  }

  /** Class d is recorded as derived from class b through the t-th entry of vtable g. */
  ghost predicate Derives(m: Module, g: int, t: int, b: Option<GlobalId>, d: Option<GlobalId>)
    requires WellMangled(m)
  {
    && 0 <= g < |m.globals| && IsVTable(m.globals[g])
    && 0 <= t < |m.globals[g].types| && Counts(m.globals[g].types[t])
    && BaseOf(m, m.globals[g].types[t]) == b && TypeInfoOf(m, m.globals[g]) == d
  }

  ghost function Subclasses(m: Module, b: Option<GlobalId>, n: nat, k: nat): set<Option<GlobalId>>
    requires WellMangled(m)
    requires n <= |m.globals| && (if n < |m.globals| then k <= |m.globals[n].types| else k == 0)
    decreases n, k
  {
    if k > 0 then
      Subclasses(m, b, n, k - 1) +
      (if IsVTable(m.globals[n]) && Derives(m, n, k - 1, b, TypeInfoOf(m, m.globals[n]))
       then {TypeInfoOf(m, m.globals[n])} else {})
    else if n > 0 then Subclasses(m, b, n - 1, |m.globals[n - 1].types|)
    else {}
  }

  lemma {:induction false} SubclassesMembers(m: Module, b: Option<GlobalId>, n: nat, k: nat, d: Option<GlobalId>)
    requires WellMangled(m)
    requires n <= |m.globals| && (if n < |m.globals| then k <= |m.globals[n].types| else k == 0)
    ensures d in Subclasses(m, b, n, k) <==> exists g, t :: (g < n || (g == n && t < k)) && Derives(m, g, t, b, d)
    decreases n, k
  {
    hide IsVTable, Counts, TypeInfoOf, BaseOf, WellMangled;
    if k > 0 {
      SubclassesMembers(m, b, n, k - 1, d);
    } else if n > 0 {
      SubclassesMembers(m, b, n - 1, |m.globals[n - 1].types|, d);
    }
  }

  /** The address point p makes f a candidate for a load at the given offset. */
  predicate Resolves(m: Module, offset: nat, p: AddressPoint, f: FunctionId) {
    m.fold(p.0, AddOffsets(offset, p.1)) == Some(f) && !m.isDeclaration(f) && !m.isPureVirtual(f)
  }

  /** f may be called, through some vtable, by the virtual call at the site. */
  ghost predicate IsCandidate(m: Module, site: CallSite, f: FunctionId) {
    && m.operand(site).Loaded?
    && exists p :: p in Points(m, m.operand(site).typeId, |m.globals|, 0) && Resolves(m, m.operand(site).offset, p, f)
  }

  /** The call sites among the first n instructions that have f as a candidate. */
  ghost function VirtualCallers(m: Module, f: FunctionId, n: nat): set<CallSite>
    requires n <= |m.instructions|
  {
    if n == 0 then {}
    else
      var i := m.instructions[n - 1];
      VirtualCallers(m, f, n - 1) + (if i.CallInstruction? && IsCandidate(m, i.site, f) then {i.site} else {})
  }

  lemma {:induction false} VirtualCallersMembers(m: Module, f: FunctionId, n: nat, site: CallSite)
    requires n <= |m.instructions|
    ensures site in VirtualCallers(m, f, n) <==>
      && IsCandidate(m, site, f)
      && exists i :: 0 <= i < n && m.instructions[i].CallInstruction? && m.instructions[i].site == site
  {
    if n > 0 {
      VirtualCallersMembers(m, f, n - 1, site);
    }
  }

  class VCallCandidatesAnalyzer {
    var typeIdCompatibleMap: map<string, set<AddressPoint>>
    var subclassesMap: map<Option<GlobalId>, set<Option<GlobalId>>>
    var callerMap: map<FunctionId, set<CallSite>>

    constructor ()
      ensures typeIdCompatibleMap == map[] && subclassesMap == map[] && callerMap == map[]
    {
      typeIdCompatibleMap, subclassesMap, callerMap := map[], map[], map[];
    }

    /** The first half of analyze: indexes the address points and the class hierarchy. */
    method IndexTypes(m: Module)
      requires WellMangled(m)
      modifies this`typeIdCompatibleMap, this`subclassesMap
      ensures forall id :: At(typeIdCompatibleMap, id) == Points(m, id, |m.globals|, 0)
      ensures forall b :: At(subclassesMap, b) == At(old(subclassesMap), b) + Subclasses(m, b, |m.globals|, 0)
    {
      ghost var before := subclassesMap;
      typeIdCompatibleMap := map[];
      for n := 0 to |m.globals|
        invariant forall id :: At(typeIdCompatibleMap, id) == Points(m, id, n, 0)
        invariant forall b :: At(subclassesMap, b) == At(before, b) + Subclasses(m, b, n, 0)
      {
        if IsVTable(m.globals[n]) {
          IndexVTable(m, n, before);
        } else {
          forall id { NotAVTable(m, n, |m.globals[n].types|, id, None); }
          forall b { NotAVTable(m, n, |m.globals[n].types|, "", b); }
        }
      }
    }

    /** One vtable: its type entries, in order. */
    method IndexVTable(m: Module, n: nat, ghost before: map<Option<GlobalId>, set<Option<GlobalId>>>)
      requires WellMangled(m) && n < |m.globals| && IsVTable(m.globals[n])
      requires forall id :: At(typeIdCompatibleMap, id) == Points(m, id, n, 0)
      requires forall b :: At(subclassesMap, b) == At(before, b) + Subclasses(m, b, n, 0)
      modifies this`typeIdCompatibleMap, this`subclassesMap
      ensures forall id :: At(typeIdCompatibleMap, id) == Points(m, id, n, |m.globals[n].types|)
      ensures forall b :: At(subclassesMap, b) == At(before, b) + Subclasses(m, b, n, |m.globals[n].types|)
    {
      hide EndsWith, StartsWith, TypeInfoOf, BaseOf, Points, Subclasses, Insert, At;
      var gv := m.globals[n];
      var typeInfo := TypeInfoOf(m, gv);
      for k := 0 to |gv.types|
        invariant forall id :: At(typeIdCompatibleMap, id) == Points(m, id, n, k)
        invariant forall b :: At(subclassesMap, b) == At(before, b) + Subclasses(m, b, n, k)
      {
        var t := gv.types[k];
        PointsStep(m, n, k, typeIdCompatibleMap);
        SubclassesStep(m, n, k, before, subclassesMap);
        if Counts(t) {
          typeIdCompatibleMap := Insert(typeIdCompatibleMap, t.typeId.value, (gv.id, t.offset));
          subclassesMap := Insert(subclassesMap, BaseOf(m, t), typeInfo);
        }
      }
    }

    static lemma PointsStep(m: Module, n: nat, k: nat, points: map<string, set<AddressPoint>>)
      requires n < |m.globals| && IsVTable(m.globals[n]) && k < |m.globals[n].types|
      requires forall id :: At(points, id) == Points(m, id, n, k)
      ensures var gv, t := m.globals[n], m.globals[n].types[k];
        var points' := if Counts(t) then Insert(points, t.typeId.value, (gv.id, t.offset)) else points;
        forall id :: At(points', id) == Points(m, id, n, k + 1)
    {
    }

    static lemma SubclassesStep(m: Module, n: nat, k: nat, before: map<Option<GlobalId>, set<Option<GlobalId>>>,
                                subclasses: map<Option<GlobalId>, set<Option<GlobalId>>>)
      requires WellMangled(m) && n < |m.globals| && IsVTable(m.globals[n]) && k < |m.globals[n].types|
      requires forall b :: At(subclasses, b) == At(before, b) + Subclasses(m, b, n, k)
      ensures var gv, t := m.globals[n], m.globals[n].types[k];
        var subclasses' := if Counts(t) then Insert(subclasses, BaseOf(m, t), TypeInfoOf(m, gv)) else subclasses;
        forall b :: At(subclasses', b) == At(before, b) + Subclasses(m, b, n, k + 1)
    {
      hide EndsWith, StartsWith, ClassName;
    }

    static lemma NotAVTable(m: Module, n: nat, k: nat, id: string, b: Option<GlobalId>)
      requires WellMangled(m) && n < |m.globals| && !IsVTable(m.globals[n]) && k <= |m.globals[n].types|
      ensures Points(m, id, n, k) == Points(m, id, n, 0)
      ensures Subclasses(m, b, n, k) == Subclasses(m, b, n, 0)
    {
      if k > 0 {
        NotAVTable(m, n, k - 1, id, b);
      }
    }

    /** getVCallCandidates: the functions the virtual call may reach. Looking a type
        id up may create an empty entry for it, which changes no set of address points. */
    method GetVCallCandidates(m: Module, site: CallSite) returns (found: bool, candidates: seq<FunctionId>)
      requires forall id :: At(typeIdCompatibleMap, id) == Points(m, id, |m.globals|, 0)
      modifies this`typeIdCompatibleMap
      ensures forall id :: At(typeIdCompatibleMap, id) == Points(m, id, |m.globals|, 0)
      ensures found <==> candidates != []
      ensures forall f :: f in candidates <==> IsCandidate(m, site, f)
    {
      found, candidates := false, [];
      if |typeIdCompatibleMap| == 0 || m.operand(site).NotALoad? {
        return;
      }
      var typeId, offset := m.operand(site).typeId, m.operand(site).offset;
      if typeId !in typeIdCompatibleMap {
        typeIdCompatibleMap := typeIdCompatibleMap[typeId := {}];
      }
      var points := Enumerate(typeIdCompatibleMap[typeId]);
      assert forall p :: p in points <==> p in Points(m, typeId, |m.globals|, 0);
      for k := 0 to |points|
        invariant forall f :: f in candidates <==> exists i :: 0 <= i < k && Resolves(m, offset, points[i], f)
      {
        var p := points[k];
        var folded := m.fold(p.0, AddOffsets(offset, p.1));
        if folded.Some? {
          var f := folded.value;
          if !m.isDeclaration(f) && !m.isPureVirtual(f) {
            candidates := candidates + [f];
          }
        }
      }
      found := candidates != [];
    }

    /** analyze: a virtual call is listed as a caller of exactly its candidates. */
    method Analyze(m: Module)
      requires WellMangled(m)
      requires forall f :: f in callerMap ==> callerMap[f] != {}
      modifies this
      ensures forall id :: At(typeIdCompatibleMap, id) == Points(m, id, |m.globals|, 0)
      ensures forall b :: At(subclassesMap, b) == At(old(subclassesMap), b) + Subclasses(m, b, |m.globals|, 0)
      ensures forall f :: At(callerMap, f) == At(old(callerMap), f) + VirtualCallers(m, f, |m.instructions|)
      ensures forall f :: f in callerMap ==> callerMap[f] != {}
    {
      IndexTypes(m);
      IndexCallers(m);
    }

    /** The second half of analyze: lists every virtual call under its candidates. */
    method IndexCallers(m: Module)
      requires forall id :: At(typeIdCompatibleMap, id) == Points(m, id, |m.globals|, 0)
      requires forall f :: f in callerMap ==> callerMap[f] != {}
      modifies this`typeIdCompatibleMap, this`callerMap
      ensures forall id :: At(typeIdCompatibleMap, id) == Points(m, id, |m.globals|, 0)
      ensures forall f :: At(callerMap, f) == At(old(callerMap), f) + VirtualCallers(m, f, |m.instructions|)
      ensures forall f :: f in callerMap ==> callerMap[f] != {}
    {
      hide IsCandidate, Points;
      NoVirtualCallers(m);
      hide VirtualCallers, At;
      for n := 0 to |m.instructions|
        invariant forall id :: At(typeIdCompatibleMap, id) == Points(m, id, |m.globals|, 0)
        invariant forall f :: At(callerMap, f) == At(old(callerMap), f) + VirtualCallers(m, f, n)
        invariant forall f :: f in callerMap ==> callerMap[f] != {}
      {
        ghost var before := callerMap;
        if m.instructions[n].CallInstruction? {
          var site := m.instructions[n].site;
          var found, candidates := GetVCallCandidates(m, site);
          if found {
            InsertCaller(site, candidates);
          }
        }
        ListedNext(m, n, old(callerMap), before, callerMap);
      }
    }

    /** Listing one instruction's call site under its candidates. */
    static lemma ListedNext(m: Module, n: nat, start: map<FunctionId, set<CallSite>>,
                            before: map<FunctionId, set<CallSite>>, after: map<FunctionId, set<CallSite>>)
      requires n < |m.instructions|
      requires forall f :: At(before, f) == At(start, f) + VirtualCallers(m, f, n)
      requires var i := m.instructions[n];
        forall f ::
          At(after, f) == At(before, f) + (if i.CallInstruction? && IsCandidate(m, i.site, f) then {i.site} else {})
      ensures forall f :: At(after, f) == At(start, f) + VirtualCallers(m, f, n + 1)
    {
      hide IsCandidate, At;
    }

    static lemma NoVirtualCallers(m: Module)
      ensures forall f :: VirtualCallers(m, f, 0) == {}
    {
    }

    method InsertCaller(site: CallSite, candidates: seq<FunctionId>)
      requires forall f :: f in callerMap ==> callerMap[f] != {}
      modifies this`callerMap
      ensures forall f :: At(callerMap, f) == At(old(callerMap), f) + (if f in candidates then {site} else {})
      ensures forall f :: f in callerMap ==> callerMap[f] != {}
    {
      for k := 0 to |candidates|
        invariant forall f :: At(callerMap, f) == At(old(callerMap), f) + (if f in candidates[..k] then {site} else {})
        invariant forall f :: f in callerMap ==> callerMap[f] != {}
      {
        assert candidates[..k + 1] == candidates[..k] + [candidates[k]];
        callerMap := Insert(callerMap, candidates[k], site);
      }
      assert candidates[..|candidates|] == candidates;
    }

    /** getCallerCandidates: appends the virtual calls listed under f, if any. */
    method GetCallerCandidates(f: FunctionId, callers: seq<User>) returns (found: bool, callers': seq<User>)
      ensures found <==> f in callerMap
      ensures callers <= callers'
      ensures forall u :: u in callers'[|callers|..] <==> u.Call? && u.site in At(callerMap, f)
    {
      if f in callerMap {
        var sites := Enumerate(callerMap[f]);
        found, callers' := true, callers + AsUsers(sites);
      } else {
        found, callers' := false, callers;
      }
    }

    /** After indexing a module, the classes derived from a base are exactly those some
        vtable entry records under it. */
    lemma DerivedFromMeans(m: Module, base: Option<GlobalId>, derived: Option<GlobalId>)
      requires WellMangled(m)
      requires forall b :: At(subclassesMap, b) == Subclasses(m, b, |m.globals|, 0)
      ensures DerivedFrom(base, derived) <==> exists g, t :: Derives(m, g, t, base, derived)
    {
      SubclassesMembers(m, base, |m.globals|, 0, derived);
      hide Subclasses;
    }

    /** derivedFrom. */
    predicate DerivedFrom(base: Option<GlobalId>, derived: Option<GlobalId>)
      reads this
      ensures DerivedFrom(base, derived) <==> derived in At(subclassesMap, base)
    {
      base in subclassesMap && derived in subclassesMap[base]
    }
  }
}
