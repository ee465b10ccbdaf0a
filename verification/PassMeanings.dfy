/** What the indexes and the verdicts of the pass mean in terms of the module: names of
    vtables and type ids, offsets, landing pads and users, written out. */
module PassMeanings {
  import opened ProgramModels
  import opened CallerIndexes
  import opened ExceptionPropagation
  import opened ExceptionPasses

  // ----- names and offsets

  /** The vtables looked at: not publicly visible, and named with the prefix _ZTV. */
  lemma VTableNames(gv: Global)
    ensures IsVTable(gv) <==>
      !gv.publicVisibility && exists rest: string :: gv.name == "_ZTV" + rest
  {
    if IsVTable(gv) {
      assert gv.name == "_ZTV" + gv.name[4..];
    }
  }

  /** The class is what follows the prefix, up to a dot behind its first character. */
  lemma ClassNames(gv: Global, c: string, rest: string)
    requires IsVTable(gv) && c != "" && '.' !in c
    ensures gv.name == "_ZTV" + c ==> ClassName(gv) == c
    ensures gv.name == "_ZTV" + c + "." + rest ==> ClassName(gv) == c
  {
    FindDotIn(c, "");
    FindDotIn(c, "." + rest);
    assert c + "" == c;
    if gv.name == "_ZTV" + c + "." + rest {
      assert gv.name[4..] == c + ("." + rest);
    }
  }

  lemma {:induction false} FindDotIn(c: string, rest: string)
    requires '.' !in c && (rest == "" || rest[0] == '.')
    ensures FindDot(c + rest) == |c|
  {
    if c == "" {
      assert c + rest == rest;
    } else {
      assert (c + rest)[0] == c[0] && (c + rest)[1..] == c[1..] + rest;
      FindDotIn(c[1..], rest);
    }
  }

  /** A type entry counts if it is a string without the suffix .virtual. */
  lemma CountingEntries(t: TypeEntry)
    ensures Counts(t) <==> t.typeId.Some? && forall front: string :: t.typeId.value != front + ".virtual"
  {
    if t.typeId.Some? {
      var s := t.typeId.value;
      if EndsWith(s, ".virtual") {
        assert s == s[..|s| - 8] + ".virtual";
      }
      if front: string :| s == front + ".virtual" {
        assert s[|s| - 8..] == ".virtual";
      }
    }
  }

  /** Offsets add up as 64-bit numbers. */
  lemma OffsetsAdd(a: nat, b: nat)
    requires a < 0x1_0000_0000_0000_0000 && b < 0x1_0000_0000_0000_0000
    ensures AddOffsets(a, b) ==
      if a + b < 0x1_0000_0000_0000_0000 then a + b else a + b - 0x1_0000_0000_0000_0000
  {
  }

  /** A vtable entry with type id _ZTSb, of the vtable of class c, records the type info of
      c under that of b, and nothing else. */
  lemma EntryDerives(m: Module, g: int, t: int, b: string, c: string, base: Option<GlobalId>, derived: Option<GlobalId>)
    requires WellMangled(m) && 0 <= g < |m.globals| && 0 <= t < |m.globals[g].types|
    requires m.globals[g].name == "_ZTV" + c && c != "" && '.' !in c && !m.globals[g].publicVisibility
    requires m.globals[g].types[t].typeId == Some("_ZTS" + b) && Counts(m.globals[g].types[t])
    ensures Derives(m, g, t, base, derived) <==>
      base == m.namedGlobal("_ZTI" + b) && derived == m.namedGlobal("_ZTI" + c)
  {
    VTableNames(m.globals[g]);
    ClassNames(m.globals[g], c, "");
    assert ("_ZTS" + b)[4..] == b;
  }

  /** A virtual call may reach f exactly if some vtable entry has the type id of the call,
      the load at its address point plus the offset of the call folds to f, and f is
      defined and not pure virtual. */
  lemma CandidatesMean(m: Module, site: CallSite, f: FunctionId)
    ensures IsCandidate(m, site, f) <==>
      && m.operand(site).Loaded? && !m.isDeclaration(f) && !m.isPureVirtual(f)
      && exists g, t :: EntryLeadsTo(m, g, t, m.operand(site), f)
  {
    if m.operand(site).Loaded? {
      var typeId, offset := m.operand(site).typeId, m.operand(site).offset;
      if p :| p in Points(m, typeId, |m.globals|, 0) && Resolves(m, offset, p, f) {
        PointsMembers(m, typeId, |m.globals|, 0, p);
        var g, t :| g < |m.globals| && Compatible(m, g, t, typeId) &&
          p == (m.globals[g].id, m.globals[g].types[t].offset);
        assert EntryLeadsTo(m, g, t, m.operand(site), f);
      }
      if g, t :| EntryLeadsTo(m, g, t, m.operand(site), f) && !m.isDeclaration(f) && !m.isPureVirtual(f) {
        var p := (m.globals[g].id, m.globals[g].types[t].offset);
        assert Compatible(m, g, t, typeId);
        PointsMembers(m, typeId, |m.globals|, 0, p);
        assert Resolves(m, offset, p, f);
      }
    }
  }

  ghost predicate EntryLeadsTo(m: Module, g: int, t: int, operand: CalledOperand, f: FunctionId)
    requires operand.Loaded?
  {
    && 0 <= g < |m.globals| && IsVTable(m.globals[g]) && 0 <= t < |m.globals[g].types|
    && m.globals[g].types[t].typeId == Some(operand.typeId) && Counts(m.globals[g].types[t])
    && m.fold(m.globals[g].id, (operand.offset + m.globals[g].types[t].offset) % 0x1_0000_0000_0000_0000) == Some(f)
  }

  // ----- catching

  /** Class d is derived from class b, as the vtables say. */
  ghost predicate DerivedClass(m: Module, b: Option<GlobalId>, d: Option<GlobalId>)
    requires WellMangled(m)
  {
    exists g, t :: Derives(m, g, t, b, d)
  }

  /** A typed exception is caught by a landing pad that catches everything, its type, or a
      type it is derived from. */
  lemma TypedIsCaught(p: Setting, site: CallSite)
    requires Indexed(p) && p.exception.exceptionValue.Some?
    ensures p.Caught(site) <==>
      && p.m.unwind(site).LandingPad?
      && exists clause :: clause in p.m.unwind(site).clauses &&
           (clause.CatchAll? || Some(clause.typeInfo) == p.exception.exceptionValue ||
            DerivedClass(p.m, Some(clause.typeInfo), p.exception.exceptionValue))
  {
    forall clause: Clause
      ensures p.Catches(clause) <==>
        (clause.CatchAll? || Some(clause.typeInfo) == p.exception.exceptionValue ||
         DerivedClass(p.m, Some(clause.typeInfo), p.exception.exceptionValue))
    {
      if clause.CatchType? {
        assert At(p.derived, Some(clause.typeInfo)) == Subclasses(p.m, Some(clause.typeInfo), |p.m.globals|, 0);
        SubclassesMembers(p.m, Some(clause.typeInfo), |p.m.globals|, 0, p.exception.exceptionValue);
      }
    }
    hide Setting.Catches, DerivedClass, Indexed;
  }

  /** A foreign exception is caught by a landing pad that catches everything, or a type
      with external linkage. */
  lemma ForeignIsCaught(p: Setting, site: CallSite)
    requires p.exception.exceptionValue.None?
    ensures p.Caught(site) <==>
      && p.m.unwind(site).LandingPad?
      && exists clause :: clause in p.m.unwind(site).clauses && (clause.CatchAll? || clause.externalGlobal)
  {
  }

  // ----- unwinding

  /** The call sites of f the propagation knows: its direct users, and those the metadata
      of the module names, or if there are none the virtual calls that may reach it. */
  lemma CallersMean(p: Setting, f: FunctionId, site: CallSite)
    requires Indexed(p)
    ensures p.IsCaller(f, site) <==>
      || Call(site) in p.m.users(f)
      || NamedCall(p.m, f, site)
      || (VirtualCall(p.m, f, site) && forall other :: !NamedCall(p.m, f, other))
  {
    forall other ensures NamedCall(p.m, f, other) <==> other in At(p.callSitesMap, f) {
      SitesNamingMembers(p.m, f, |p.m.instructions|, other);
    }
    VirtualCallersMembers(p.m, f, |p.m.instructions|, site);
    if f in p.callSitesMap {
      var other := AnyOf(p.callSitesMap[f]);
      assert other in At(p.callSitesMap, f);
    }
    hide NamedCall, IsCandidate, SitesNaming, VirtualCallers, WellMangled, Subclasses;
    assert At(p.callSitesMap, f) == SitesNaming(p.m, f, |p.m.instructions|);
    assert At(p.callerMap, f) == VirtualCallers(p.m, f, |p.m.instructions|);
  }

  lemma AnyOf(s: set<CallSite>) returns (x: CallSite)
    requires s != {}
    ensures x in s
  {
    assert (forall y :: y !in s) ==> s == {};
    x :| x in s;
  }

  ghost predicate NamedCall(m: Module, f: FunctionId, site: CallSite) {
    exists n :: 0 <= n < |m.instructions| && Names(m, n, f, site)
  }

  ghost predicate VirtualCall(m: Module, f: FunctionId, site: CallSite) {
    && IsCandidate(m, site, f)
    && exists n :: 0 <= n < |m.instructions| && m.instructions[n].CallInstruction? && m.instructions[n].site == site
  }

  /** The exception passes the throw site, and on from any site outside main it passes the
      callers of that site's function that do not catch it; nothing else. */
  lemma PassedSites(p: Setting, site: CallSite)
    ensures p.Reaches(site) <==>
      || site == p.exception.throwSite
      || exists from :: p.Reaches(from) && !p.m.isMain(p.m.enclosing(from)) &&
                        p.IsCaller(p.m.enclosing(from), site) && !p.Caught(site)
  {
    p.ReachesStart();
    if p.Reaches(site) && site != p.exception.throwSite {
      var path :| p.Chain(path) && path[|path| - 1] == site;
      var n := |path| - 1;
      assert p.Unwinds(path[n - 1], path[n]);
      assert p.Chain(path[..n]) && path[..n][n - 1] == path[n - 1];
      assert p.Reaches(path[n - 1]);
    }
    if from :| p.Reaches(from) && !p.m.isMain(p.m.enclosing(from)) &&
               p.IsCaller(p.m.enclosing(from), site) && !p.Caught(site) {
      p.ReachesNext(from, site);
    }
  }

  /** The exception leaks if it passes a call site in main; main's only child is the leak
      node, and the children of any other function it passes are all functions that call it. */
  lemma DrawnGraph(p: Setting, f: FunctionId, g: FunctionId)
    ensures p.Leaks() <==> exists site :: p.Reaches(site) && p.m.isMain(p.m.enclosing(site))
    ensures p.m.isMain(f) ==>
      (p.IsChild(f, g) <==> g == p.leakNode && exists site :: p.Reaches(site) && p.m.enclosing(site) == f)
    ensures !p.m.isMain(f) ==>
      (p.IsChild(f, g) <==>
         (exists site :: p.Reaches(site) && p.m.enclosing(site) == f) &&
         exists site :: p.IsCaller(f, site) && p.m.enclosing(site) == g)
  {
  }

  /** The calls reported on: those of the tracked functions that are not made from a
      function that initialises globals. */
  lemma {:induction false} ThrowingCalls(m: Module, t: Tracking, n: nat, site: CallSite)
    requires n <= |t.functions|
    ensures site in ThrowSites(m, t, n) <==>
      !t.isGlobalInit(m.enclosing(site)) && exists k :: 0 <= k < n && Call(site) in m.users(t.functions[k])
  {
    if n > 0 {
      var f := t.functions[n - 1];
      ThrowingCalls(m, t, n - 1, site);
      ThrowingCallsOf(m, t, f, |m.users(f)|, site);
      assert m.users(f)[..|m.users(f)|] == m.users(f);
    }
  }

  lemma {:induction false} ThrowingCallsOf(m: Module, t: Tracking, f: FunctionId, k: nat, site: CallSite)
    requires k <= |m.users(f)|
    ensures site in ThrowingUsers(m, t, f, k) <==>
      !t.isGlobalInit(m.enclosing(site)) && Call(site) in m.users(f)[..k]
  {
    if k > 0 {
      ThrowingCallsOf(m, t, f, k - 1, site);
      assert m.users(f)[..k] == m.users(f)[..k - 1] + [m.users(f)[k - 1]];
    }
  }

  // ----- two classes

  const BASE: GlobalId := 1
  const DERIVED: GlobalId := 2

  /** Class Base and class Derived, derived from it. Function 1 throws at call site 1; main,
      0, calls it at site 2, where it catches one type. */
  function TwoClasses(caught: GlobalId): Module {
    Module([Global(10, false, "_ZTV4Base", [TypeEntry(16, Some("_ZTS4Base"))]),
            Global(11, false, "_ZTV7Derived",
                   [TypeEntry(16, Some("_ZTS4Base")), TypeEntry(16, Some("_ZTS7Derived"))])],
           [CallInstruction(1, []), CallInstruction(2, [])], {1, 2},
           name => if name == "_ZTI4Base" then Some(BASE) else if name == "_ZTI7Derived" then Some(DERIVED) else None,
           s => if s == 1 then 1 else 0,
           s => if s == 2 then LandingPad([CatchType(caught, false)]) else NotInvoke, _ => NotALoad,
           f => if f == 1 then [Call(2)] else [], f => f == 0, _ => false, _ => false, (_, _) => None)
  }

  lemma TwoClassesAreFine(caught: GlobalId)
    ensures var m := TwoClasses(caught);
      && m.Valid() && WellMangled(m)
      && IsVTable(m.globals[0]) && IsVTable(m.globals[1])
      && Counts(m.globals[0].types[0]) && Counts(m.globals[1].types[0]) && Counts(m.globals[1].types[1])
  {
    assert "_ZTV4Base"[..4] == "_ZTV7Derived"[..4] == "_ZTV";
    assert "_ZTS4Base"[..4] == "_ZTS7Derived"[..4] == "_ZTS";
    assert "_ZTS7Derived"[|"_ZTS7Derived"| - 8..][0] == '7' && "_ZTS4Base"[|"_ZTS4Base"| - 8..][0] == 'Z';
  }

  /** What the three type entries of the module record. */
  lemma EntriesOfTwo(caught: GlobalId, g: int, t: int, base: Option<GlobalId>, derived: Option<GlobalId>)
    requires WellMangled(TwoClasses(caught))
    ensures Derives(TwoClasses(caught), g, t, base, derived) <==>
      || (g == 0 && t == 0 && base == Some(BASE) && derived == Some(BASE))
      || (g == 1 && t == 0 && base == Some(BASE) && derived == Some(DERIVED))
      || (g == 1 && t == 1 && base == Some(DERIVED) && derived == Some(DERIVED))
  {
    var m := TwoClasses(caught);
    TwoClassesAreFine(caught);
    MangledNames();
    if g == 0 && t == 0 {
      EntryDerives(m, 0, 0, "4Base", "4Base", base, derived);
    } else if g == 1 && t == 0 {
      EntryDerives(m, 1, 0, "4Base", "7Derived", base, derived);
    } else if g == 1 && t == 1 {
      EntryDerives(m, 1, 1, "7Derived", "7Derived", base, derived);
    }
    hide BaseOf, TypeInfoOf, IsVTable, Counts;
  }

  /** The vtables say that Derived is derived from Base, and not the other way round. */
  lemma DerivedFromBase(caught: GlobalId)
    requires WellMangled(TwoClasses(caught))
    ensures DerivedClass(TwoClasses(caught), Some(BASE), Some(DERIVED))
    ensures !DerivedClass(TwoClasses(caught), Some(DERIVED), Some(BASE))
  {
    hide TwoClasses, WellMangled, Derives;
    EntriesOfTwo(caught, 1, 0, Some(BASE), Some(DERIVED));
    forall g, t ensures !Derives(TwoClasses(caught), g, t, Some(DERIVED), Some(BASE)) {
      EntriesOfTwo(caught, g, t, Some(DERIVED), Some(BASE));
    }
  }

  lemma MangledNames()
    ensures "_ZTV" + "4Base" == "_ZTV4Base" && "_ZTV" + "7Derived" == "_ZTV7Derived"
    ensures "_ZTS" + "4Base" == "_ZTS4Base" && "_ZTS" + "7Derived" == "_ZTS7Derived"
    ensures "_ZTI" + "4Base" == "_ZTI4Base" && "_ZTI" + "7Derived" == "_ZTI7Derived"
    ensures "_ZTI4Base" != "_ZTI7Derived"
  {
    assert |"_ZTI4Base"| != |"_ZTI7Derived"|;
  }

  /** A thrown Derived is caught by catch (Base&), */
  lemma BaseCatchesDerived(p: Setting)
    requires p.m == TwoClasses(BASE) && Indexed(p) && p.exception == CurrentException(1, Some(DERIVED))
    ensures p.Caught(2) && !p.Leaks()
  {
    DerivedFromBase(BASE);
    TypedIsCaught(p, 2);
    assert CatchType(BASE, false) in p.m.unwind(2).clauses;
    hide Indexed, Setting.Caught, DerivedClass;
    OnlyCallerIsMain(p);
    if p.Reaches(2) {
      PassedSites(p, 2);
    }
    forall site | p.Reaches(site) ensures site == 1 || site == 2 {
      PassedSites(p, site);
    }
  }

  /** and a thrown Base is not caught by catch (Derived&). */
  lemma DerivedMissesBase(p: Setting)
    requires p.m == TwoClasses(DERIVED) && Indexed(p) && p.exception == CurrentException(1, Some(BASE))
    ensures !p.Caught(2) && p.Leaks()
  {
    DerivedFromBase(DERIVED);
    TypedIsCaught(p, 2);
    hide Indexed, Setting.Caught, DerivedClass;
    PassedSites(p, 1);
    PassedSites(p, 2);
    assert Call(2) in p.m.users(1) && p.IsCaller(1, 2);
  }

  lemma OnlyCallerIsMain(p: Setting)
    requires p.m == TwoClasses(BASE) && Indexed(p)
    ensures forall site :: p.IsCaller(1, site) ==> site == 2
  {
    forall site | p.IsCaller(1, site) ensures site == 2 {
      CallersMean(p, 1, site);
    }
  }
}
