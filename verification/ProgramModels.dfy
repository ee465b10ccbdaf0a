/** The part of an LLVM module the exception analysis looks at, as a value. */
module ProgramModels {
  type FunctionId = int
  type CallSite = int
  type GlobalId = int

  datatype Option<+T> = None | Some(value: T)

  /** A clause of a landing pad: a null pointer catches everything, anything else
      is a type info, possibly a global variable with external linkage. */
  datatype Clause = CatchAll | CatchType(typeInfo: GlobalId, externalGlobal: bool)

  /** How a call site is protected: a plain call, an invoke whose unwind
      destination has no landing pad, or an invoke with the pad's clauses. */
  datatype Unwind = NotInvoke | NoLandingPad | LandingPad(clauses: seq<Clause>)

  /** A user of a function is a call site or something else. */
  datatype User = Call(site: CallSite) | OtherUser

  /** What the called operand of a call site is: not a load, or a load from an
      object at some offset, with the type id its type test names ("" if none). */
  datatype CalledOperand = NotALoad | Loaded(typeId: string, offset: nat)

  /** A type metadata entry of a global: its offset and, if it is a string, its id. */
  datatype TypeEntry = TypeEntry(offset: nat, typeId: Option<string>)

  datatype Global = Global(id: GlobalId, publicVisibility: bool, name: string, types: seq<TypeEntry>)

  /** A call instruction: its site, and the functions its callees metadata names. */
  datatype Instruction = NotACall | CallInstruction(site: CallSite, callees: seq<Option<FunctionId>>)

  datatype Module = Module(
    globals: seq<Global>,
    instructions: seq<Instruction>,
    sites: set<CallSite>,
    namedGlobal: string -> Option<GlobalId>,
    enclosing: CallSite -> FunctionId,
    unwind: CallSite -> Unwind,
    operand: CallSite -> CalledOperand,
    users: FunctionId -> seq<User>,
    isMain: FunctionId -> bool,
    isDeclaration: FunctionId -> bool,
    isPureVirtual: FunctionId -> bool,
    fold: (GlobalId, nat) -> Option<FunctionId>)
  {
    /** Every call site mentioned anywhere is one of the finitely many sites. */
    ghost predicate Valid() {
      && (forall f, i :: 0 <= i < |users(f)| && users(f)[i].Call? ==> users(f)[i].site in sites)
      && (forall i :: 0 <= i < |instructions| && instructions[i].CallInstruction? ==> instructions[i].site in sites)
    }
  }

  /** The entry of a map of sets, empty if there is none. */
  ghost function At<K, V>(m: map<K, set<V>>, k: K): set<V> {
    if k in m then m[k] else {}
  }

  /** operator[] of a map of sets followed by insert. */
  function Insert<K(!new), V>(m: map<K, set<V>>, k: K, v: V): (r: map<K, set<V>>)
    ensures forall j :: j in r <==> j in m || j == k
    ensures forall j :: j in m && j != k ==> r[j] == m[j]
    ensures At(r, k) == At(m, k) + {v}
  {
    m[k := (if k in m then m[k] else {}) + {v}]
  }

  /** The elements of a set in some order. */
  method Enumerate<T(==,!new)>(s: set<T>) returns (q: seq<T>)
    ensures forall x :: x in q <==> x in s
    ensures |q| == |s|
  {
    q := [];
    var rest := s;
    while rest != {}
      invariant rest <= s && |q| + |rest| == |s|
      invariant forall x :: x in q <==> x in s && x !in rest
      decreases |rest|
    {
      var x :| x in rest;
      q := q + [x];
      rest := rest - {x};
    }
  }
}
