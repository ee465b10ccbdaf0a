/** The lazily initialised static mutex of gtest-port.cc, as a state machine in
    which any number of threads interleave their single memory operations. */
module LazyMutexes {

  /** Thread ids; 0 is nobody's. */
  type Tid = int

  datatype Operation = Lock | Unlock | AssertHeld

  /** Where a thread is: outside, in ThreadSafeLazyInit, or past it. */
  datatype Pc =
    | Idle
    | FirstExchange(op: Operation)
    | ClearOwner(op: Operation)
    | Allocate(op: Operation)
    | InitSection(op: Operation)
    | Publish(op: Operation)
    | Spin(op: Operation)
    | Ready(op: Operation)
    | SetOwner
    | LeaveSection
    | AssertionFailed
    | CheckFailed

  /** The shared fields of the mutex, the critical section it points to (its holder
      and how often the holder entered it), and the threads. The last two fields are
      history: whether anyone ever entered a section it already held, and whether an
      Unlock has cleared the owner since a Lock last wrote it. */
  datatype State = State(
    phase: int,
    owner: Tid,
    allocations: nat,
    initialisations: nat,
    holder: Tid,
    depth: nat,
    pc: map<Tid, Pc>,
    recursed: bool,
    unlocked: bool)
  {
    function At(t: Tid, p: Pc): State { this.(pc := pc[t := p]) }
  }

  /** A static mutex nobody has used. */
  ghost predicate Initial(s: State) {
    && s.phase == 0 && s.owner == 0 && s.allocations == 0 && s.initialisations == 0
    && s.holder == 0 && s.depth == 0 && !s.recursed && !s.unlocked
    && 0 !in s.pc && forall t :: t in s.pc ==> s.pc[t] == Idle
  }

  /** A thread calls an operation; only the holder may unlock. */
  ghost predicate Call(s: State, t: Tid, op: Operation, s': State) {
    && t in s.pc && s.pc[t] == Idle && (op == Unlock ==> s.holder == t)
    && s' == s.At(t, FirstExchange(op))
  }

  /** t has a next operation, and it does not block. EnterCriticalSection blocks
      while another thread holds the section. */
  ghost predicate Enabled(s: State, t: Tid) {
    t in s.pc &&
    match s.pc[t]
    case Ready(op) => op == Lock ==> s.holder == 0 || s.holder == t
    case LeaveSection => s.depth > 0
    case _ => !s.pc[t].Idle? && !s.pc[t].AssertionFailed? && !s.pc[t].CheckFailed?
  }

  /** The state after the next operation of t on shared memory. */
  ghost function After(s: State, t: Tid): State
    requires t in s.pc
  {
    match s.pc[t]
    case FirstExchange(op) =>
      // InterlockedCompareExchange(&phase, 1, 0)
      if s.phase == 0 then s.(phase := 1).At(t, ClearOwner(op))
      else s.At(t, if s.phase == 1 then Spin(op) else if s.phase == 2 then Ready(op) else CheckFailed)
    case ClearOwner(op) => s.(owner := 0).At(t, Allocate(op))
    case Allocate(op) => s.(allocations := s.allocations + 1).At(t, InitSection(op))
    case InitSection(op) => s.(initialisations := s.initialisations + 1, holder := 0, depth := 0).At(t, Publish(op))
    case Publish(op) =>
      // GTEST_CHECK_(InterlockedCompareExchange(&phase, 2, 1) == 1)
      if s.phase == 1 then s.(phase := 2).At(t, Ready(op)) else s.At(t, CheckFailed)
    case Spin(op) =>
      // InterlockedCompareExchange(&phase, 2, 2)
      if s.phase == 2 then s.At(t, Ready(op)) else s
    case Ready(op) =>
      if op == Lock then
        s.(holder := t, depth := s.depth + 1, recursed := s.recursed || s.holder == t).At(t, SetOwner)
      else if op == Unlock then s.(owner := 0, unlocked := true).At(t, LeaveSection)
      else s.At(t, if s.owner == t then Idle else AssertionFailed)
    case SetOwner => s.(owner := t, unlocked := false).At(t, Idle)
    case LeaveSection =>
      if s.depth == 0 then s else s.(depth := s.depth - 1, holder := if s.depth == 1 then 0 else s.holder).At(t, Idle)
    case _ => s
  }

  /** Thread t executes its next operation. */
  ghost predicate Move(s: State, t: Tid, s': State) {
    Enabled(s, t) && s' == After(s, t)
  }

  ghost predicate Next(s: State, s': State) {
    (exists t :: Move(s, t, s')) || (exists t, op :: Call(s, t, op, s'))
  }

  /** An interleaving of any length. */
  ghost predicate Execution(states: seq<State>) {
    && states != [] && Initial(states[0])
    && forall i :: 0 <= i < |states| - 1 ==> Next(states[i], states[i + 1])
  }

  // ----- the inductive invariant

  predicate Initialising(p: Pc) { p.ClearOwner? || p.Allocate? || p.InitSection? || p.Publish? }

  predicate PastInit(p: Pc) { p.Ready? || p.SetOwner? || p.LeaveSection? }

  /** p is somewhere in a call of Unlock. */
  predicate Unlocking(p: Pc) {
    match p
    case FirstExchange(op) => op == Unlock case ClearOwner(op) => op == Unlock case Allocate(op) => op == Unlock
    case InitSection(op) => op == Unlock case Publish(op) => op == Unlock case Spin(op) => op == Unlock
    case Ready(op) => op == Unlock
    case LeaveSection => true
    case _ => false
  }

  ghost predicate Inv(s: State) {
    InitInv(s) && HolderInv(s)
  }

  /** How far initialisation has got. */
  ghost predicate InitInv(s: State) {
    && 0 !in s.pc && 0 <= s.phase <= 2
    // Phase 0: nobody has got past the first exchange.
    && (s.phase == 0 ==> forall t :: t in s.pc ==> !Initialising(s.pc[t]) && !s.pc[t].Spin?)
    // Phase 1: one thread initialises, and its position says how far it got.
    && (s.phase == 1 ==> exists t :: t in s.pc && Initialising(s.pc[t]))
    && (forall t, u :: t in s.pc && u in s.pc && Initialising(s.pc[t]) && Initialising(s.pc[u]) ==> t == u)
    && (forall t :: t in s.pc && Initialising(s.pc[t]) ==>
          && s.phase == 1
          && s.allocations == (if s.pc[t].ClearOwner? || s.pc[t].Allocate? then 0 else 1)
          && s.initialisations == (if s.pc[t].Publish? then 1 else 0))
    && (s.phase == 0 ==> s.allocations == s.initialisations == 0)
    && (s.phase == 2 ==> s.allocations == s.initialisations == 1)
    // Before phase 2 nobody is past initialisation, holds or owns anything.
    && (s.phase != 2 ==> s.holder == 0 && s.owner == 0 && forall t :: t in s.pc ==> !PastInit(s.pc[t]))
    && (forall t :: t in s.pc ==> !s.pc[t].CheckFailed?)
  }

  /** The holder, its depth, and the owner field. */
  ghost predicate HolderInv(s: State) {
    && (s.depth > 0 <==> s.holder != 0) && (s.holder != 0 ==> s.holder in s.pc)
    && (s.owner != 0 ==> s.owner == s.holder)
    && (forall t :: t in s.pc && (Unlocking(s.pc[t]) || s.pc[t].SetOwner?) ==> s.holder == t)
    && (forall t :: t in s.pc && s.pc[t].LeaveSection? ==> s.owner == 0)
    // The owner field names the holder unless an Unlock has cleared it; without
    // recursive locking that holder is about to leave.
    && (s.holder != 0 && !s.pc[s.holder].SetOwner? ==> (s.owner == s.holder <==> !s.unlocked))
    && (!s.recursed ==> s.depth <= 1)
    && (!s.recursed && s.holder != 0 && !s.pc[s.holder].SetOwner? && !s.pc[s.holder].LeaveSection? ==> !s.unlocked)
  }

  lemma InitialInv(s: State)
    requires Initial(s)
    ensures Inv(s)
  {
  }

  lemma CallKeepsInv(s: State, t: Tid, op: Operation, s': State)
    requires Inv(s) && Call(s, t, op, s')
    ensures Inv(s')
  {
    if s.phase == 1 {
      var u :| u in s.pc && Initialising(s.pc[u]);
      assert u in s'.pc && Initialising(s'.pc[u]);
    }
  }

  /** The exchanges: the first thread to arrive starts the initialisation, later
      ones wait for it or find it done. */
  lemma ExchangeKeepsInv(s: State, t: Tid, s': State)
    requires Inv(s) && Move(s, t, s') && (s.pc[t].FirstExchange? || s.pc[t].Spin?)
    ensures Inv(s')
  {
    ExchangeKeepsHolder(s, t, s');
    if s.phase == 0 {
      ArrivalKeepsInit(s, t, s');
    } else {
      WaitingKeepsInit(s, t, s');
    }
    hide InitInv, HolderInv, Move;
  }

  lemma ArrivalKeepsInit(s: State, t: Tid, s': State)
    requires InitInv(s) && Move(s, t, s') && s.pc[t].FirstExchange? && s.phase == 0
    ensures InitInv(s')
  {
    assert t in s'.pc && Initialising(s'.pc[t]);
  }

  lemma WaitingKeepsInit(s: State, t: Tid, s': State)
    requires InitInv(s) && Move(s, t, s') && (s.pc[t].FirstExchange? || s.pc[t].Spin?) && s.phase != 0
    ensures InitInv(s')
  {
    var p := s'.pc[t];
    assert s' == s.At(t, p) && !Initialising(p) && !Initialising(s.pc[t]);
    hide Move;
    if s.phase == 1 {
      var u :| u in s.pc && Initialising(s.pc[u]);
      assert u in s'.pc && Initialising(s'.pc[u]);
    }
  }

  lemma ExchangeKeepsHolder(s: State, t: Tid, s': State)
    requires HolderInv(s) && Move(s, t, s') && (s.pc[t].FirstExchange? || s.pc[t].Spin?)
    ensures HolderInv(s')
  {
  }

  /** The steps of the initialising thread. */
  lemma InitMoveKeepsInv(s: State, t: Tid, s': State)
    requires Inv(s) && Move(s, t, s') && Initialising(s.pc[t])
    ensures Inv(s')
  {
    InitMoveKeepsHolder(s, t, s');
    hide HolderInv;
    assert !s.pc[t].Publish? ==> t in s'.pc && Initialising(s'.pc[t]);
  }

  lemma InitMoveKeepsHolder(s: State, t: Tid, s': State)
    requires Inv(s) && Move(s, t, s') && Initialising(s.pc[t])
    ensures HolderInv(s')
  {
  }

  /** Entering and leaving the section, and writing the owner field. */
  lemma SectionMoveKeepsInv(s: State, t: Tid, s': State)
    requires Inv(s) && Move(s, t, s') && (s.pc[t].SetOwner? || s.pc[t].LeaveSection?)
    ensures Inv(s')
  {
  }

  lemma ReadyMoveKeepsInv(s: State, t: Tid, s': State)
    requires Inv(s) && Move(s, t, s') && s.pc[t].Ready?
    ensures Inv(s')
  {
    ReadyMoveKeepsHolder(s, t, s');
    hide HolderInv;
  }

  lemma ReadyMoveKeepsHolder(s: State, t: Tid, s': State)
    requires HolderInv(s) && 0 !in s.pc && Move(s, t, s') && s.pc[t].Ready?
    ensures HolderInv(s')
  {
  }

  lemma MoveKeepsInv(s: State, t: Tid, s': State)
    requires Inv(s) && Move(s, t, s')
    ensures Inv(s')
  {
    hide Inv, Move;
    MoverKinds(s, t, s');
    if s.pc[t].Ready? {
      ReadyMoveKeepsInv(s, t, s');
    } else if PastInit(s.pc[t]) {
      SectionMoveKeepsInv(s, t, s');
    } else if Initialising(s.pc[t]) {
      InitMoveKeepsInv(s, t, s');
    } else {
      ExchangeKeepsInv(s, t, s');
    }
  }

  lemma MoverKinds(s: State, t: Tid, s': State)
    requires Move(s, t, s')
    ensures t in s.pc && (PastInit(s.pc[t]) || Initialising(s.pc[t]) || s.pc[t].FirstExchange? || s.pc[t].Spin?)
  {
  }

  lemma {:induction false} ExecutionInv(states: seq<State>, i: nat)
    requires Execution(states) && i < |states|
    ensures Inv(states[i])
  {
    if i == 0 {
      InitialInv(states[0]);
    } else {
      ExecutionInv(states, i - 1);
      var s, s' := states[i - 1], states[i];
      assert Next(s, s');
      if t :| Move(s, t, s') {
        MoveKeepsInv(s, t, s');
      } else {
        var t, op :| Call(s, t, op, s');
        CallKeepsInv(s, t, op, s');
      }
    }
  }

  // ----- what it means for every execution

  /** At every moment: the section has been allocated and initialised at most once,
      and exactly once wherever a thread may touch it; nobody is past initialisation
      before phase 2; a non-zero owner is the thread that holds the section; the
      thread clearing the owner during initialisation erases nobody; the check that
      the phase was still 1 has not failed. */
  lemma AlwaysSafe(states: seq<State>, i: nat)
    requires Execution(states) && i < |states|
    ensures var s := states[i];
      && s.allocations <= 1 && s.initialisations <= s.allocations
      && (s.phase == 2 <==> s.initialisations == 1 && forall t :: t in s.pc ==> !Initialising(s.pc[t]))
      && (forall t :: t in s.pc && PastInit(s.pc[t]) ==> s.phase == 2 && s.initialisations == 1)
      && (s.holder != 0 ==> s.phase == 2)
      && (s.owner != 0 ==> s.owner == s.holder)
      && (forall t :: t in s.pc && s.pc[t].ClearOwner? ==> s.holder == 0 && s.owner == 0)
      && (forall t :: t in s.pc ==> !s.pc[t].CheckFailed?)
  {
    ExecutionInv(states, i);
    var s := states[i];
    if s.phase == 1 {
      var t :| t in s.pc && Initialising(s.pc[t]);
    }
  }

  lemma NextPhase(s: State, s': State)
    requires Inv(s) && Next(s, s')
    ensures s.phase <= s'.phase
  {
    if t :| Move(s, t, s') {
      assert s.phase <= s'.phase;
    } else {
      var t, op :| Call(s, t, op, s');
    }
  }

  lemma ExecutionNext(states: seq<State>, i: nat)
    requires Execution(states) && i + 1 < |states|
    ensures Next(states[i], states[i + 1])
  {
  }

  lemma InvPhase(s: State)
    requires Inv(s)
    ensures s.phase <= 2 && (s.phase == 2 ==> s.allocations == s.initialisations == 1)
  {
  }

  /** The phase never goes back, so initialisation happens once for good. */
  lemma {:induction false} PhaseGrows(states: seq<State>, i: nat, j: nat)
    requires Execution(states) && i <= j < |states|
    ensures states[i].phase <= states[j].phase
    ensures states[i].phase == 2 ==> states[j].allocations == states[j].initialisations == 1
    decreases j - i
  {
    hide Next, Inv, Execution;
    ExecutionInv(states, j);
    InvPhase(states[j]);
    if i < j {
      PhaseGrows(states, i, j - 1);
      ExecutionInv(states, j - 1);
      ExecutionNext(states, j - 1);
      NextPhase(states[j - 1], states[j]);
    }
  }

  /** Only the holder changes the owner field once the mutex is initialised, and
      nobody enters a section another thread holds. */
  lemma OnlyHolderWrites(states: seq<State>, i: nat, t: Tid, s': State)
    requires Execution(states) && i < |states| && Move(states[i], t, s')
    ensures var s := states[i];
      && (s.phase == 2 && s'.owner != s.owner ==> s.holder == t)
      && (s'.holder != s.holder ==> (s.holder == 0 && s'.holder == t) || (s.holder == t && s'.holder == 0))
  {
    ExecutionInv(states, i);
  }

  /** AssertHeld passes if and only if the caller holds the section and has not
      unlocked since its last completed Lock; else it fails. Without recursive locking
      the holder always passes. */
  lemma AssertHeldDecides(states: seq<State>, i: nat, t: Tid, s': State)
    requires Execution(states) && i < |states|
    requires t in states[i].pc && states[i].pc[t] == Ready(AssertHeld) && Move(states[i], t, s')
    ensures s'.pc[t] == Idle <==> states[i].holder == t && !states[i].unlocked
    ensures s'.pc[t] == Idle || s'.pc[t] == AssertionFailed
    ensures states[i].holder == t && !states[i].recursed ==> s'.pc[t] == Idle
  {
    ExecutionInv(states, i);
  }

  /** Thread t goes on from p in the step from s to s'. */
  ghost predicate MoveFrom(s: State, t: Tid, p: Pc, s': State) {
    Move(s, t, s') && s.pc[t] == p
  }

  /** A thread starts to unlock in the step from s to s'. */
  ghost predicate StartsUnlock(s: State, s': State) {
    exists t :: MoveFrom(s, t, Ready(Unlock), s')
  }

  /** A thread completes a Lock in the step from s to s'. */
  ghost predicate CompletesLock(s: State, s': State) {
    exists t :: MoveFrom(s, t, SetOwner, s')
  }

  /** A thread started to unlock in step k, and no Lock was completed from then to i. */
  ghost predicate UnlockedSince(states: seq<State>, k: nat, i: nat)
    requires k < i < |states|
  {
    StartsUnlock(states[k], states[k + 1]) && forall j :: k < j < i ==> !CompletesLock(states[j], states[j + 1])
  }

  ghost predicate UnlockedBefore(states: seq<State>, i: nat)
    requires i < |states|
  {
    exists k: nat :: k < i && UnlockedSince(states, k, i)
  }

  /** The history field in terms of the execution: some thread started to unlock, and
      no Lock has been completed since. */
  lemma {:induction false} UnlockedMeans(states: seq<State>, i: nat)
    requires Execution(states) && i < |states|
    ensures states[i].unlocked <==> UnlockedBefore(states, i)
  {
    if i > 0 {
      UnlockedMeans(states, i - 1);
      ExecutionNext(states, i - 1);
      hide Execution, Next, StartsUnlock, CompletesLock, UnlockedBefore;
      UnlockedStep(states[i - 1], states[i]);
      UnlockedSinceStep(states, i - 1);
    }
  }

  lemma UnlockedSinceStep(states: seq<State>, n: nat)
    requires n + 1 < |states|
    ensures UnlockedBefore(states, n + 1) <==>
      StartsUnlock(states[n], states[n + 1]) || (UnlockedBefore(states, n) && !CompletesLock(states[n], states[n + 1]))
  {
    hide StartsUnlock, CompletesLock;
    if StartsUnlock(states[n], states[n + 1]) {
      assert UnlockedSince(states, n, n + 1);
    }
    if k: nat :| k < n && UnlockedSince(states, k, n) {
      assert !CompletesLock(states[n], states[n + 1]) ==> UnlockedSince(states, k, n + 1);
    }
    var i := n + 1;
    if k: nat :| k < i && UnlockedSince(states, k, i) {
      assert k < n ==> !CompletesLock(states[n], states[n + 1]) && UnlockedSince(states, k, n);
    }
  }

  lemma UnlockedStep(s: State, s': State)
    requires Next(s, s')
    ensures s'.unlocked == (StartsUnlock(s, s') || (s.unlocked && !CompletesLock(s, s')))
    ensures !(StartsUnlock(s, s') && CompletesLock(s, s'))
  {
    if t :| Move(s, t, s') {
      assert MoveFrom(s, t, s.pc[t], s');
    } else {
      var t, op :| Call(s, t, op, s');
    }
  }

  // ----- progress

  /** Nobody waits for nothing: while some thread is inside an operation, some
      thread can take a step that changes the state, unless a thread waits for a
      section whose holder is not executing any operation of the mutex. */
  lemma NoDeadlock(s: State, t: Tid)
    requires Inv(s) && t in s.pc && !s.pc[t].Idle? && !s.pc[t].AssertionFailed?
    ensures (exists u, s' :: Move(s, u, s') && s' != s) ||
      (s.holder != 0 && s.holder in s.pc && (s.pc[s.holder].Idle? || s.pc[s.holder].AssertionFailed?))
  {
    var u := t;
    if s.pc[t].Spin? && s.phase == 1 {
      u :| u in s.pc && Initialising(s.pc[u]);
    } else if s.pc[t] == Ready(Lock) && s.holder != 0 {
      u := s.holder;
    }
    if !s.pc[u].Idle? && !s.pc[u].AssertionFailed? {
      var s' := After(s, u);
      assert Move(s, u, s');
    }
  }

  ghost function StepsLeft(p: Pc): nat {
    match p
    case ClearOwner(_) => 4 case Allocate(_) => 3 case InitSection(_) => 2 case Publish(_) => 1
    case _ => 0
  }

  /** The initialising thread needs no one: at most four steps of its own, never
      blocked, bring the mutex to phase 2; steps of others do not set it back. */
  lemma {:induction false} InitialiserFinishes(s: State, t: Tid) returns (path: seq<State>)
    requires Inv(s) && t in s.pc && Initialising(s.pc[t])
    ensures path != [] && path[0] == s && |path| == StepsLeft(s.pc[t]) + 1
    ensures forall i :: 0 <= i < |path| - 1 ==> Move(path[i], t, path[i + 1])
    ensures path[|path| - 1].phase == 2
    decreases StepsLeft(s.pc[t])
  {
    var s' := After(s, t);
    assert Move(s, t, s');
    if s.pc[t].Publish? {
      path := [s, s'];
    } else {
      MoveKeepsInv(s, t, s');
      path := InitialiserFinishes(s', t);
      path := [s] + path;
    }
  }

  lemma OthersDoNotInterfere(s: State, t: Tid, u: Tid, s': State)
    requires Inv(s) && t in s.pc && Initialising(s.pc[t]) && u != t && Move(s, u, s')
    ensures t in s'.pc && s'.pc[t] == s.pc[t] && s'.phase == 1
    ensures s'.owner == s.owner && s'.allocations == s.allocations && s'.initialisations == s.initialisations
  {
  }

  // ----- recursive locking

  ghost predicate Reachable(s: State) {
    exists states :: Execution(states) && states[|states| - 1] == s
  }

  lemma ReachInitial(s: State)
    requires Initial(s)
    ensures Reachable(s)
  {
    assert Execution([s]) && [s][|[s]| - 1] == s;
  }

  lemma ReachNext(s: State, s': State)
    requires Reachable(s) && Next(s, s')
    ensures Reachable(s')
  {
    var states :| Execution(states) && states[|states| - 1] == s;
    assert Execution(states + [s']);
  }

  lemma ReachMove(s: State, t: Tid, s': State)
    requires Reachable(s) && Enabled(s, t) && s' == After(s, t)
    ensures Reachable(s')
  {
    assert Move(s, t, s');
    ReachNext(s, s');
  }

  lemma ReachCall(s: State, t: Tid, op: Operation, s': State)
    requires Reachable(s) && Call(s, t, op, s')
    ensures Reachable(s')
  {
    ReachNext(s, s');
  }

  /** A mutex with a single thread, as the first Lock finds and leaves it. */
  function Alone(phase: int, owner: Tid, allocations: nat, initialisations: nat, p: Pc): State {
    State(phase, owner, allocations, initialisations, 0, 0, map[1 := p], false, false)
  }

  lemma FirstExchangeWins() returns (s: State)
    ensures s == Alone(1, 0, 0, 0, ClearOwner(Lock)) && Reachable(s)
  {
    var s0 := Alone(0, 0, 0, 0, Idle);
    ReachInitial(s0);
    var s1 := Alone(0, 0, 0, 0, FirstExchange(Lock));
    ReachCall(s0, 1, Lock, s1);
    s := Alone(1, 0, 0, 0, ClearOwner(Lock));
    ReachMove(s1, 1, s);
  }

  /** The first Lock of a lone thread goes through the whole initialisation. */
  lemma FirstLockInitialises() returns (s: State)
    ensures s == Alone(1, 0, 1, 1, Publish(Lock)) && Reachable(s)
  {
    var s2 := FirstExchangeWins();
    hide Reachable;
    var s3 := Alone(1, 0, 0, 0, Allocate(Lock));
    ReachMove(s2, 1, s3);
    var s4 := Alone(1, 0, 1, 0, InitSection(Lock));
    ReachMove(s3, 1, s4);
    s := Alone(1, 0, 1, 1, Publish(Lock));
    ReachMove(s4, 1, s);
  }

  lemma FirstLock() returns (s: State)
    ensures s == State(2, 1, 1, 1, 1, 1, map[1 := Idle], false, false) && Reachable(s)
  {
    hide Reachable;
    var s5 := FirstLockInitialises();
    var s6 := Alone(2, 0, 1, 1, Ready(Lock));
    ReachMove(s5, 1, s6);
    var s7 := State(2, 0, 1, 1, 1, 1, map[1 := SetOwner], false, false);
    ReachMove(s6, 1, s7);
    s := State(2, 1, 1, 1, 1, 1, map[1 := Idle], false, false);
    ReachMove(s7, 1, s);
  }

  /** With recursion the owner field is not reliable: after locking twice and
      unlocking once a thread still holds the section, but the owner is 0. */
  lemma RecursionForgetsOwner() returns (s: State)
    ensures Reachable(s) && 1 in s.pc && s.pc[1] == Idle && s.holder == 1 && s.depth == 1 && s.owner == 0
  {
    var s0 := FirstLock();
    hide Reachable;
    var s1 := s0.At(1, FirstExchange(Lock));
    ReachCall(s0, 1, Lock, s1);
    var s2 := s0.At(1, Ready(Lock));
    ReachMove(s1, 1, s2);
    var s3 := State(2, 1, 1, 1, 1, 2, map[1 := SetOwner], true, false);
    ReachMove(s2, 1, s3);
    var s4 := s3.At(1, Idle);
    ReachMove(s3, 1, s4);
    var s5 := s4.At(1, FirstExchange(Unlock));
    ReachCall(s4, 1, Unlock, s5);
    var s6 := s4.At(1, Ready(Unlock));
    ReachMove(s5, 1, s6);
    var s7 := State(2, 0, 1, 1, 1, 2, map[1 := LeaveSection], true, true);
    ReachMove(s6, 1, s7);
    s := State(2, 0, 1, 1, 1, 1, map[1 := Idle], true, true);
    ReachMove(s7, 1, s);
  }
}
