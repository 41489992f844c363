/**
 The futex lock of the injectables, as a transition system.

 Every atomic instruction sequence, the plain store of zero and each futex system call
 is one step; the steps of any number of threads interleave freely.  A sleeping thread
 may wake up spuriously, and only the thread that holds the lock releases it.
 */
module Mutex {

  /** Where a thread is.  The names say what the thread does next. */
  datatype Pc =
    | Idle      // outside mutex_lock and mutex_unlock, not holding the lock
    | TryLock   // atomic_cmpxchg(0, 1)
    | Swap      // atomic_swap(2)
    | Wait      // FUTEX_WAIT for the value 2
    | Asleep    // sleeping in the kernel
    | Critical  // mutex_lock has returned
    | Dec       // atomic_dec
    | Clear     // the plain store of 0
    | Wake      // FUTEX_WAKE of one sleeper

  /** The lock word and the program counter of each thread. */
  datatype State = State(word: int, pcs: seq<Pc>)

  datatype Step =
    | BeginLock(t: nat)
    | CmpXchg(t: nat)
    | SwapTwo(t: nat)
    | FutexWait(t: nat)
    | Spurious(t: nat)
    | BeginUnlock(t: nat)
    | AtomicDec(t: nat)
    | StoreZero(t: nat)
    | FutexWake(t: nat, woken: nat)  // woken == t when nobody sleeps

  predicate AnyAsleep(s: State) {
    exists u :: 0 <= u < |s.pcs| && s.pcs[u] == Asleep
  }

  predicate Enabled(s: State, a: Step) {
    a.t < |s.pcs| &&
    match a
    case BeginLock(t) => s.pcs[t] == Idle
    case CmpXchg(t) => s.pcs[t] == TryLock
    case SwapTwo(t) => s.pcs[t] == Swap
    case FutexWait(t) => s.pcs[t] == Wait
    case Spurious(t) => s.pcs[t] == Asleep
    case BeginUnlock(t) => s.pcs[t] == Critical
    case AtomicDec(t) => s.pcs[t] == Dec
    case StoreZero(t) => s.pcs[t] == Clear
    case FutexWake(t, woken) =>
      s.pcs[t] == Wake &&
      if AnyAsleep(s) then woken < |s.pcs| && s.pcs[woken] == Asleep else woken == t
  }

  function Apply(s: State, a: Step): State
    requires Enabled(s, a)
  {
    match a
    case BeginLock(t) => s.(pcs := s.pcs[t := TryLock])
    case CmpXchg(t) =>
      if s.word == 0 then State(1, s.pcs[t := Critical]) else s.(pcs := s.pcs[t := Swap])
    case SwapTwo(t) =>
      State(2, s.pcs[t := if s.word == 0 then Critical else Wait])
    case FutexWait(t) =>
      s.(pcs := s.pcs[t := if s.word == 2 then Asleep else Swap])
    case Spurious(t) => s.(pcs := s.pcs[t := Swap])
    case BeginUnlock(t) => s.(pcs := s.pcs[t := Dec])
    case AtomicDec(t) =>
      State(s.word - 1, s.pcs[t := if s.word == 1 then Idle else Clear])
    case StoreZero(t) => State(0, s.pcs[t := Wake])
    case FutexWake(t, woken) =>
      s.(pcs := if woken == t then s.pcs[t := Idle] else s.pcs[t := Idle][woken := Swap])
  }

  predicate Run(s: State, steps: seq<Step>)
    decreases |steps|
  {
    steps == [] || (Enabled(s, steps[0]) && Run(Apply(s, steps[0]), steps[1..]))
  }

  function End(s: State, steps: seq<Step>): State
    requires Run(s, steps)
    decreases |steps|
  {
    if steps == [] then s else End(Apply(s, steps[0]), steps[1..])
  }

  ghost predicate Initial(s: State) {
    s.word == 0 && forall t :: 0 <= t < |s.pcs| ==> s.pcs[t] == Idle
  }

  ghost predicate Reachable(s: State) {
    exists s0: State, steps: seq<Step> :: Initial(s0) && Run(s0, steps) && End(s0, steps) == s
  }

  // ----- Safety -----

  /** A thread between its decrement and its store of zero still holds the lock. */
  predicate Holds(pc: Pc) { pc in {Critical, Dec, Clear} }

  ghost predicate AtMostOneHolder(s: State) {
    forall t, u :: 0 <= t < |s.pcs| && 0 <= u < |s.pcs| && Holds(s.pcs[t]) && Holds(s.pcs[u]) ==> t == u
  }

  ghost predicate WordMatchesHolder(s: State) {
    && s.word in {0, 1, 2}
    && (s.word == 0 <==> forall t :: 0 <= t < |s.pcs| ==> !Holds(s.pcs[t]))
  }

  /** Someone will still do what the sleepers wait for: they sleep on the value 2, or a
      wake-up is on its way, or an awake thread is about to put the 2 back. */
  ghost predicate WakeupPending(s: State) {
    s.word == 2 || exists t :: 0 <= t < |s.pcs| && s.pcs[t] in {Clear, Wake, Swap}
  }

  ghost predicate NoLostWakeup(s: State) { AnyAsleep(s) ==> WakeupPending(s) }

  ghost predicate Safe(s: State) {
    AtMostOneHolder(s) && WordMatchesHolder(s) && NoLostWakeup(s)
  }

  /** A step changes at most the stepping thread's hold of the lock. */
  lemma StepIsLocal(s: State, a: Step, u: nat)
    requires Enabled(s, a) && u < |s.pcs| && u != a.t
    ensures Holds(Apply(s, a).pcs[u]) == Holds(s.pcs[u])
  {
  }

  lemma StepKeepsMutualExclusion(s: State, a: Step)
    requires AtMostOneHolder(s) && WordMatchesHolder(s) && Enabled(s, a)
    ensures AtMostOneHolder(Apply(s, a)) && WordMatchesHolder(Apply(s, a))
  {
    var s', t := Apply(s, a), a.t;
    forall u | 0 <= u < |s.pcs| && u != t
      ensures Holds(s'.pcs[u]) == Holds(s.pcs[u])
    {
      StepIsLocal(s, a, u);
    }
    if Holds(s'.pcs[t]) {
      assert s'.word != 0;
    } else if Holds(s.pcs[t]) {
      assert s'.word == 0;
    } else {
      assert s'.word == 0 <==> s.word == 0;
      if s.word != 0 {
        var h :| 0 <= h < |s.pcs| && Holds(s.pcs[h]);
        assert Holds(s'.pcs[h]);
      }
    }
  }

  lemma StepKeepsWakeups(s: State, a: Step)
    requires Safe(s) && Enabled(s, a)
    ensures NoLostWakeup(Apply(s, a))
  {
    var s' := Apply(s, a);
    if AnyAsleep(s') {
      var u :| 0 <= u < |s'.pcs| && s'.pcs[u] == Asleep;
      if s.word == 2 && s'.word != 2 {
        assert s'.pcs[a.t] in {Clear, Wake};
      } else if s'.word != 2 {
        assert s.pcs[u] == Asleep;
        var w :| 0 <= w < |s.pcs| && s.pcs[w] in {Clear, Wake, Swap};
        if w == a.t && a.FutexWake? {
          assert a.woken != a.t && s'.pcs[a.woken] == Swap;
        } else {
          assert s'.pcs[w] in {Clear, Wake, Swap};
        }
      }
    }
  }

  lemma {:induction false} RunIsSafe(s: State, steps: seq<Step>)
    requires Safe(s) && Run(s, steps)
    ensures Safe(End(s, steps)) && |End(s, steps).pcs| == |s.pcs|
    decreases |steps|
  {
    if steps != [] {
      StepKeepsMutualExclusion(s, steps[0]);
      StepKeepsWakeups(s, steps[0]);
      RunIsSafe(Apply(s, steps[0]), steps[1..]);
    }
  }

  /** Mutual exclusion and no lost wake-up, in every reachable state. */
  lemma ReachableIsSafe(s: State)
    requires Reachable(s)
    ensures AtMostOneHolder(s) && WordMatchesHolder(s) && NoLostWakeup(s)
  {
    var s0, steps :| Initial(s0) && Run(s0, steps) && End(s0, steps) == s;
    RunIsSafe(s0, steps);
  }

  // ----- Refinement of an abstract lock -----

  datatype Event = Acquired(t: nat) | Released(t: nat)

  /** The acquisitions and releases of a run, in order. */
  function Events(s: State, steps: seq<Step>): seq<Event>
    requires Run(s, steps)
    decreases |steps|
  {
    if steps == [] then []
    else
      var s' := Apply(s, steps[0]);
      var t := steps[0].t;
      (if !Holds(s.pcs[t]) && Holds(s'.pcs[t]) then [Acquired(t)]
       else if Holds(s.pcs[t]) && !Holds(s'.pcs[t]) then [Released(t)]
       else []) + Events(s', steps[1..])
  }

  /** A behaviour of a lock whose only state is the set of its owners, which has no more
      than one member: acquire when free, release by the owner. */
  predicate LockBehaviour(owners: set<nat>, events: seq<Event>)
    decreases |events|
  {
    events == [] ||
    match events[0]
    case Acquired(t) => owners == {} && LockBehaviour({t}, events[1..])
    case Released(t) => owners == {t} && LockBehaviour({}, events[1..])
  }

  function Owners(s: State): set<nat> {
    set t: nat | t < |s.pcs| && Holds(s.pcs[t])
  }

  lemma StepMovesOwnership(s: State, a: Step)
    requires Safe(s) && Enabled(s, a)
    ensures var t, s' := a.t, Apply(s, a);
            if !Holds(s.pcs[t]) && Holds(s'.pcs[t]) then Owners(s) == {} && Owners(s') == {t}
            else if Holds(s.pcs[t]) && !Holds(s'.pcs[t]) then Owners(s) == {t} && Owners(s') == {}
            else Owners(s) == Owners(s')
  {
    var s', t := Apply(s, a), a.t;
    forall u | 0 <= u < |s.pcs| && u != t
      ensures Holds(s'.pcs[u]) == Holds(s.pcs[u])
    {
      StepIsLocal(s, a, u);
    }
    StepKeepsMutualExclusion(s, a);
  }

  /** Every run of the lock, seen through its owners, is a behaviour of the abstract lock. */
  lemma {:induction false} RunRefinesLock(s: State, steps: seq<Step>)
    requires Safe(s) && Run(s, steps)
    ensures LockBehaviour(Owners(s), Events(s, steps))
    decreases |steps|
  {
    if steps != [] {
      var s' := Apply(s, steps[0]);
      assert Safe(s') by {
        StepKeepsMutualExclusion(s, steps[0]);
        StepKeepsWakeups(s, steps[0]);
      }
      RunRefinesLock(s', steps[1..]);
      StepMovesOwnership(s, steps[0]);
      var rest := Events(s', steps[1..]);
      assert Events(s, steps) == rest || (|Events(s, steps)| == 1 + |rest| && Events(s, steps)[1..] == rest);
    }
  }

  // ----- Progress -----

  /** What a thread still costs: an upper bound on the steps it takes and causes, among n
      threads.  A failed FUTEX_WAIT is paid for by the thread that took the 2 away. */
  function Rank(pc: Pc, n: nat, two: bool): nat {
    match pc
    case Idle => 0
    case Wake => 3
    case Clear => 2 * n + 4
    case Dec => 4 * n + 5
    case Critical => 4 * n + 6
    case Asleep => 4 * n + 6
    case Wait => if two then 4 * n + 7 else 4 * n + 9
    case Swap => 4 * n + 8
    case TryLock => 4 * n + 9
  }

  function Weight(pcs: seq<Pc>, n: nat, two: bool): nat {
    if pcs == [] then 0 else Rank(pcs[0], n, two) + Weight(pcs[1..], n, two)
  }

  function Potential(s: State): nat {
    Weight(s.pcs, |s.pcs|, s.word == 2)
  }

  lemma {:induction false} WeightOfUpdate(pcs: seq<Pc>, t: nat, pc: Pc, n: nat, two: bool)
    requires t < |pcs|
    ensures Weight(pcs[t := pc], n, two) + Rank(pcs[t], n, two) == Weight(pcs, n, two) + Rank(pc, n, two)
  {
    if t == 0 {
      assert pcs[t := pc][1..] == pcs[1..];
    } else {
      assert pcs[t := pc][1..] == pcs[1..][t - 1 := pc];
      WeightOfUpdate(pcs[1..], t - 1, pc, n, two);
    }
  }

  lemma {:induction false} WeightOfWord(pcs: seq<Pc>, n: nat)
    ensures Weight(pcs, n, true) <= Weight(pcs, n, false) <= Weight(pcs, n, true) + 2 * |pcs|
  {
    if pcs != [] {
      WeightOfWord(pcs[1..], n);
    }
  }

  /** What a call and a spurious wake-up add; every other step is paid for by the potential. */
  function Price(a: Step, n: nat): nat {
    if a.BeginLock? then 4 * n + 10 else if a.Spurious? then 3 else 0
  }

  lemma StepIsPaidFor(s: State, a: Step)
    requires Safe(s) && Enabled(s, a)
    ensures 1 + Potential(Apply(s, a)) <= Potential(s) + Price(a, |s.pcs|)
  {
    var s', n := Apply(s, a), |s.pcs|;
    var two := s'.word == 2;
    WeightOfWord(s.pcs, n);
    WeightOfUpdate(s.pcs, a.t, s'.pcs[a.t], n, two);
    if a.FutexWake? && a.woken != a.t {
      WeightOfUpdate(s.pcs[a.t := Idle], a.woken, Swap, n, two);
    } else {
      assert s'.pcs == s.pcs[a.t := s'.pcs[a.t]];
    }
  }

  function TotalPrice(steps: seq<Step>, n: nat): nat {
    if steps == [] then 0 else Price(steps[0], n) + TotalPrice(steps[1..], n)
  }

  /** No livelock: a run has no more steps than its calls and spurious wake-ups pay for. */
  lemma {:induction false} RunIsBounded(s: State, steps: seq<Step>)
    requires Safe(s) && Run(s, steps)
    ensures |steps| + Potential(End(s, steps)) <= Potential(s) + TotalPrice(steps, |s.pcs|)
    decreases |steps|
  {
    if steps != [] {
      StepKeepsMutualExclusion(s, steps[0]);
      StepKeepsWakeups(s, steps[0]);
      StepIsPaidFor(s, steps[0]);
      RunIsBounded(Apply(s, steps[0]), steps[1..]);
    }
  }

  /** No deadlock: a reachable state in which nobody can move without a new call or a
      spurious wake-up is the initial one again; nobody is left asleep. */
  lemma StuckIsInitial(s: State)
    requires Reachable(s)
    requires forall a: Step :: Enabled(s, a) ==> a.BeginLock? || a.Spurious?
    ensures Initial(s)
  {
    ReachableIsSafe(s);
    forall t | 0 <= t < |s.pcs|
      ensures s.pcs[t] in {Idle, Asleep}
    {
      assert !Enabled(s, CmpXchg(t)) && !Enabled(s, SwapTwo(t)) && !Enabled(s, FutexWait(t));
      assert !Enabled(s, BeginUnlock(t)) && !Enabled(s, AtomicDec(t)) && !Enabled(s, StoreZero(t));
      if s.pcs[t] == Wake {
        var u := if AnyAsleep(s) then var u :| 0 <= u < |s.pcs| && s.pcs[u] == Asleep; u else t;
        assert Enabled(s, FutexWake(t, u));
      }
    }
  }

  // ----- System calls on release -----

  /** Has some thread swapped in the 2 since the word was last 0?  (c answers for the start.) */
  function SwappedSinceFree(s: State, steps: seq<Step>, c: bool): bool
    requires Run(s, steps)
    decreases |steps|
  {
    if steps == [] then c
    else
      var s' := Apply(s, steps[0]);
      SwappedSinceFree(s', steps[1..], steps[0].SwapTwo? || (c && s'.word != 0))
  }

  ghost predicate SlowRelease(s: State) {
    s.word == 2 || exists t :: 0 <= t < |s.pcs| && s.pcs[t] == Clear
  }

  lemma StepKeepsSlowRelease(s: State, a: Step)
    requires Safe(s) && Enabled(s, a)
    ensures SlowRelease(Apply(s, a)) <==> a.SwapTwo? || (SlowRelease(s) && Apply(s, a).word != 0)
  {
    var s' := Apply(s, a);
    StepKeepsMutualExclusion(s, a);
    if SlowRelease(s) && s'.word != 0 && s.word != 2 {
      var t :| 0 <= t < |s.pcs| && s.pcs[t] == Clear;
      assert s'.pcs[t] == Clear;
    }
    if s.word == 2 && s'.word == 1 {
      assert s'.pcs[a.t] == Clear;
    }
    if SlowRelease(s') && s'.word != 2 {
      var t :| 0 <= t < |s'.pcs| && s'.pcs[t] == Clear;
      assert s.pcs[t] == Clear || a == AtomicDec(t);
    }
  }

  lemma {:induction false} RunTracksSlowRelease(s: State, steps: seq<Step>)
    requires Safe(s) && Run(s, steps)
    ensures SlowRelease(End(s, steps)) <==> SwappedSinceFree(s, steps, SlowRelease(s))
    decreases |steps|
  {
    if steps != [] {
      StepKeepsMutualExclusion(s, steps[0]);
      StepKeepsWakeups(s, steps[0]);
      StepKeepsSlowRelease(s, steps[0]);
      RunTracksSlowRelease(Apply(s, steps[0]), steps[1..]);
    }
  }

  /** A release enters the kernel exactly when some thread has swapped in the 2 since the
      lock was last free, whether or not anybody waits now. */
  lemma ReleaseCallsKernelIff(s0: State, steps: seq<Step>, t: nat)
    requires Initial(s0) && Run(s0, steps) && Enabled(End(s0, steps), AtomicDec(t))
    ensures Apply(End(s0, steps), AtomicDec(t)).pcs[t] == Clear <==> SwappedSinceFree(s0, steps, false)
  {
    RunIsSafe(s0, steps);
    RunTracksSlowRelease(s0, steps);
    assert !SlowRelease(s0);
    var s := End(s0, steps);
    assert SlowRelease(s) <==> s.word == 2;
  }

  lemma {:induction false} Extend(s: State, steps: seq<Step>, a: Step)
    requires Run(s, steps) && Enabled(End(s, steps), a)
    ensures Run(s, steps + [a]) && End(s, steps + [a]) == Apply(End(s, steps), a)
    decreases |steps|
  {
    if steps == [] {
      assert steps + [a] == [a] && [a][1..] == [];
      assert End(s, [a]) == End(Apply(s, a), []);
    } else {
      assert (steps + [a])[1..] == steps[1..] + [a];
      Extend(Apply(s, steps[0]), steps[1..], a);
    }
  }

  // A run of two threads: the second one is woken and takes the lock by its swap.
  const SCRIPT: seq<Step> :=
    [BeginLock(0), CmpXchg(0), BeginLock(1), CmpXchg(1), SwapTwo(1), FutexWait(1),
     BeginUnlock(0), AtomicDec(0), StoreZero(0), FutexWake(0, 1), SwapTwo(1), BeginUnlock(1)]

  const STATES: seq<State> :=
    [State(0, [Idle, Idle]), State(0, [TryLock, Idle]), State(1, [Critical, Idle]),
     State(1, [Critical, TryLock]), State(1, [Critical, Swap]), State(2, [Critical, Wait]),
     State(2, [Critical, Asleep]), State(2, [Dec, Asleep]), State(1, [Clear, Asleep]),
     State(0, [Wake, Asleep]), State(0, [Idle, Swap]), State(2, [Idle, Critical]), State(2, [Idle, Dec])]

  lemma ScriptStep(k: nat)
    requires k < |SCRIPT|
    ensures Enabled(STATES[k], SCRIPT[k]) && Apply(STATES[k], SCRIPT[k]) == STATES[k + 1]
  {
    if k == 9 {
      assert STATES[9].pcs[1] == Asleep;
    }
  }

  lemma {:induction false} ScriptRuns(k: nat)
    requires k <= |SCRIPT|
    ensures Run(STATES[0], SCRIPT[..k]) && End(STATES[0], SCRIPT[..k]) == STATES[k]
  {
    if k > 0 {
      ScriptRuns(k - 1);
      ScriptStep(k - 1);
      Extend(STATES[0], SCRIPT[..k - 1], SCRIPT[k - 1]);
      assert SCRIPT[..k] == SCRIPT[..k - 1] + [SCRIPT[k - 1]];
    }
  }

  /** "Releasing a mutex lock causes no system call if no other threads are waiting" is not
      what the code does: a thread that was woken holds the lock with the word at 2. */
  lemma ReleaseWithoutWaitersMayCallKernel(s: State)
    requires s == State(2, [Idle, Dec])
    ensures Reachable(s) && Enabled(s, AtomicDec(1)) && Apply(s, AtomicDec(1)).pcs[1] == Clear
  {
    ScriptRuns(|SCRIPT|);
    assert Initial(STATES[0]);
  }
}
