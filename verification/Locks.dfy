/** The per-subnet lock (pkg/controller/wrangler/utils.go) as a protocol of threads.

A step is one access to a mutex or to the isLocked flag. A thread asks for one
subnet at a time and does not ask again before it has let go.
*/
module Locks {
  type Thread = nat
  type Subnet = string

  /** Where a thread stands in IPAllocateLock and the unlock function it returns. */
  datatype PC =
    | Idle
    | Asking(s: Subnet)    // before ipAllocateLockMutex.Lock
    | Entered(s: Subnet)   // holds the global mutex
    | Flagged(s: Subnet)   // has set isLocked, waits for the subnet mutex
    | Acquired(s: Subnet)  // holds both
    | Working(s: Subnet)   // holds the subnet mutex, the caller runs
    | Leaving(s: Subnet)   // has released it, isLocked not yet cleared

  datatype State = State(
    pcs: map<Thread, PC>,
    global: set<Thread>,
    owner: map<Subnet, Thread>,
    isLocked: set<Subnet>)

  predicate HoldsGlobal(p: PC) { p.Entered? || p.Flagged? || p.Acquired? }

  predicate HoldsLock(p: PC, s: Subnet) { p == Acquired(s) || p == Working(s) }

  /** From setting isLocked to clearing it. */
  predicate Between(p: PC, s: Subnet) { p == Flagged(s) || HoldsLock(p, s) || p == Leaving(s) }

  /** A mutex blocks the thread that finds it taken; nothing else blocks. */
  predicate Enabled(st: State, t: Thread) {
    t in st.pcs &&
    match st.pcs[t]
    case Asking(_) => st.global == {}
    case Flagged(s) => s !in st.owner
    case _ => true
  }

  /** One step of thread t, which asks for subnet ask if it is idle. */
  function Advance(st: State, t: Thread, ask: Subnet): State
    requires Enabled(st, t)
  {
    match st.pcs[t]
    case Idle => st.(pcs := st.pcs[t := Asking(ask)])
    case Asking(s) => st.(pcs := st.pcs[t := Entered(s)], global := st.global + {t})
    case Entered(s) => st.(pcs := st.pcs[t := Flagged(s)], isLocked := st.isLocked + {s})
    case Flagged(s) => st.(pcs := st.pcs[t := Acquired(s)], owner := st.owner[s := t])
    case Acquired(s) => st.(pcs := st.pcs[t := Working(s)], global := st.global - {t})
    case Working(s) => st.(pcs := st.pcs[t := Leaving(s)], owner := st.owner - {s})
    case Leaving(s) => st.(pcs := st.pcs[t := Idle], isLocked := st.isLocked - {s})
  }

  predicate Initial(st: State) {
    && (forall t :: t in st.pcs ==> st.pcs[t] == Idle)
    && st.global == {} && st.owner == map[] && st.isLocked == {}
  }

  ghost predicate Step(st: State, st': State) {
    exists t, ask :: Enabled(st, t) && st' == Advance(st, t, ask)
  }

  /** Any interleaving of any number of threads. */
  ghost predicate IsRun(states: seq<State>) {
    && states != [] && Initial(states[0])
    && forall i :: 0 <= i < |states| - 1 ==> Step(states[i], states[i + 1])
  }

  ghost predicate GlobalInv(st: State) {
    && (forall t :: t in st.global <==> t in st.pcs && HoldsGlobal(st.pcs[t]))
    && (forall t, u :: t in st.global && u in st.global ==> t == u)
  }

  predicate Holder(st: State, t: Thread, s: Subnet) { t in st.pcs && HoldsLock(st.pcs[t], s) }

  ghost predicate OwnerInv(st: State) {
    && (forall s :: s in st.owner ==> Holder(st, st.owner[s], s))
    && (forall t, s :: Holder(st, t, s) ==> s in st.owner && st.owner[s] == t)
  }

  ghost predicate SomeBetween(st: State, s: Subnet) {
    exists t :: t in st.pcs && Between(st.pcs[t], s)
  }

  ghost predicate FlagInv(st: State) {
    forall s :: s in st.isLocked ==> SomeBetween(st, s)
  }

  ghost predicate Inv(st: State) { GlobalInv(st) && OwnerInv(st) && FlagInv(st) }

  lemma InitialInv(st: State)
    requires Initial(st)
    ensures Inv(st)
  {
  }

  lemma GlobalStepKeeps(st: State, t: Thread, ask: Subnet)
    requires GlobalInv(st) && Enabled(st, t)
    ensures GlobalInv(Advance(st, t, ask))
  {
  }

  lemma OwnerStepKeeps(st: State, t: Thread, ask: Subnet)
    requires OwnerInv(st) && Enabled(st, t)
    ensures OwnerInv(Advance(st, t, ask))
  {
    var st' := Advance(st, t, ask);
    forall u, s | Holder(st', u, s) ensures s in st'.owner && st'.owner[s] == u {
      assert u != t ==> Holder(st, u, s);
      assert u == t && st.pcs[t].Acquired? ==> Holder(st, t, s);
      assert st.pcs[t].Working? ==> Holder(st, t, st.pcs[t].s);
    }
    forall s | s in st'.owner ensures Holder(st', st'.owner[s], s) {
      assert s in st.owner ==> Holder(st, st.owner[s], s);
    }
  }

  lemma FlagStepKeeps(st: State, t: Thread, ask: Subnet)
    requires FlagInv(st) && Enabled(st, t)
    ensures FlagInv(Advance(st, t, ask))
  {
    var st' := Advance(st, t, ask);
    forall s | s in st'.isLocked ensures SomeBetween(st', s) {
      if s in st.isLocked {
        var u :| u in st.pcs && Between(st.pcs[u], s);
        assert u in st'.pcs && Between(st'.pcs[u], s);
      } else {
        assert t in st'.pcs && Between(st'.pcs[t], s);
      }
    }
  }

  lemma StepKeeps(st: State, t: Thread, ask: Subnet)
    requires Inv(st) && Enabled(st, t)
    ensures Inv(Advance(st, t, ask))
  {
    GlobalStepKeeps(st, t, ask);
    OwnerStepKeeps(st, t, ask);
    FlagStepKeeps(st, t, ask);
  }

  lemma {:induction false} RunKeeps(states: seq<State>, i: nat)
    requires IsRun(states) && i < |states|
    ensures Inv(states[i])
  {
    if i > 0 {
      RunKeeps(states, i - 1);
      assert Step(states[i - 1], states[i]);
      var t, ask :| Enabled(states[i - 1], t) && states[i] == Advance(states[i - 1], t, ask);
      StepKeeps(states[i - 1], t, ask);
    }
  }

  /** In every interleaving: at most one thread holds the lock of a subnet, at most one
      waits for any subnet lock, and isLocked is set only while a thread is between
      setting and clearing it. */
  lemma LockIsExclusive(states: seq<State>, i: nat, t: Thread, u: Thread, s: Subnet)
    requires IsRun(states) && i < |states|
    requires t in states[i].pcs && u in states[i].pcs
    ensures HoldsLock(states[i].pcs[t], s) && HoldsLock(states[i].pcs[u], s) ==> t == u
    ensures states[i].pcs[t].Flagged? && states[i].pcs[u].Flagged? ==> t == u
    ensures s in states[i].isLocked ==> exists v :: v in states[i].pcs && Between(states[i].pcs[v], s)
  {
    RunKeeps(states, i);
    assert Holder(states[i], t, s) <==> HoldsLock(states[i].pcs[t], s);
    assert Holder(states[i], u, s) <==> HoldsLock(states[i].pcs[u], s);
    assert states[i].pcs[t].Flagged? ==> t in states[i].global;
    assert states[i].pcs[u].Flagged? ==> u in states[i].global;
  }

  /** In every interleaving, as long as some thread is not idle, one of those can step:
      the global mutex is held while waiting, but the holder of the subnet lock no
      longer needs it. */
  lemma NoDeadlock(states: seq<State>, i: nat, t: Thread) returns (u: Thread)
    requires IsRun(states) && i < |states|
    requires t in states[i].pcs && states[i].pcs[t] != Idle
    ensures Enabled(states[i], u) && states[i].pcs[u] != Idle
  {
    RunKeeps(states, i);
    var st := states[i];
    u := t;
    if st.pcs[u].Asking? && st.global != {} {
      u :| u in st.global;
    }
    if st.pcs[u].Flagged? && st.pcs[u].s in st.owner {
      u := st.owner[st.pcs[u].s];
    }
  }

  // ----- isLocked is not the lock -----

  /** isLocked tells whether a thread is between setting and clearing it. */
  ghost predicate FlagExact(st: State) {
    forall s :: s in st.isLocked <==> SomeBetween(st, s)
  }

  /** Thread t clears the flag of a subnet another thread has since set. */
  predicate ClearsForOther(st: State, t: Thread)
    requires t in st.pcs
  {
    st.pcs[t].Leaving? && exists u :: u in st.pcs && u != t && Between(st.pcs[u], st.pcs[t].s)
  }

  /** The flag stays exact with a step if and only if that step does not clear it
      under another thread. */
  lemma FlagStaysExactIff(st: State, t: Thread, ask: Subnet)
    requires FlagExact(st) && Enabled(st, t)
    ensures FlagExact(Advance(st, t, ask)) <==> !ClearsForOther(st, t)
  {
    var st' := Advance(st, t, ask);
    if ClearsForOther(st, t) {
      var u :| u in st.pcs && u != t && Between(st.pcs[u], st.pcs[t].s);
      assert u in st'.pcs && Between(st'.pcs[u], st.pcs[t].s);
    } else {
      forall s ensures s in st'.isLocked <==> SomeBetween(st', s) {
        FlagAfter(st, t, ask, s);
      }
    }
  }

  lemma FlagAfter(st: State, t: Thread, ask: Subnet, s: Subnet)
    requires FlagExact(st) && Enabled(st, t) && !ClearsForOther(st, t)
    ensures var st' := Advance(st, t, ask);
            s in st'.isLocked <==> SomeBetween(st', s)
  {
    var st' := Advance(st, t, ask);
    if s in st'.isLocked {
      if s in st.isLocked {
        var u :| u in st.pcs && Between(st.pcs[u], s);
        assert u in st'.pcs && Between(st'.pcs[u], s);
      } else {
        assert Between(st'.pcs[t], s);
      }
    }
    if SomeBetween(st', s) {
      var v :| v in st'.pcs && Between(st'.pcs[v], s);
      assert v != t ==> v in st.pcs && Between(st.pcs[v], s);
    }
  }

  /** One thread leaves while the next has set the flag and takes the lock: the
      lock is held and isLocked is false. */
  lemma HeldButNotFlagged(s: Subnet) returns (states: seq<State>)
    ensures IsRun(states)
    ensures var st := states[|states| - 1]; s in st.owner && s !in st.isLocked
  {
    states := FirstWorks(s);
    states := SecondWaits(states, s);
    states := Extend(states, 0, s, Pair(Leaving(s), Flagged(s), {1}, map[], {s}));
    states := Extend(states, 1, s, Pair(Leaving(s), Acquired(s), {1}, map[s := 1], {s}));
    states := Extend(states, 0, s, Pair(Idle, Acquired(s), {1}, map[s := 1], {}));
  }

  lemma FirstEnters(s: Subnet) returns (states: seq<State>)
    ensures IsRun(states) && states[|states| - 1] == Pair(Entered(s), Idle, {0}, map[], {})
  {
    states := [Pair(Idle, Idle, {}, map[], {})];
    states := Extend(states, 0, s, Pair(Asking(s), Idle, {}, map[], {}));
    states := Extend(states, 0, s, Pair(Entered(s), Idle, {0}, map[], {}));
  }

  lemma FirstWorks(s: Subnet) returns (states: seq<State>)
    ensures IsRun(states) && states[|states| - 1] == Pair(Working(s), Idle, {}, map[s := 0], {s})
  {
    states := FirstEnters(s);
    states := Extend(states, 0, s, Pair(Flagged(s), Idle, {0}, map[], {s}));
    states := Extend(states, 0, s, Pair(Acquired(s), Idle, {0}, map[s := 0], {s}));
    states := Extend(states, 0, s, Pair(Working(s), Idle, {}, map[s := 0], {s}));
  }

  lemma SecondWaits(before: seq<State>, s: Subnet) returns (states: seq<State>)
    requires IsRun(before) && before[|before| - 1] == Pair(Working(s), Idle, {}, map[s := 0], {s})
    ensures IsRun(states) && states[|states| - 1] == Pair(Working(s), Flagged(s), {1}, map[s := 0], {s})
  {
    states := Extend(before, 1, s, Pair(Working(s), Asking(s), {}, map[s := 0], {s}));
    states := Extend(states, 1, s, Pair(Working(s), Entered(s), {1}, map[s := 0], {s}));
    states := Extend(states, 1, s, Pair(Working(s), Flagged(s), {1}, map[s := 0], {s}));
  }

  /** Two threads. */
  function Pair(p: PC, q: PC, global: set<Thread>, owner: map<Subnet, Thread>, isLocked: set<Subnet>): State {
    State(map[0 := p, 1 := q], global, owner, isLocked)
  }

  lemma Extend(states: seq<State>, t: Thread, ask: Subnet, next: State) returns (longer: seq<State>)
    requires IsRun(states) && Enabled(states[|states| - 1], t)
    requires next == Advance(states[|states| - 1], t, ask)
    ensures IsRun(longer) && |longer| > 0 && longer[|longer| - 1] == next
  {
    longer := states + [next];
    forall i | 0 <= i < |longer| - 1 ensures Step(longer[i], longer[i + 1]) {
      if i < |states| - 1 {
        assert Step(states[i], states[i + 1]);
      } else {
        assert Enabled(longer[i], t) && longer[i + 1] == Advance(longer[i], t, ask);
      }
    }
  }
}
