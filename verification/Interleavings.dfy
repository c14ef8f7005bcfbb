/** Threads that handle the objects of many subnets at once: the lock of module Locks makes
every interleaving of their steps a run of module Controller.

The stored objects are shared. What a handler has chosen or counted is its own; it takes its
steps one by one while it works under the lock of its subnet, each on the objects as they
then are. Users, the CNI plugin and the handlers without a lock write at any time in between.
*/
module Interleavings {
  import opened Ranges
  import opened Blocks
  import opened Objects
  import C = Controller
  import O = OrderlyRuns
  import Leaks
  import L = Locks

  /** jobs: what the threads have chosen or counted; log: the events so far, per subnet.
      The field pending of what is stored means nothing. */
  datatype System = System(
    lock: L.State,
    stored: map<L.Subnet, State>,
    jobs: map<L.Thread, Pending>,
    log: map<L.Subnet, seq<C.Event>>)

  datatype Action =
    | LockStep(t: L.Thread, ask: L.Subnet)
    | Locked(t: L.Thread, e: C.Event)
    | Outside(s: L.Subnet, e: C.Event)
    | Restart

  type Specs = map<L.Subnet, SubnetSpec>

  predicate ValidSpecs(specs: Specs) { forall s :: s in specs ==> Valid(specs[s].net) }

  predicate Working(sys: System, t: L.Thread) { t in sys.lock.pcs && sys.lock.pcs[t].Working? }

  function Job(sys: System, t: L.Thread): Pending { if t in sys.jobs then sys.jobs[t] else Nothing }

  predicate Known(sys: System, s: L.Subnet) {
    s in sys.stored && s in sys.log && C.ValidState(sys.stored[s])
  }

  predicate Can(specs: Specs, sys: System, a: Action) {
    match a
    // a handler that returns has no choice left
    case LockStep(t, ask) => L.Enabled(sys.lock, t) && ask in specs && (Working(sys, t) ==> t !in sys.jobs)
    case Locked(t, e) => Working(sys, t) && C.UnderLock(e) && Known(sys, sys.lock.pcs[t].s)
    case Outside(s, e) => !C.UnderLock(e) && Known(sys, s)
    case Restart => true
  }

  /** Users, the CNI plugin, the error handlers, resets, activation and the finalizer wait for no
      one, and a thread that has the lock takes any step of its handler. */
  lemma NoOneElseWaits(specs: Specs, sys: System, s: L.Subnet, e: C.Event, t: L.Thread)
    requires Known(sys, s)
    requires t in sys.lock.pcs && sys.lock.pcs[t] == L.Working(s)
    ensures if e.Choose? || e.CommitChoice? || e.WriteChoice? || e.FallBack? || e.GiveUp? || e.Release? || e.ListIPs? || e.WriteCheck?
            then Can(specs, sys, Locked(t, e)) else Can(specs, sys, Outside(s, e))
  {
  }

  function Put(sys: System, s: L.Subnet, st: State, e: C.Event): System
    requires s in sys.log
  {
    sys.(stored := sys.stored[s := st], log := sys.log[s := sys.log[s] + [e]])
  }

  function SetJob(jobs: map<L.Thread, Pending>, t: L.Thread, job: Pending): map<L.Thread, Pending> {
    if job.Nothing? then jobs - {t} else jobs[t := job]
  }

  function Do(specs: Specs, sys: System, a: Action): System
    requires Can(specs, sys, a)
  {
    match a
    case LockStep(t, ask) => sys.(lock := L.Advance(sys.lock, t, ask))
    case Locked(t, e) =>
      var s := sys.lock.pcs[t].s;
      var st := C.Apply(sys.stored[s].(pending := Job(sys, t)), e);
      Put(sys, s, st, e).(jobs := SetJob(sys.jobs, t, st.pending))
    case Outside(s, e) => Put(sys, s, C.Apply(sys.stored[s], e), e)
    // the operator stops: all that its threads had is lost
    case Restart =>
      System(L.State(map t | t in sys.lock.pcs :: L.Idle, {}, map[], {}),
             sys.stored, map[], map s | s in sys.log :: sys.log[s] + [C.GiveUp])
  }

  predicate Starts(specs: Specs, sys: System) {
    && L.Initial(sys.lock) && sys.jobs == map[]
    && sys.stored == (map s | s in specs :: C.Initial(specs[s]))
    && sys.log == (map s | s in specs :: [])
  }

  ghost predicate Step(specs: Specs, sys: System, sys': System) {
    exists a :: Can(specs, sys, a) && sys' == Do(specs, sys, a)
  }

  ghost predicate IsRun(specs: Specs, run: seq<System>) {
    && run != [] && Starts(specs, run[0])
    && forall i :: 0 <= i < |run| - 1 ==> Step(specs, run[i], run[i + 1])
  }

  /** The objects of a subnet, and what the thread that holds its lock has chosen or counted. */
  function View(sys: System, s: L.Subnet): State
    requires s in sys.stored
  {
    sys.stored[s].(pending := if s in sys.lock.owner then Job(sys, sys.lock.owner[s]) else Nothing)
  }

  predicate JobsUnderLock(sys: System) {
    forall t :: t in sys.jobs ==> Working(sys, t)
  }

  predicate ViewIsSerial(specs: Specs, sys: System, s: L.Subnet)
    requires s in specs && Valid(specs[s].net)
  {
    s in sys.stored && s in sys.log && View(sys, s) == C.Run(specs[s], sys.log[s])
  }

  ghost predicate Inv(specs: Specs, sys: System)
    requires ValidSpecs(specs)
  {
    && L.Inv(sys.lock) && JobsUnderLock(sys)
    && sys.stored.Keys == specs.Keys
    && forall s :: s in specs ==> ViewIsSerial(specs, sys, s)
  }

  lemma RunSnoc(spec: SubnetSpec, es: seq<C.Event>, e: C.Event)
    requires Valid(spec.net)
    ensures C.Run(spec, es + [e]) == C.Apply(C.Run(spec, es), e)
  {
    assert (es + [e])[..|es|] == es;
  }

  /** Who writes without the lock does not see what the handler under the lock has. */
  lemma OutsideIgnoresJob(st: State, p: Pending, e: C.Event)
    requires C.ValidState(st) && !C.UnderLock(e)
    ensures C.Apply(st.(pending := p), e) == C.Apply(st, e).(pending := p)
  {
  }

  /** A thread that works on a subnet has its lock. */
  lemma WorkerSees(sys: System, t: L.Thread)
    requires L.Inv(sys.lock) && Working(sys, t) && sys.lock.pcs[t].s in sys.stored
    ensures var s := sys.lock.pcs[t].s;
            s in sys.lock.owner && sys.lock.owner[s] == t && View(sys, s) == sys.stored[s].(pending := Job(sys, t))
  {
    assert L.Holder(sys.lock, t, sys.lock.pcs[t].s);
  }

  /** No thread but the one that works on a subnet has its lock. */
  lemma OthersSeeTheirs(sys: System, t: L.Thread, s: L.Subnet)
    requires L.Inv(sys.lock) && Working(sys, t) && s != sys.lock.pcs[t].s
    ensures s in sys.lock.owner ==> sys.lock.owner[s] != t
  {
    assert s in sys.lock.owner ==> L.Holder(sys.lock, sys.lock.owner[s], s);
  }

  lemma ViewAfterLockStep(sys: System, t: L.Thread, ask: L.Subnet, s: L.Subnet)
    requires L.Inv(sys.lock) && L.Enabled(sys.lock, t) && t !in sys.jobs && s in sys.stored
    ensures View(sys.(lock := L.Advance(sys.lock, t, ask)), s) == View(sys, s)
  {
    var p := sys.lock.pcs[t];
    assert p.Working? ==> L.Holder(sys.lock, t, p.s);
    assert p.Flagged? ==> p.s !in sys.lock.owner;
  }

  lemma LockStepKeeps(specs: Specs, sys: System, t: L.Thread, ask: L.Subnet)
    requires ValidSpecs(specs) && Inv(specs, sys) && Can(specs, sys, LockStep(t, ask))
    ensures Inv(specs, Do(specs, sys, LockStep(t, ask)))
  {
    var sys' := Do(specs, sys, LockStep(t, ask));
    L.StepKeeps(sys.lock, t, ask);
    assert t !in sys.jobs;
    forall s | s in specs ensures ViewIsSerial(specs, sys', s) {
      assert ViewIsSerial(specs, sys, s);
      ViewAfterLockStep(sys, t, ask, s);
    }
  }

  /** The write of a thread under the lock shows in the view of its subnet and no other. */
  lemma ViewAfterLocked(sys: System, t: L.Thread, st: State, e: C.Event)
    requires L.Inv(sys.lock) && JobsUnderLock(sys) && Working(sys, t) && Known(sys, sys.lock.pcs[t].s)
    ensures var s := sys.lock.pcs[t].s;
            var sys' := Put(sys, s, st, e).(jobs := SetJob(sys.jobs, t, st.pending));
            && JobsUnderLock(sys') && View(sys', s) == st
            && forall u :: u in sys.stored && u != s ==> View(sys', u) == View(sys, u)
  {
    var s := sys.lock.pcs[t].s;
    WorkerSees(sys, t);
    forall u | u in sys.stored && u != s ensures u in sys.lock.owner ==> sys.lock.owner[u] != t {
      OthersSeeTheirs(sys, t, u);
    }
  }

  lemma WorkerStepIsSerial(specs: Specs, sys: System, t: L.Thread, e: C.Event)
    requires ValidSpecs(specs) && Inv(specs, sys) && Can(specs, sys, Locked(t, e))
    ensures var s := sys.lock.pcs[t].s;
            s in specs && C.Apply(sys.stored[s].(pending := Job(sys, t)), e) == C.Run(specs[s], sys.log[s] + [e])
  {
    var s := sys.lock.pcs[t].s;
    assert ViewIsSerial(specs, sys, s);
    WorkerSees(sys, t);
    RunSnoc(specs[s], sys.log[s], e);
  }

  lemma LockedKeeps(specs: Specs, sys: System, t: L.Thread, e: C.Event)
    requires ValidSpecs(specs) && Inv(specs, sys) && Can(specs, sys, Locked(t, e))
    ensures Inv(specs, Do(specs, sys, Locked(t, e)))
  {
    var s := sys.lock.pcs[t].s;
    var st := C.Apply(sys.stored[s].(pending := Job(sys, t)), e);
    ViewAfterLocked(sys, t, st, e);
    WorkerStepIsSerial(specs, sys, t, e);
    PutKeeps(specs, sys, Put(sys, s, st, e).(jobs := SetJob(sys.jobs, t, st.pending)), s, e);
  }

  /** One event more on subnet s. */
  lemma PutKeeps(specs: Specs, sys: System, sys': System, s: L.Subnet, e: C.Event)
    requires ValidSpecs(specs) && Inv(specs, sys) && s in specs
    requires sys'.lock == sys.lock && JobsUnderLock(sys') && sys'.stored.Keys == sys.stored.Keys
    requires sys'.log == sys.log[s := sys.log[s] + [e]]
    requires View(sys', s) == C.Run(specs[s], sys.log[s] + [e])
    requires forall u :: u in sys.stored && u != s ==> View(sys', u) == View(sys, u)
    ensures Inv(specs, sys')
  {
    forall u | u in specs ensures ViewIsSerial(specs, sys', u) {
      assert ViewIsSerial(specs, sys, u);
    }
  }

  lemma ViewAfterOutside(sys: System, s: L.Subnet, st: State, e: C.Event)
    requires JobsUnderLock(sys) && Known(sys, s)
    ensures var sys' := Put(sys, s, st, e);
            && JobsUnderLock(sys') && View(sys', s) == st.(pending := View(sys, s).pending)
            && forall u :: u in sys.stored && u != s ==> View(sys', u) == View(sys, u)
  {
  }

  lemma OutsideStepIsSerial(specs: Specs, sys: System, s: L.Subnet, e: C.Event)
    requires ValidSpecs(specs) && s in specs && Known(sys, s) && ViewIsSerial(specs, sys, s) && !C.UnderLock(e)
    ensures C.Apply(sys.stored[s], e).(pending := View(sys, s).pending) == C.Run(specs[s], sys.log[s] + [e])
  {
    RunSnoc(specs[s], sys.log[s], e);
    OutsideIgnoresJob(sys.stored[s], View(sys, s).pending, e);
  }

  lemma OutsideKeeps(specs: Specs, sys: System, s: L.Subnet, e: C.Event)
    requires ValidSpecs(specs) && Inv(specs, sys) && Can(specs, sys, Outside(s, e))
    ensures Inv(specs, Do(specs, sys, Outside(s, e)))
  {
    var st := C.Apply(sys.stored[s], e);
    OutsideStepIsSerial(specs, sys, s, e);
    ViewAfterOutside(sys, s, st, e);
    PutKeeps(specs, sys, Put(sys, s, st, e), s, e);
  }

  /** A stop is, for a subnet, that the handler gives up. */
  lemma ViewAfterRestart(specs: Specs, sys: System, s: L.Subnet)
    requires s in specs && Valid(specs[s].net) && ViewIsSerial(specs, sys, s)
    ensures ViewIsSerial(specs, Do(specs, sys, Restart), s)
  {
    RunSnoc(specs[s], sys.log[s], C.GiveUp);
  }

  lemma RestartKeeps(specs: Specs, sys: System)
    requires ValidSpecs(specs) && Inv(specs, sys)
    ensures Inv(specs, Do(specs, sys, Restart))
  {
    var sys' := Do(specs, sys, Restart);
    forall s | s in specs ensures ViewIsSerial(specs, sys', s) {
      ViewAfterRestart(specs, sys, s);
    }
    L.InitialInv(sys'.lock);
  }

  lemma StepKeeps(specs: Specs, sys: System, a: Action)
    requires ValidSpecs(specs) && Inv(specs, sys) && Can(specs, sys, a)
    ensures Inv(specs, Do(specs, sys, a))
  {
    match a
    case LockStep(t, ask) => LockStepKeeps(specs, sys, t, ask);
    case Locked(t, e) => LockedKeeps(specs, sys, t, e);
    case Outside(s, e) => OutsideKeeps(specs, sys, s, e);
    case Restart => RestartKeeps(specs, sys);
  }

  lemma {:induction false} RunKeeps(specs: Specs, run: seq<System>, i: nat)
    requires ValidSpecs(specs) && IsRun(specs, run) && i < |run|
    ensures Inv(specs, run[i])
  {
    if i == 0 {
      assert forall s :: s in specs ==> C.Run(specs[s], []) == C.Initial(specs[s]);
    } else {
      RunKeeps(specs, run, i - 1);
      assert Step(specs, run[i - 1], run[i]);
      var a :| Can(specs, run[i - 1], a) && run[i] == Do(specs, run[i - 1], a);
      StepKeeps(specs, run[i - 1], a);
    }
  }

  /** At every point of every interleaving a thread has a choice or a count only while it
      holds the lock, and the objects of a subnet, with what the holder of its lock has, are
      the result of the logged events, one after the other. */
  lemma InterleavingIsSerial(specs: Specs, run: seq<System>, i: nat, s: L.Subnet)
    requires ValidSpecs(specs) && IsRun(specs, run) && i < |run| && s in specs
    ensures forall t :: t in run[i].jobs ==>
              t in run[i].lock.pcs && run[i].lock.pcs[t].Working?
              && run[i].lock.pcs[t].s in run[i].lock.owner && run[i].lock.owner[run[i].lock.pcs[t].s] == t
    ensures s in run[i].stored && s in run[i].log
    ensures View(run[i], s) == C.Run(specs[s], run[i].log[s])
  {
    RunKeeps(specs, run, i);
    assert ViewIsSerial(specs, run[i], s);
    forall t | t in run[i].jobs
      ensures Working(run[i], t) && L.Holder(run[i].lock, t, run[i].lock.pcs[t].s)
    {
    }
  }

  /** So at every point of an interleaving whose events are safe, which for a new choice means
      that the cached subnet covers what is held and the gateway, no address is held twice, and
      what a thread has chosen for an object no other object holds. */
  lemma NoAddressTwiceInterleaved(specs: Specs, run: seq<System>, i: nat, s: L.Subnet)
    requires ValidSpecs(specs) && IsRun(specs, run) && i < |run| && s in specs
    requires s in run[i].log && C.SafeRun(specs[s], run[i].log[s])
    ensures s in run[i].stored && C.EachAddressOnce(View(run[i], s))
  {
    InterleavingIsSerial(specs, run, i, s);
    C.SafeRunKeeps(specs[s], run[i].log[s]);
    C.InvMeansOnce(View(run[i], s));
  }

  /** In particular if the handlers see what is stored and all goes in order. */
  lemma OrderlyInterleaved(specs: Specs, run: seq<System>, i: nat, s: L.Subnet)
    requires ValidSpecs(specs) && IsRun(specs, run) && i < |run| && s in specs
    requires s in run[i].log && O.OrderlyRun(specs[s], run[i].log[s])
    ensures s in run[i].stored && C.EachAddressOnce(View(run[i], s))
  {
    O.OrderlyRunIsSafe(specs[s], run[i].log[s]);
    NoAddressTwiceInterleaved(specs, run, i, s);
  }

  /** And if no event loses an address, the used list covers what is held, the gateway and what
      the thread under the lock has committed, and nothing else. */
  lemma NoLeakInterleaved(specs: Specs, run: seq<System>, i: nat, s: L.Subnet)
    requires ValidSpecs(specs) && IsRun(specs, run) && i < |run| && s in specs
    requires s in run[i].log && Leaks.TightRun(specs[s], run[i].log[s])
    ensures s in run[i].stored
    ensures forall a: Addr :: Covers(run[i].stored[s].subnet.usedIP, a) <==> Leaks.Accounted(View(run[i], s), a)
  {
    InterleavingIsSerial(specs, run, i, s);
    Leaks.UsedIsExactlyAccounted(specs[s], run[i].log[s]);
  }
}
