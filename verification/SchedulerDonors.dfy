/** What a thread gets from its donation list, whose first member need not be its highest. */
module SchedulerDonors {
  import opened Machine
  import opened Scheduler
  import opened SchedulerTheorems
  import opened SchedulerKernel

  /** p is the base priority, or the priority of a donor, and none of these is larger. */
  ghost predicate IsHighest(threads: map<Tid, Thread>, base: int, donors: seq<Tid>, p: int) {
    && p >= base && (forall d | d in donors :: p >= Get(threads, d).priority)
    && (p == base || exists d :: d in donors && Get(threads, d).priority == p)
  }

  /** priority_check_from_donation_list finds the highest priority exactly if no donor is above
      the base or the first donor is a highest one. */
  lemma FirstDonorDecides(s: State)
    requires s.current !in Me(s).donors
    ensures var me := Me(s);
            IsHighest(s.threads, me.initialPriority, me.donors, Me(CheckDonors(s)).priority)
            <==> (forall d | d in me.donors :: Get(s.threads, d).priority <= me.initialPriority)
                 || (me.donors != [] && forall d | d in me.donors :: Get(s.threads, d).priority <= Get(s.threads, me.donors[0]).priority)
  {
    var me := Me(s);
    if me.donors != [] { assert me.donors[0] in me.donors; }
  }

  // ----- a run in which it does not -----

  // Thread 0 holds locks 1 and 2. Threads 1 and 2, of priorities 32 and 33, wait for them, and
  // thread 2 has entered the donation list behind thread 1. Thread 9 is the idle thread.
  const IDLE := Thread(Blocked, 0, 0, None, [], User)
  const ONE_WAITS := Thread(Blocked, 32, 32, Some(1), [], Downing(OfLock(1)))
  const TWO_WAITS := Thread(Blocked, 33, 33, Some(2), [], Downing(OfLock(2)))

  function Semas(w1: seq<Tid>, w2: seq<Tid>): map<SemaRef, Sema> { map[OfLock(1) := Sema(0, w1), OfLock(2) := Sema(0, w2)] }

  const BOOT := State(map[0 := Thread(Running, 31, 31, None, [], User), 9 := IDLE], map[OfLock(1) := Sema(1, []), OfLock(2) := Sema(1, [])],
                      map[1 := None, 2 := None], [], [], 0, 9, 0, 0)
  const ONE_HELD := BOOT.(semas := map[OfLock(1) := Sema(0, []), OfLock(2) := Sema(1, [])], holder := map[1 := Some(0), 2 := None])
  const BOTH_HELD := BOOT.(semas := Semas([], []), holder := map[1 := Some(0), 2 := Some(0)])
  const ONE_RUNS := BOTH_HELD.(threads := map[0 := Thread(Ready, 31, 31, None, [], User), 9 := IDLE, 1 := Thread(Running, 32, 32, None, [], User)],
                               ready := [0], current := 1)
  const ONE_DONATES := BOTH_HELD.(threads := map[0 := Thread(Running, 32, 31, None, [1], User), 9 := IDLE, 1 := ONE_WAITS],
                                  semas := Semas([1], []))
  const TWO_RUNS := ONE_DONATES.(threads := map[0 := Thread(Ready, 32, 31, None, [1], User), 9 := IDLE, 1 := ONE_WAITS,
                                                2 := Thread(Running, 33, 33, None, [], User)], ready := [0], current := 2)
  const BOTH_DONATE := ONE_DONATES.(threads := map[0 := Thread(Running, 33, 31, None, [1, 2], User), 9 := IDLE, 1 := ONE_WAITS, 2 := TWO_WAITS],
                                    semas := Semas([1], [2]))
  const LOWERED := BOTH_DONATE.(threads := map[0 := Thread(Running, 32, 31, None, [1, 2], User), 9 := IDLE, 1 := ONE_WAITS, 2 := TWO_WAITS])

  lemma FirstIsTaken()
    ensures Enabled(BOOT, Acquire(1, 0)) && Apply(BOOT, Acquire(1, 0)) == ONE_HELD
  {
    assert Apply(BOOT, Acquire(1, 0)).threads == BOOT.threads;
  }

  lemma SecondIsTaken()
    ensures Enabled(ONE_HELD, Acquire(2, 0)) && Apply(ONE_HELD, Acquire(2, 0)) == BOTH_HELD
  {
    assert Apply(ONE_HELD, Acquire(2, 0)).threads == BOOT.threads;
  }

  /** A new thread that outranks thread 0, which alone can run, takes the processor. */
  lemma Arrives(s: State, t: Tid, p: int)
    requires s.current == 0 && s.idle == 9 && s.ready == [] && 0 in s.threads && t !in s.threads && s.sliceTicks == 0
    requires Me(s).priority < p
    ensures var running := Thread(Running, p, p, None, [], User);
            Create(s, t, p) == s.(threads := s.threads[0 := Me(s).(status := Ready)][t := running], ready := [0], current := t)
  {
    var u := Unblock(SetThread(s, t, Thread(Blocked, p, p, None, [], User)), t);
    assert u.ready == [t];
    assert InsertOrdered(u.threads, [t], 0) == [t] + InsertOrdered(u.threads, [t][1..], 0) == [t, 0];
    assert [t, 0][1..] == [0];
    var running := Thread(Running, p, p, None, [], User);
    assert Yield(u).threads == s.threads[0 := Me(s).(status := Ready)][t := running];
  }

  /** A thread waits for a lock of thread 0, to which it donates. */
  lemma Waits(s: State, l: LockId, at: nat)
    requires s.current != 0 && 0 in s.threads && s.current in s.threads && s.ready == [0] && s.sliceTicks == 0
    requires l in s.holder && s.holder[l] == Some(0) && OfLock(l) in s.semas && s.semas[OfLock(l)] == Sema(0, [])
    requires Me(s).waitlock == None && s.threads[0].waitlock == None && s.threads[0].priority < Me(s).priority
    ensures var waiting, th := Me(s).(status := Blocked, waitlock := Some(l), doing := Downing(OfLock(l))), s.threads[0];
            LockAcquire(s, l, at) == s.(threads := s.threads[s.current := waiting]
                                          [0 := th.(status := Running, priority := Me(s).priority, donors := InsertDonor(th.donors, s.current, at))],
                                        semas := s.semas[OfLock(l) := Sema(0, [s.current])], ready := [], current := 0)
  {
    WaitsParked(s, l, at);
    hide LockAcquire, InsertDonor;
    var waiting, th := Me(s).(status := Blocked, waitlock := Some(l), doing := Downing(OfLock(l))), s.threads[0];
    assert LockAcquire(s, l, at).threads == s.threads[s.current := waiting]
             [0 := th.(status := Running, priority := Me(s).priority, donors := InsertDonor(th.donors, s.current, at))];
  }

  lemma WaitsParked(s: State, l: LockId, at: nat)
    requires s.current != 0 && 0 in s.threads && s.current in s.threads
    requires l in s.holder && s.holder[l] == Some(0) && OfLock(l) in s.semas && s.semas[OfLock(l)] == Sema(0, [])
    requires Me(s).waitlock == None && s.threads[0].waitlock == None && s.threads[0].priority < Me(s).priority
    ensures var waiting, th := Me(s).(status := Blocked, waitlock := Some(l), doing := Downing(OfLock(l))), s.threads[0];
            LockAcquire(s, l, at) == Dispatch(s.(threads := s.threads[s.current := waiting]
                                                   [0 := th.(priority := Me(s).priority, donors := InsertDonor(th.donors, s.current, at))],
                                                 semas := s.semas[OfLock(l) := Sema(0, [s.current])]))
  {
    var r := Register(Enter(s, Downing(OfLock(l))), l, at);
    WaitsDonates(r);
    hide Donate, InsertDonor, Dispatch;
    var d := DonateFromCurrent(r);
    assert InsertOrdered(d.threads, [], s.current) == [s.current];
    var waiting, th := Me(s).(status := Blocked, waitlock := Some(l), doing := Downing(OfLock(l))), s.threads[0];
    assert ParkOn(d, OfLock(l)).threads == s.threads[s.current := waiting]
             [0 := th.(priority := Me(s).priority, donors := InsertDonor(th.donors, s.current, at))];
  }

  lemma WaitsDonates(r: State)
    requires r.current != 0 && Me(r).waitlock.Some? && HolderOf(r.holder, Me(r).waitlock.value) == Some(0)
    requires Get(r.threads, 0).waitlock == None && Get(r.threads, 0).priority < Me(r).priority
    ensures DonateFromCurrent(r) == r.(threads := r.threads[0 := Get(r.threads, 0).(priority := Me(r).priority)])
  {
    var raised := r.threads[0 := Get(r.threads, 0).(priority := Me(r).priority)];
    assert Donate(raised, r.holder, 0, 7) == raised;
  }

  lemma OneArrives()
    ensures Enabled(BOTH_HELD, NewThread(1, 32)) && Apply(BOTH_HELD, NewThread(1, 32)) == ONE_RUNS
  {
    hide Create;
    Arrives(BOTH_HELD, 1, 32);
    assert Create(BOTH_HELD, 1, 32).threads == ONE_RUNS.threads;
  }

  lemma OneDonates()
    ensures Enabled(ONE_RUNS, Acquire(1, 0)) && Apply(ONE_RUNS, Acquire(1, 0)) == ONE_DONATES
  {
    hide LockAcquire;
    Waits(ONE_RUNS, 1, 0);
    assert InsertDonor([], 1, 0) == [1];
    assert LockAcquire(ONE_RUNS, 1, 0).threads == ONE_DONATES.threads;
    assert LockAcquire(ONE_RUNS, 1, 0).semas == ONE_DONATES.semas;
  }

  lemma TwoArrives()
    ensures Enabled(ONE_DONATES, NewThread(2, 33)) && Apply(ONE_DONATES, NewThread(2, 33)) == TWO_RUNS
  {
    hide Create;
    Arrives(ONE_DONATES, 2, 33);
    assert Create(ONE_DONATES, 2, 33).threads == TWO_RUNS.threads;
  }

  lemma TwoDonates()
    ensures Enabled(TWO_RUNS, Acquire(2, 1)) && Apply(TWO_RUNS, Acquire(2, 1)) == BOTH_DONATE
  {
    hide LockAcquire;
    Waits(TWO_RUNS, 2, 1);
    assert InsertDonor([1], 2, 1) == [1, 2];
    assert LockAcquire(TWO_RUNS, 2, 1).threads == BOTH_DONATE.threads;
    assert LockAcquire(TWO_RUNS, 2, 1).semas == BOTH_DONATE.semas;
  }

  lemma PriorityIsLowered()
    ensures Enabled(BOTH_DONATE, ChangePriority(31)) && Apply(BOTH_DONATE, ChangePriority(31)) == LOWERED
  {
    hide SetPriority;
    LoweredThreads();
    Lowers(BOTH_DONATE, 31);
  }

  lemma LoweredThreads()
    ensures BOTH_DONATE.threads[0 := BOTH_DONATE.threads[0].(initialPriority := 31, priority := 32)] == LOWERED.threads
  {
  }

  /** Setting a base below the priority of the first donor, with nobody ready. */
  lemma Lowers(s: State, base: int)
    requires s.current in s.threads && s.ready == [] && Me(s).donors != [] && s.current !in Me(s).donors
    requires base < Get(s.threads, Me(s).donors[0]).priority < Me(s).priority
    ensures SetPriority(s, base)
            == SetThread(s, s.current, Me(s).(initialPriority := base, priority := Get(s.threads, Me(s).donors[0]).priority))
  {
    var s0 := SetThread(s, s.current, Me(s).(initialPriority := base));
    var p := Get(s.threads, Me(s).donors[0]).priority;
    assert Me(s).donors[0] != s.current;
    assert CheckDonors(s0) == SetThread(s0, s.current, Me(s0).(priority := p));
    assert CheckDonors(s0).threads == s.threads[s.current := Me(s).(initialPriority := base, priority := p)];
  }

  /** The whole run. */
  lemma LoweredIsReached()
    ensures Reachable(LOWERED)
  {
    FirstIsTaken();
    SecondIsTaken();
    OneArrives();
    OneDonates();
    TwoArrives();
    TwoDonates();
    PriorityIsLowered();
    BootIsInit();
    hide Apply, Enabled, Init;
    var states := [BOOT, ONE_HELD, BOTH_HELD, ONE_RUNS, ONE_DONATES, TWO_RUNS, BOTH_DONATE, LOWERED];
    var run := [Acquire(1, 0), Acquire(2, 0), NewThread(1, 32), Acquire(1, 0), NewThread(2, 33), Acquire(2, 1), ChangePriority(31)];
    Follow(states, run);
  }

  lemma BootIsInit()
    ensures Init(BOOT)
  {
  }

  /** The code puts thread 2 there when its page lies below that of thread 1. Setting the base of
      thread 0 to what it is then takes it down to 32, although thread 2 waits with 33. */
  lemma FirstDonorIsNotHighest(addr: Tid -> int)
    requires addr(2) < addr(1)
    ensures IsPlaceAmong(addr, TWO_RUNS.threads, [1], 2, 1)
    ensures Reachable(LOWERED) && LOWERED.threads[0].priority == 32 && LOWERED.threads[2].priority == 33
    ensures WaitEdge(LOWERED.threads, LOWERED.holder, 2) == Some(0)
    ensures !IsHighest(LOWERED.threads, 31, LOWERED.threads[0].donors, 32)
  {
    LoweredIsReached();
    hide Reachable;
    assert 2 in LOWERED.threads[0].donors;
  }

  lemma {:induction false} Follow(states: seq<State>, run: seq<Step>)
    requires |states| == |run| + 1
    requires forall k | 0 <= k < |run| :: Enabled(states[k], run[k]) && Apply(states[k], run[k]) == states[k + 1]
    ensures IsRun(states[0], run) && After(states[0], run) == states[|run|]
    decreases |run|
  {
    hide Apply, Enabled;
    if run != [] { Follow(states[1..], run[1..]); }
  }
}
