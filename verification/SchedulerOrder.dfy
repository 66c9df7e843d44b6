/** Which thread runs: over all runs the ready list is ordered and nobody on it outranks the
    running thread, until a donation raises a thread that is READY. */
module SchedulerOrder {
  import opened Machine
  import opened Scheduler
  import opened SchedulerInvariants
  import opened SchedulerRuns
  import opened SchedulerTheorems
  import opened SchedulerDonors

  function Prio(s: State, t: Tid): int { Get(s.threads, t).priority }

  ghost predicate ReadySorted(s: State) { SortedByPriority(s.threads, s.ready) }

  /** Nobody on the ready list outranks the running thread. */
  ghost predicate HighestRuns(s: State) { forall t | t in s.ready :: Prio(s, t) <= Prio(s, s.current) }

  ghost predicate SamePrios(s: State, s': State, q: seq<Tid>) { forall t | t in q :: Prio(s', t) == Prio(s, t) }

  // ----- the pieces of a step -----

  lemma StaysSorted(s: State, s': State)
    requires ReadySorted(s) && s'.ready == s.ready && SamePrios(s, s', s.ready)
    ensures ReadySorted(s')
  {
    forall i, j | 0 <= i < j < |s.ready| ensures Prio(s', s.ready[i]) >= Prio(s', s.ready[j]) {
      assert s.ready[i] in s.ready && s.ready[j] in s.ready;
    }
  }

  lemma DispatchPrios(s: State)
    ensures forall t :: Prio(Dispatch(s), t) == Prio(s, t)
    ensures s.ready == [] ==> Dispatch(s).ready == []
    ensures s.ready != [] ==> Dispatch(s).ready == s.ready[1..] && Dispatch(s).current == s.ready[0]
  {
  }

  lemma DispatchOrder(s: State)
    requires ReadySorted(s)
    ensures ReadySorted(Dispatch(s)) && HighestRuns(Dispatch(s))
  {
    DispatchPrios(s);
    hide Dispatch;
    var s' := Dispatch(s);
    forall i, j | 0 <= i < j < |s'.ready| ensures Prio(s', s'.ready[i]) >= Prio(s', s'.ready[j]) {
      assert Prio(s, s.ready[i + 1]) >= Prio(s, s.ready[j + 1]);
    }
    forall t | t in s'.ready ensures Prio(s', t) <= Prio(s', s'.current) {
      var i :| 0 <= i < |s'.ready| && s'.ready[i] == t;
      assert Prio(s, s.ready[0]) >= Prio(s, s.ready[i + 1]);
    }
  }

  lemma UnblockOrder(s: State, t: Tid)
    ensures ReadySorted(s) ==> ReadySorted(Unblock(s, t))
    ensures forall x :: Prio(Unblock(s, t), x) == Prio(s, x)
    ensures Unblock(s, t).current == s.current && forall x :: x in Unblock(s, t).ready <==> x in s.ready || x == t
  {
    InsertOrderedContents(s.threads, s.ready, t);
    if ReadySorted(s) {
      InsertOrderedSorted(s.threads, s.ready, t);
      StaysSorted(s.(ready := InsertOrdered(s.threads, s.ready, t)), Unblock(s, t));
    }
  }

  lemma YieldOrder(s: State)
    requires ReadySorted(s)
    ensures ReadySorted(Yield(s)) && HighestRuns(Yield(s))
  {
    hide Dispatch;
    var s1 := if s.current == s.idle then s else s.(ready := InsertOrdered(s.threads, s.ready, s.current));
    InsertOrderedSorted(s.threads, s.ready, s.current);
    var s2 := SetThread(s1, s1.current, Me(s1).(status := Ready));
    StaysSorted(s1, s2);
    DispatchOrder(s2);
  }

  lemma YieldIfOutrankedOrder(s: State)
    requires ReadySorted(s)
    ensures ReadySorted(YieldIfOutranked(s)) && HighestRuns(YieldIfOutranked(s))
  {
    hide Yield;
    YieldOrder(s);
    FirstIsHighest(s);
  }

  lemma FirstIsHighest(s: State)
    requires ReadySorted(s)
    ensures forall t | t in s.ready :: Prio(s, t) <= Prio(s, s.ready[0])
  {
    forall t | t in s.ready ensures Prio(s, t) <= Prio(s, s.ready[0]) {
      var i :| 0 <= i < |s.ready| && s.ready[i] == t;
      if i > 0 { assert Prio(s, s.ready[0]) >= Prio(s, s.ready[i]); }
    }
  }

  lemma {:induction false} WakeDueOrder(s: State)
    requires ReadySorted(s)
    ensures ReadySorted(WakeDue(s))
    decreases |s.sleepers|
  {
    if s.sleepers != [] && s.now >= WakeTime(s.threads, s.sleepers[0]) {
      UnblockOrder(s.(sleepers := s.sleepers[1..]), s.sleepers[0]);
      WakeDueOrder(Unblock(s.(sleepers := s.sleepers[1..]), s.sleepers[0]));
    }
  }

  /** A timer tick makes up for an interrupt that has readied a thread of higher priority. */
  lemma TickOrder(s: State)
    requires ReadySorted(s)
    ensures ReadySorted(Tick(s)) && HighestRuns(Tick(s))
  {
    hide WakeDue, Yield;
    WakeDueOrder(s.(now := s.now + 1));
    var s1 := WakeDue(s.(now := s.now + 1));
    var s2 := s1.(sliceTicks := s1.sliceTicks + 1);
    StaysSorted(s1, s2);
    YieldOrder(s2);
    FirstIsHighest(s2);
  }

  /** sema_up before its yield. */
  lemma RaiseOrder(s: State, r: SemaRef, sorted: seq<Tid>)
    requires ReadySorted(s)
    ensures var s' := Raise(s, r, sorted);
            ReadySorted(s') && (HighestRuns(s) ==> (HighestRuns(s') <==> sorted == [] || Prio(s, sorted[0]) <= Prio(s, s.current)))
  {
    hide Unblock;
    if sorted != [] { UnblockOrder(s.(semas := s.semas[r := Sema(SemaOf(s, r).value + 1, sorted[1..])]), sorted[0]); }
  }

  /** Only the running thread changes, which is not on the ready list. */
  lemma SelfOrder(s: State, s': State)
    requires ReadySorted(s) && s'.ready == s.ready && s.current !in s.ready
    requires forall t | t != s.current :: Prio(s', t) == Prio(s, t)
    ensures ReadySorted(s')
  {
    StaysSorted(s, s');
  }

  // ----- donation -----

  /** The state in which a step has just donated. In the other steps the running thread waits
      for no lock, and there is nothing to donate to. */
  function Donated(s: State, a: Step): State {
    match a
    case Acquire(l, at) =>
      var s1 := Register(Enter(s, Downing(OfLock(l))), l, at);
      if SemaOf(s1, OfLock(l)).value == 0 then DonateFromCurrent(s1) else s1
    case Resume =>
      if Me(s).doing.Downing? && SemaOf(s, Me(s).doing.sema).value == 0 then DonateFromCurrent(s) else s
    case _ => s
  }

  /** Step a raises no READY thread. */
  ghost predicate SparesReady(s: State, a: Step) { SamePrios(s, Donated(s, a), s.ready) }

  /** Step a raises a READY thread, and the thread at the head of the ready list, which is now
      dispatched, remains below the donor. */
  ghost predicate Starves(s: State, a: Step) {
    !SparesReady(s, a) && Prio(Donated(s, a), s.ready[0]) < Prio(s, s.current)
  }

  lemma DonationOrder(s: State)
    requires HighestRuns(s)
    ensures var d := DonateFromCurrent(s);
            && d.ready == s.ready && d.current == s.current && Prio(d, s.current) == Prio(s, s.current)
            && forall t | t in s.ready :: Prio(d, t) <= Prio(s, s.current) && (Prio(d, t) != Prio(s, t) ==> Prio(d, t) == Prio(s, s.current))
  {
    hide Donate;
    DonationStaysOnChain(s.threads, s.holder, s.current, 8, s.current);
    forall t | t in s.ready
      ensures var d := DonateFromCurrent(s); Prio(d, t) <= Prio(s, s.current) && (Prio(d, t) != Prio(s, t) ==> Prio(d, t) == Prio(s, s.current))
    {
      DonationStaysOnChain(s.threads, s.holder, s.current, 8, t);
    }
  }

  lemma ParkOrder(s: State, r: SemaRef)
    ensures ParkOn(s, r).ready == s.ready && forall t :: Prio(ParkOn(s, r), t) == Prio(s, t)
  {
  }

  lemma GrantOrder(s: State, r: SemaRef)
    ensures Grant(s, r).ready == s.ready && Grant(s, r).current == s.current && forall t :: Prio(Grant(s, r), t) == Prio(s, t)
  {
  }

  /** The running thread blocks after its donation. */
  lemma BlockOrder(s: State, r: SemaRef)
    requires ReadySorted(s)
    ensures var s' := Dispatch(ParkOn(DonateFromCurrent(s), r));
            && (SamePrios(s, DonateFromCurrent(s), s.ready) ==> ReadySorted(s') && HighestRuns(s'))
            && (HighestRuns(s) && !SamePrios(s, DonateFromCurrent(s), s.ready)
                ==> (HighestRuns(s') <==> Prio(DonateFromCurrent(s), s.ready[0]) >= Prio(s, s.current)))
  {
    var d := DonateFromCurrent(s);
    hide Dispatch, ParkOn, DonateFromCurrent, ReadySorted;
    DonateReady(s);
    ParkOrder(d, r);
    var p := ParkOn(d, r);
    DispatchPrios(p);
    if SamePrios(s, d, s.ready) {
      StaysSorted(s, p);
      DispatchOrder(p);
    } else if HighestRuns(s) {
      DonationOrder(s);
      RaisedBehind(s, d, Dispatch(p));
    }
  }

  lemma DonateReady(s: State)
    ensures DonateFromCurrent(s).ready == s.ready
  {
  }

  lemma RaisedBehind(s: State, d: State, s': State)
    requires !SamePrios(s, d, s.ready) && s'.ready == s.ready[1..] && s'.current == s.ready[0] && forall t :: Prio(s', t) == Prio(d, t)
    requires forall t | t in s.ready :: Prio(d, t) <= Prio(s, s.current) && (Prio(d, t) != Prio(s, t) ==> Prio(d, t) == Prio(s, s.current))
    ensures HighestRuns(s') <==> Prio(d, s.ready[0]) >= Prio(s, s.current)
  {
    var t :| t in s.ready && Prio(d, t) != Prio(s, t);
    assert s.ready == [s.ready[0]] + s.ready[1..];
    assert t in s'.ready || t == s.ready[0];
    assert forall x | x in s'.ready :: x in s.ready;
  }

  // ----- one step -----

  lemma RegisterOrder(s: State, l: LockId, at: nat)
    ensures var s1 := Register(Enter(s, Downing(OfLock(l))), l, at);
            s1.ready == s.ready && s1.current == s.current && forall t :: Prio(s1, t) == Prio(s, t)
  {
  }

  /** What StepOrder says of step a, from s to s'. */
  ghost predicate Ordered(s: State, a: Step, s': State) {
    && (SparesReady(s, a) ==> ReadySorted(s'))
    && (HighestRuns(s) && !a.UpFromInterrupt? ==> (HighestRuns(s') <==> !Starves(s, a)))
  }

  lemma AcquireOrder(s: State, l: LockId, at: nat)
    requires ReadySorted(s)
    ensures Ordered(s, Acquire(l, at), LockAcquire(s, l, at))
  {
    var s1 := Register(Enter(s, Downing(OfLock(l))), l, at);
    RegisterOrder(s, l, at);
    hide Register, Enter, Dispatch, ParkOn, DonateFromCurrent, Grant;
    StaysSorted(s, s1);
    BlockOrder(s1, OfLock(l));
    GrantOrder(s1, OfLock(l));
    if SemaOf(s1, OfLock(l)).value != 0 { StaysSorted(s1, Grant(s1, OfLock(l))); }
  }

  lemma ResumeOrder(s: State)
    requires ReadySorted(s)
    ensures Ordered(s, Resume, Apply(s, Resume))
  {
    hide Dispatch, ParkOn, DonateFromCurrent, Grant;
    if Me(s).doing.Downing? {
      var r := Me(s).doing.sema;
      BlockOrder(s, r);
      GrantOrder(s, r);
      if SemaOf(s, r).value != 0 { StaysSorted(s, Grant(s, r)); }
    } else {
      StaysSorted(s, Enter(s, User));
    }
  }

  /** A thread that waits for no lock donates nothing. */
  lemma DownOrder(s: State, id: nat)
    requires ReadySorted(s) && Me(s).waitlock == None
    ensures ReadySorted(SemaDown(s, Plain(id))) && (HighestRuns(s) ==> HighestRuns(SemaDown(s, Plain(id))))
  {
    var s1 := Enter(s, Downing(Plain(id)));
    assert DonateFromCurrent(s1) == s1;
    hide Dispatch, ParkOn, DonateFromCurrent, Grant;
    StaysSorted(s, s1);
    BlockOrder(s1, Plain(id));
    GrantOrder(s1, Plain(id));
    if SemaOf(s1, Plain(id)).value != 0 { StaysSorted(s1, Grant(s1, Plain(id))); }
  }

  lemma ReleaseOrder(s: State, l: LockId, sorted: seq<Tid>)
    requires ReadySorted(s) && s.current !in s.ready
    ensures ReadySorted(LockRelease(s, l, sorted)) && HighestRuns(LockRelease(s, l, sorted))
  {
    var s1 := CheckDonors(DropDonors(s, l));
    SelfOrder(s, s1);
    hide CheckDonors, DropDonors, Raise, YieldIfOutranked;
    RaiseOrder(s1, OfLock(l), sorted);
    YieldIfOutrankedOrder(Raise(s1, OfLock(l), sorted));
  }

  lemma SetPriorityOrder(s: State, p: int)
    requires ReadySorted(s) && s.current !in s.ready && Me(s).waitlock == None
    ensures ReadySorted(SetPriority(s, p)) && (HighestRuns(s) ==> HighestRuns(SetPriority(s, p)))
  {
    var s1 := CheckDonors(SetThread(s, s.current, Me(s).(initialPriority := p)));
    SelfOrder(s, s1);
    assert DonateFromCurrent(s1) == s1;
    hide YieldIfOutranked;
    YieldIfOutrankedOrder(s1);
  }

  lemma CreateOrder(s: State, t: Tid, p: int)
    requires ReadySorted(s) && t !in s.ready
    ensures ReadySorted(Create(s, t, p)) && HighestRuns(Create(s, t, p))
  {
    var s1 := SetThread(s, t, Thread(Blocked, p, p, None, [], User));
    StaysSorted(s, s1);
    hide Unblock, YieldIfOutranked;
    UnblockOrder(s1, t);
    YieldIfOutrankedOrder(Unblock(s1, t));
  }

  /** Leaving the processor by exit, sleep or idling. */
  lemma LeaveOrder(s: State, s1: State)
    requires ReadySorted(s) && s1.ready == s.ready && s.current !in s.ready
    requires forall t | t != s.current :: Prio(s1, t) == Prio(s, t)
    ensures ReadySorted(Dispatch(s1)) && HighestRuns(Dispatch(s1))
  {
    SelfOrder(s, s1);
    DispatchOrder(s1);
  }

  lemma RunningFacts(s: State)
    requires Inv(s)
    ensures s.current in s.threads && s.current !in s.ready && (forall t | t in s.ready :: t in s.threads)
    ensures Me(s).doing == User ==> Me(s).waitlock == None
  {
    assert WaitlockOk(s.threads[s.current]);
  }

  /** Every step keeps the ready list ordered unless its donation raises a READY thread. A step
      leaves somebody above the running thread exactly if it starves them, or if it is an
      interrupt that readies a higher thread. */
  lemma StepOrder(s: State, a: Step)
    requires Inv(s) && Enabled(s, a) && ReadySorted(s)
    ensures Ordered(s, a, Apply(s, a))
    ensures a.TimerTick? ==> HighestRuns(Apply(s, a))
    ensures a.UpFromInterrupt? && HighestRuns(s)
            ==> (HighestRuns(Apply(s, a)) <==> a.sorted == [] || Prio(s, a.sorted[0]) <= Prio(s, s.current))
  {
    RunningFacts(s);
    if a.Acquire? { AcquireOrder(s, a.lock, a.at); } else if a.Resume? { ResumeOrder(s); } else {
      hide Inv, Apply;
      OtherOrder(s, a);
    }
  }

  lemma OtherOrder(s: State, a: Step)
    requires Enabled(s, a) && !a.Acquire? && !a.Resume? && ReadySorted(s)
    requires s.current in s.threads && s.current !in s.ready && (forall t | t in s.ready :: t in s.threads) && Me(s).waitlock == None
    ensures ReadySorted(Apply(s, a)) && (a.TimerTick? || (HighestRuns(s) && !a.UpFromInterrupt?) ==> HighestRuns(Apply(s, a)))
    ensures a.UpFromInterrupt? && HighestRuns(s)
            ==> (HighestRuns(Apply(s, a)) <==> a.sorted == [] || Prio(s, a.sorted[0]) <= Prio(s, s.current))
  {
    hide SemaDown, Raise, YieldIfOutranked, Yield, LockRelease, SetPriority, Create, Dispatch, Grant, Tick, ReadySorted, HighestRuns, IsSortOf;
    match a
    case Down(id) => DownOrder(s, id);
    case Up(id, sorted) => RaiseOrder(s, Plain(id), sorted); YieldIfOutrankedOrder(Raise(s, Plain(id), sorted));
    case UpFromInterrupt(id, sorted) => RaiseOrder(s, Plain(id), sorted);
    case TryDownPlain(id) => TryOrder(s, Plain(id));
    case TryAcquire(l) => TryOrder(s, OfLock(l));
    case Release(l, sorted) => ReleaseOrder(s, l, sorted);
    case ChangePriority(p) => SetPriorityOrder(s, p);
    case YieldCpu => YieldOrder(s);
    case NewThread(t, p) => CreateOrder(s, t, p);
    case Quit => LeaveOrder(s, s.(threads := s.threads - {s.current}));
    case SleepFor(ticks) => if ticks > 0 { LeaveOrder(s, Doze(Enter(s, Sleeping(s.now + ticks)))); }
    case TimerTick => TickOrder(s);
    case IdleBlocks => LeaveOrder(s, SetThread(s, s.current, Me(s).(status := Blocked)));
  }

  lemma TryOrder(s: State, r: SemaRef)
    requires ReadySorted(s)
    ensures ReadySorted(TryDown(s, r)) && (HighestRuns(s) ==> HighestRuns(TryDown(s, r)))
  {
    hide Grant;
    GrantOrder(s, r);
    if SemaOf(s, r).value > 0 { StaysSorted(s, Grant(s, r)); }
  }

  // ----- runs -----

  /** No step of the run raises a READY thread. */
  ghost predicate RunSparesReady(s: State, run: seq<Step>)
    decreases |run|
  {
    run != [] ==> SparesReady(s, run[0]) && RunSparesReady(Apply(s, run[0]), run[1..])
  }

  /** Every interrupt that ups a semaphore has been followed by a tick; high says so of the
      steps before the run. */
  predicate Ticked(high: bool, run: seq<Step>)
    decreases |run|
  {
    if run == [] then high else Ticked(run[0].TimerTick? || (high && !run[0].UpFromInterrupt?), run[1..])
  }

  lemma {:induction false} RunOrder(s: State, run: seq<Step>, high: bool)
    requires Inv(s) && ReadySorted(s) && IsRun(s, run) && RunSparesReady(s, run) && (high ==> HighestRuns(s))
    ensures ReadySorted(After(s, run)) && (Ticked(high, run) ==> HighestRuns(After(s, run)))
    decreases |run|
  {
    if run != [] {
      var a := run[0];
      StepKeepsInv(s, a);
      StepOrder(s, a);
      hide Inv, ReadySorted, HighestRuns, SparesReady, Apply, Enabled;
      RunOrder(Apply(s, a), run[1..], a.TimerTick? || (high && !a.UpFromInterrupt?));
    }
  }

  /** Until a donation raises a READY thread the processor belongs to a highest thread. */
  lemma HighestThreadRuns(s: State, run: seq<Step>)
    requires Init(s) && IsRun(s, run) && RunSparesReady(s, run)
    ensures ReadySorted(After(s, run)) && (Ticked(true, run) ==> HighestRuns(After(s, run)))
  {
    InitInv(s);
    RunOrder(s, run, true);
  }

  // ----- a run in which it does not -----

  // Thread 0 holds lock 1 and is preempted by thread 1, which thread 2 preempts. Thread 2 then
  // waits for lock 1.
  const ONE_PREEMPTS := ONE_HELD.(threads := map[0 := Thread(Ready, 31, 31, None, [], User), 9 := IDLE, 1 := Thread(Running, 32, 32, None, [], User)],
                                  ready := [0], current := 1)
  const TWO_PREEMPTS := ONE_HELD.(threads := map[0 := Thread(Ready, 31, 31, None, [], User), 9 := IDLE, 1 := Thread(Ready, 32, 32, None, [], User),
                                                 2 := Thread(Running, 33, 33, None, [], User)], ready := [1, 0], current := 2)
  const STARVED := ONE_HELD.(threads := map[0 := Thread(Ready, 33, 31, None, [2], User), 9 := IDLE, 1 := Thread(Running, 32, 32, None, [], User),
                                            2 := Thread(Blocked, 33, 33, Some(1), [], Downing(OfLock(1)))],
                             semas := map[OfLock(1) := Sema(0, [2]), OfLock(2) := Sema(1, [])], ready := [0], current := 1)

  lemma OnePreempts()
    ensures Enabled(ONE_HELD, NewThread(1, 32)) && Apply(ONE_HELD, NewThread(1, 32)) == ONE_PREEMPTS
  {
    hide Create;
    Arrives(ONE_HELD, 1, 32);
    assert Create(ONE_HELD, 1, 32).threads == ONE_PREEMPTS.threads;
  }

  lemma TwoPreempts()
    ensures Enabled(ONE_PREEMPTS, NewThread(2, 33)) && Apply(ONE_PREEMPTS, NewThread(2, 33)) == TWO_PREEMPTS
  {
    var u := Unblock(SetThread(ONE_PREEMPTS, 2, Thread(Blocked, 33, 33, None, [], User)), 2);
    assert u.ready == [2, 0];
    InsertSecond(u.threads, 2, 0, 1);
    assert [2, 1, 0][1..] == [1, 0];
    assert Yield(u).threads == TWO_PREEMPTS.threads;
  }

  lemma InsertSecond(threads: map<Tid, Thread>, a: Tid, b: Tid, t: Tid)
    requires Get(threads, a).priority >= Get(threads, t).priority > Get(threads, b).priority
    ensures InsertOrdered(threads, [a, b], t) == [a, t, b]
  {
    assert [a, b][1..] == [b];
    assert InsertOrdered(threads, [b], t) == [t, b];
  }

  lemma TwoWaits()
    ensures Enabled(TWO_PREEMPTS, Acquire(1, 0)) && Apply(TWO_PREEMPTS, Acquire(1, 0)) == STARVED
  {
    WaitsParked(TWO_PREEMPTS, 1, 0);
    StarvedParked();
    hide LockAcquire, InsertDonor;
  }

  lemma StarvedParked()
    ensures Dispatch(TWO_PREEMPTS.(threads := TWO_PREEMPTS.threads[2 := Thread(Blocked, 33, 33, Some(1), [], Downing(OfLock(1)))][0 := Thread(Ready, 33, 31, None, [2], User)],
                                   semas := TWO_PREEMPTS.semas[OfLock(1) := Sema(0, [2])])) == STARVED
    ensures InsertDonor([], 2, 0) == [2] && Enabled(TWO_PREEMPTS, Acquire(1, 0))
  {
    StarvedThreads();
    assert TWO_PREEMPTS.semas[OfLock(1) := Sema(0, [2])] == STARVED.semas;
    assert [1, 0][1..] == [0];
  }

  lemma StarvedThreads()
    ensures TWO_PREEMPTS.threads[2 := Thread(Blocked, 33, 33, Some(1), [], Downing(OfLock(1)))][0 := Thread(Ready, 33, 31, None, [2], User)]
                                [1 := Thread(Running, 32, 32, None, [], User)] == STARVED.threads
  {
  }

  /** The donation has reached thread 0, but not its place on the ready list: the thread of
      priority 32 behind which it stands runs before it. */
  lemma DonationCanStarve()
    ensures Reachable(TWO_PREEMPTS) && ReadySorted(TWO_PREEMPTS) && HighestRuns(TWO_PREEMPTS)
    ensures Enabled(TWO_PREEMPTS, Acquire(1, 0)) && Apply(TWO_PREEMPTS, Acquire(1, 0)) == STARVED && Reachable(STARVED)
    ensures Starves(TWO_PREEMPTS, Acquire(1, 0)) && !HighestRuns(STARVED)
  {
    FirstIsTaken();
    OnePreempts();
    TwoPreempts();
    TwoWaits();
    BootIsInit();
    StarvedOrder();
    hide Apply, Enabled, Init, ReadySorted, HighestRuns, Starves, IsRun;
    Follow([BOOT, ONE_HELD, ONE_PREEMPTS, TWO_PREEMPTS], [Acquire(1, 0), NewThread(1, 32), NewThread(2, 33)]);
    Follow([BOOT, ONE_HELD, ONE_PREEMPTS, TWO_PREEMPTS, STARVED], [Acquire(1, 0), NewThread(1, 32), NewThread(2, 33), Acquire(1, 0)]);
    assert Reachable(TWO_PREEMPTS) && Reachable(STARVED);
    ReachableInv(TWO_PREEMPTS);
    hide Inv, Reachable;
    StepOrder(TWO_PREEMPTS, Acquire(1, 0));
  }

  lemma StarvedOrder()
    ensures ReadySorted(TWO_PREEMPTS) && HighestRuns(TWO_PREEMPTS) && !HighestRuns(STARVED)
  {
    assert 0 in STARVED.ready;
  }
}
