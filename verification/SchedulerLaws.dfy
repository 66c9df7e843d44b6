/** What a caller of the scheduler sees: how long a thread sleeps, how long it keeps the
    processor, who holds a lock, who donates, and what priority a thread has. */
module SchedulerLaws {
  import opened Machine
  import opened Scheduler
  import opened SchedulerInvariants
  import opened SchedulerRuns
  import opened SchedulerTheorems
  import opened SchedulerSleep
  import opened SchedulerOrder

  /** The timer ticks in a run. */
  function TickCount(run: seq<Step>): nat
    decreases |run|
  {
    if run == [] then 0 else (if run[0].TimerTick? then 1 else 0) + TickCount(run[1..])
  }

  // ----- sleeping -----

  ghost predicate Asleep(s: State, t: Tid, until: int) {
    t in s.sleepers && WakeTime(s.threads, t) == until
  }

  lemma ClockStep(s: State, a: Step)
    ensures Apply(s, a).now == s.now + if a.TimerTick? then 1 else 0
  {
    hide WakeDue, Donate, Raise, WithoutWaitersFor, InsertOrdered, InsertByWakeTime, InsertDonor;
    WakeDueClock(s.(now := s.now + 1));
    match a
    case Up(id, sorted) => RaiseClock(s, Plain(id), sorted);
    case UpFromInterrupt(id, sorted) => RaiseClock(s, Plain(id), sorted);
    case Release(l, sorted) => ReleaseClock(s, l, sorted);
    case _ =>
  }

  lemma RaiseClock(s: State, r: SemaRef, sorted: seq<Tid>)
    ensures Raise(s, r, sorted).now == s.now
  {
  }

  lemma ReleaseClock(s: State, l: LockId, sorted: seq<Tid>)
    ensures LockRelease(s, l, sorted).now == s.now
  {
    hide Raise, WithoutWaitersFor, InsertOrdered;
    RaiseClock(CheckDonors(DropDonors(s, l)), OfLock(l), sorted);
  }

  lemma {:induction false} WakeDueClock(s: State)
    ensures WakeDue(s).now == s.now
    decreases |s.sleepers|
  {
    if s.sleepers != [] && s.now >= WakeTime(s.threads, s.sleepers[0]) {
      WakeDueClock(Unblock(s.(sleepers := s.sleepers[1..]), s.sleepers[0]));
    }
  }

  /** A step that is no tick wakes nobody; a tick wakes a sleeper exactly when its time has come,
      and puts it on the ready list or on the processor. */
  lemma AsleepStep(s: State, a: Step, t: Tid, until: int)
    requires Inv(s) && SleepersSorted(s) && Enabled(s, a) && Asleep(s, t, until)
    ensures var s' := Apply(s, a);
            && (a.TimerTick? && s.now + 1 >= until ==> t !in s'.sleepers && (t in s'.ready || t == s'.current))
            && (!a.TimerTick? || s.now + 1 < until ==> Asleep(s', t, until))
  {
    SleeperWaits(s, t);
    if a.TimerTick? {
      TickWakes(s, t);
    } else if a.SleepFor? {
      hide Inv, SleepersSorted, Enabled;
      SleepAdds(s, a.ticks, t);
    } else {
      hide Inv, SleepersSorted;
      StepSleepers(s, a);
    }
  }

  lemma SleeperWaits(s: State, t: Tid)
    requires Inv(s) && t in s.sleepers
    ensures t != s.current && s.current in s.threads
  {
    assert IsQueued(s, Some(s.current), t);
  }

  lemma SleepAdds(s: State, ticks: int, t: Tid)
    requires t in s.sleepers && t != s.current
    ensures t in Sleep(s, ticks).sleepers && WakeTime(Sleep(s, ticks).threads, t) == WakeTime(s.threads, t)
  {
    var s1 := Enter(s, Sleeping(s.now + ticks));
    InsertByWakeTimeContents(s1.threads, s1.sleepers, s1.current);
    hide InsertByWakeTime;
    assert ticks > 0 ==> Sleep(s, ticks).sleepers == InsertByWakeTime(s1.threads, s1.sleepers, s1.current);
  }

  lemma TickWakes(s: State, t: Tid)
    requires SleepersSorted(s) && t in s.sleepers
    ensures var s' := Tick(s);
            && (t in s'.sleepers <==> WakeTime(s.threads, t) > s.now + 1)
            && (t !in s'.sleepers ==> t in s'.ready || t == s'.current)
            && WakeTime(s'.threads, t) == WakeTime(s.threads, t)
  {
    hide WakeDue, Yield, SleepersSorted;
    var s0 := s.(now := s.now + 1);
    SleepersSame(s, s0);
    WakesExactlyDue(s0);
    var s1 := WakeDue(s0);
    var s2 := s1.(sliceTicks := s1.sliceTicks + 1);
    YieldTimes(s2);
    if t in s2.ready { YieldKeepsReady(s2, t); }
    assert WakeTime(Yield(s2).threads, t) == WakeTime(s2.threads, t);
  }

  lemma SleepersSame(s: State, s0: State)
    requires SleepersSorted(s) && s0 == s.(now := s.now + 1)
    ensures SleepersSorted(s0)
  {
  }

  lemma YieldKeepsReady(s: State, t: Tid)
    requires t in s.ready
    ensures t in Yield(s).ready || t == Yield(s).current
  {
    InsertOrderedContents(s.threads, s.ready, s.current);
    hide InsertOrdered;
    var q := if s.current == s.idle then s.ready else InsertOrdered(s.threads, s.ready, s.current);
    assert t in q;
    FirstOrRest(q);
  }

  lemma {:induction false} AsleepRun(s: State, run: seq<Step>, t: Tid, until: int)
    requires Inv(s) && SleepersSorted(s) && IsRun(s, run) && Asleep(s, t, until) && s.now + TickCount(run) < until
    ensures Asleep(After(s, run), t, until) && After(s, run).now == s.now + TickCount(run)
    decreases |run|
  {
    hide Inv, SleepersSorted, Asleep, Apply, Enabled;
    if run != [] {
      AsleepStep(s, run[0], t, until);
      ClockStep(s, run[0]);
      StepKeepsInv(s, run[0]);
      StepStaysSorted(s, run[0]);
      AsleepRun(Apply(s, run[0]), run[1..], t, until);
    }
  }

  lemma FallsAsleep(s: State, n: int)
    requires n > 0
    ensures Asleep(Apply(s, SleepFor(n)), s.current, s.now + n)
  {
    var s1 := Enter(s, Sleeping(s.now + n));
    InsertByWakeTimeContents(s1.threads, s1.sleepers, s1.current);
    hide InsertByWakeTime;
  }

  /** timer_sleep over all runs: a thread that asks for n > 0 ticks is asleep until n ticks have
      come, and the n-th makes it ready or runs it. It does not sleep for n <= 0. */
  lemma SleepsExactly(s: State, n: int, run: seq<Step>)
    requires Reachable(s) && Enabled(s, SleepFor(n)) && IsRun(Apply(s, SleepFor(n)), run)
    ensures n <= 0 ==> Apply(s, SleepFor(n)) == s
    ensures var t, s2 := s.current, After(Apply(s, SleepFor(n)), run);
            && (TickCount(run) < n ==> t in s2.sleepers && t in s2.threads && s2.threads[t].status == Blocked)
            && (TickCount(run) == n - 1 && Enabled(s2, TimerTick) ==>
                 var s3 := Apply(s2, TimerTick); t !in s3.sleepers && (t in s3.ready || t == s3.current))
  {
    hide Reachable, Apply, Enabled, Inv, SleepersSorted, Asleep;
    if n <= 0 { NoSleep(s, n); } else {
      var s1 := Apply(s, SleepFor(n));
      SortedReachable(s);
      StepKeepsInv(s, SleepFor(n));
      StepStaysSorted(s, SleepFor(n));
      FallsAsleep(s, n);
      ClockStep(s, SleepFor(n));
      if TickCount(run) < n { SleepEnds(s1, run, s.current, s.now + n); }
    }
  }

  lemma NoSleep(s: State, n: int)
    requires n <= 0
    ensures Apply(s, SleepFor(n)) == s
  {
  }

  lemma SleepEnds(s: State, run: seq<Step>, t: Tid, until: int)
    requires Inv(s) && SleepersSorted(s) && IsRun(s, run) && Asleep(s, t, until) && s.now + TickCount(run) < until
    ensures var s2 := After(s, run);
            && t in s2.sleepers && t in s2.threads && s2.threads[t].status == Blocked
            && (s.now + TickCount(run) == until - 1 && Enabled(s2, TimerTick) ==>
                 var s3 := Apply(s2, TimerTick); t !in s3.sleepers && (t in s3.ready || t == s3.current))
  {
    hide Apply, Enabled, Inv, SleepersSorted, Asleep, IsRun;
    AsleepRun(s, run, t, until);
    var s2 := After(s, run);
    RunKeepsInv(s, run);
    RunStaysSorted(s, run);
    IsBlocked(s2, t, until);
    if s.now + TickCount(run) == until - 1 && Enabled(s2, TimerTick) { AsleepStep(s2, TimerTick, t, until); }
  }

  lemma SortedReachable(s: State)
    requires Reachable(s)
    ensures Inv(s) && SleepersSorted(s)
  {
    var s0, run :| Init(s0) && IsRun(s0, run) && s == After(s0, run);
    InitInv(s0);
    RunKeepsInv(s0, run);
    RunStaysSorted(s0, run);
  }

  lemma IsBlocked(s: State, t: Tid, until: int)
    requires Inv(s) && Asleep(s, t, until)
    ensures t in s.sleepers && t in s.threads && s.threads[t].status == Blocked
  {
    assert IsQueued(s, Some(s.current), t);
  }

  // ----- time slices -----

  /** Step a ends the turn of the running thread. */
  predicate EndsTurn(s: State, a: Step) { a.YieldCpu? || a.IdleBlocks? || Apply(s, a).current != s.current }

  predicate KeepsTurn(s: State, run: seq<Step>)
    decreases |run|
  {
    run != [] ==> !EndsTurn(s, run[0]) && KeepsTurn(Apply(s, run[0]), run[1..])
  }

  /** The ticks of a turn that find another thread ready. */
  function BusyTicks(s: State, run: seq<Step>): nat
    decreases |run|
  {
    if run == [] then 0
    else (if run[0].TimerTick? && Apply(s, run[0]).ready != [] then 1 else 0) + BusyTicks(Apply(s, run[0]), run[1..])
  }

  ghost predicate SameSlice(s: State, s': State) { s'.current == s.current && s'.sliceTicks == s.sliceTicks }

  lemma YieldTurn(s: State)
    requires s.current !in s.ready
    ensures Yield(s).sliceTicks == 0
    ensures s.ready != [] && Prio(s, s.current) <= Prio(s, s.ready[0])
            ==> Yield(s).current == s.ready[0] && (s.current != s.idle ==> s.current in Yield(s).ready)
  {
    InsertOrderedContents(s.threads, s.ready, s.current);
    if s.ready != [] { assert s.ready[0] in s.ready; }
    var q := if s.current == s.idle then s.ready else InsertOrdered(s.threads, s.ready, s.current);
    if q != [] { FirstOrRest(q); }
  }

  lemma YieldIfOutrankedTurn(s: State)
    requires s.current !in s.ready
    ensures if YieldIfOutranked(s).current == s.current then SameSlice(s, YieldIfOutranked(s)) else YieldIfOutranked(s).sliceTicks == 0
  {
    hide Yield;
    YieldTurn(s);
    if s.ready != [] { assert s.ready[0] in s.ready; }
  }

  lemma UpTurn(s: State, r: SemaRef, sorted: seq<Tid>)
    requires Placed(s, Some(s.current)) && r in s.semas && IsSortOf(s.threads, sorted, s.semas[r].waiters)
    ensures SameSlice(s, Raise(s, r, sorted)) && s.current !in Raise(s, r, sorted).ready
  {
    hide Placed;
    RaisePlaced(s, r, sorted);
    RaiseSame(s, r, sorted);
    NotReady(Raise(s, r, sorted));
  }

  lemma RaiseSame(s: State, r: SemaRef, sorted: seq<Tid>)
    ensures SameSlice(s, Raise(s, r, sorted))
  {
  }

  lemma NotReady(s: State)
    requires Placed(s, Some(s.current))
    ensures s.current !in s.ready
  {
  }

  /** What an enabled step does to the slice: a turn that ends starts a new one, and within a turn
      exactly the busy ticks count. */
  lemma SliceStep(s: State, a: Step)
    requires Inv(s) && Enabled(s, a)
    ensures Apply(s, a).sliceTicks == if EndsTurn(s, a) then 0 else s.sliceTicks + BusyTicks(s, [a])
  {
    NotReady(s);
    assert BusyTicks(s, [a]) == if a.TimerTick? && Apply(s, a).ready != [] then 1 else 0 by { assert [a][1..] == []; }
    if a.TimerTick? { TickTurn(s); } else { SliceOther(s, a); }
  }

  lemma {:induction false} WakeDueSlice(s: State)
    ensures SameSlice(s, WakeDue(s)) && WakeDue(s).idle == s.idle
    decreases |s.sleepers|
  {
    if s.sleepers != [] && s.now >= WakeTime(s.threads, s.sleepers[0]) {
      WakeDueSlice(Unblock(s.(sleepers := s.sleepers[1..]), s.sleepers[0]));
    }
  }

  /** After a tick either the turn has gone on, and whoever is ready is lower, or equal and the slice
      is not over; or the turn has ended, for a higher thread or for an equal one at the end of
      the slice. */
  ghost predicate TurnDecided(s: State, s': State, used: nat) {
    if s'.current == s.current
    then s'.ready == [] || Prio(s', s'.ready[0]) < Prio(s', s.current) || (used < 4 && Prio(s', s'.ready[0]) == Prio(s', s.current))
    else (Prio(s', s'.current) > Prio(s', s.current) || (used >= 4 && Prio(s', s'.current) == Prio(s', s.current)))
         && (s.current != s.idle ==> s.current in s'.ready)
  }

  lemma TickTurn(s: State)
    requires Inv(s)
    ensures var s' := Tick(s);
            && s'.sliceTicks == (if s'.current != s.current then 0 else s.sliceTicks + if s'.ready != [] then 1 else 0)
            && TurnDecided(s, s', s.sliceTicks + 1)
  {
    hide Inv, WakeDue, Yield;
    var s0 := s.(now := s.now + 1);
    LaterInv(s, s0);
    InvWakeDue(s0);
    WakeDueSlice(s0);
    var s1 := WakeDue(s0);
    var s2 := s1.(sliceTicks := s1.sliceTicks + 1);
    InvNotReady(s1);
    YieldTurn(s2);
    YieldPrios(s2);
    if s2.ready != [] { assert s2.ready[0] in s2.ready; }
  }

  lemma LaterInv(s: State, s0: State)
    requires Inv(s) && s0 == s.(now := s.now + 1)
    ensures Inv(s0)
  {
    hide Placed, Rest;
    PlacedFrame(s, s0, Some(s.current));
    RestFrame(s, s0);
  }

  lemma InvNotReady(s: State)
    requires Inv(s)
    ensures s.current !in s.ready
  {
    hide Rest;
    NotReady(s);
  }

  lemma YieldPrios(s: State)
    ensures forall t :: Prio(Yield(s), t) == Prio(s, t)
  {
    hide Dispatch, InsertOrdered;
    var s1 := if s.current == s.idle then s else s.(ready := InsertOrdered(s.threads, s.ready, s.current));
    DispatchPrios(SetThread(s1, s1.current, Me(s1).(status := Ready)));
  }

  lemma DispatchTurn(s: State, s1: State)
    requires s.current !in s.ready && s.current != s.idle && s1.ready == s.ready && s1.idle == s.idle
    ensures Dispatch(s1).sliceTicks == 0 && Dispatch(s1).current != s.current
  {
    if s.ready != [] { assert s.ready[0] in s.ready; }
  }

  lemma DownTurn(s: State, r: SemaRef)
    requires s.current !in s.ready && s.current != s.idle
    ensures if DownOnce(s, r).current == s.current then SameSlice(s, DownOnce(s, r)) else DownOnce(s, r).sliceTicks == 0
  {
    hide Dispatch, Donate;
    DispatchTurn(s, ParkOn(DonateFromCurrent(s), r));
  }

  lemma ReleaseTurn(s: State, l: LockId, sorted: seq<Tid>)
    requires Inv(s) && Enabled(s, Release(l, sorted))
    ensures var s' := LockRelease(s, l, sorted); if s'.current == s.current then SameSlice(s, s') else s'.sliceTicks == 0
  {
    LockHasSema(s, l);
    hide Inv, Raise, YieldIfOutranked, Placed, SortedByPriority;
    var s1 := CheckDonors(DropDonors(s, l));
    DropKeepsRest(s, l, s1);
    assert SameSlice(s, s1);
    UpTurn(s1, OfLock(l), sorted);
    YieldIfOutrankedTurn(Raise(s1, OfLock(l), sorted));
  }

  lemma SetPriorityTurn(s: State, p: int)
    requires s.current !in s.ready
    ensures var s' := SetPriority(s, p); if s'.current == s.current then SameSlice(s, s') else s'.sliceTicks == 0
  {
    hide YieldIfOutranked, Donate;
    YieldIfOutrankedTurn(CheckDonors(SetThread(s, s.current, Me(s).(initialPriority := p))));
  }

  lemma CreateTurn(s: State, t: Tid, p: int)
    requires s.current !in s.ready && t != s.current
    ensures var s' := Create(s, t, p); if s'.current == s.current then SameSlice(s, s') else s'.sliceTicks == 0
  {
    var s1 := SetThread(s, t, Thread(Blocked, p, p, None, [], User));
    InsertOrderedContents(s1.threads, s.ready, t);
    hide YieldIfOutranked, InsertOrdered;
    YieldIfOutrankedTurn(Unblock(s1, t));
  }

  /** Leaving the processor without going on the ready list ends the turn. */
  lemma LeaveTurn(s: State, a: Step)
    requires s.current !in s.ready && s.current != s.idle && (a.Quit? || a.SleepFor?)
    ensures var s' := Apply(s, a); if s'.current == s.current then SameSlice(s, s') else s'.sliceTicks == 0
  {
    hide Dispatch, InsertByWakeTime;
    match a
    case Quit => DispatchTurn(s, s.(threads := s.threads - {s.current}));
    case SleepFor(n) => DispatchTurn(s, Doze(Enter(s, Sleeping(s.now + n))));
  }

  lemma SliceOther(s: State, a: Step)
    requires Inv(s) && Enabled(s, a) && !a.TimerTick? && s.current !in s.ready
    ensures Apply(s, a).sliceTicks == if EndsTurn(s, a) then 0 else s.sliceTicks
  {
    hide Inv, IsSortOf, SortedByPriority, CheckDonors, DropDonors, Holds, DownOnce, Raise, YieldIfOutranked, Yield, LockRelease, SetPriority, Create, Register, Placed, Donate, InsertByWakeTime;
    BusyIsNotIdle(s);
    match a
    case Down(id) => DownTurn(Enter(s, Downing(Plain(id))), Plain(id));
    case Up(id, sorted) => InvIsPlaced(s); UpTurn(s, Plain(id), sorted); YieldIfOutrankedTurn(Raise(s, Plain(id), sorted));
    case UpFromInterrupt(id, sorted) => InvIsPlaced(s); UpTurn(s, Plain(id), sorted);
    case Acquire(l, at) => RegisterTurn(s, l, at); DownTurn(Register(Enter(s, Downing(OfLock(l))), l, at), OfLock(l));
    case Release(l, sorted) => ReleaseTurn(s, l, sorted);
    case ChangePriority(p) => SetPriorityTurn(s, p);
    case YieldCpu => YieldTurn(s);
    case NewThread(t, p) => CurrentIsThread(s); CreateTurn(s, t, p);
    case Quit => LeaveTurn(s, a);
    case SleepFor(n) => LeaveTurn(s, a);
    case Resume => if Me(s).doing.Downing? { DownTurn(s, Me(s).doing.sema); }
    case _ =>
  }

  lemma RegisterTurn(s: State, l: LockId, at: nat)
    ensures var s1 := Register(Enter(s, Downing(OfLock(l))), l, at); SameSlice(s, s1) && s1.ready == s.ready && s1.idle == s.idle
  {
  }

  lemma BusyIsNotIdle(s: State)
    requires Inv(s)
    ensures Me(s).doing != User ==> s.current != s.idle
  {
  }

  lemma InvIsPlaced(s: State)
    requires Inv(s)
    ensures Placed(s, Some(s.current))
  {
  }

  lemma CurrentIsThread(s: State)
    requires Inv(s)
    ensures s.current in s.threads
  {
  }

  lemma {:induction false} SliceRun(s: State, run: seq<Step>)
    requires Inv(s) && IsRun(s, run) && KeepsTurn(s, run)
    ensures Inv(After(s, run)) && After(s, run).current == s.current && After(s, run).sliceTicks == s.sliceTicks + BusyTicks(s, run)
    decreases |run|
  {
    hide Inv, Apply, Enabled;
    if run != [] {
      SliceStep(s, run[0]);
      assert [run[0]][1..] == [];
      StepKeepsInv(s, run[0]);
      SliceRun(Apply(s, run[0]), run[1..]);
    }
  }

  /** Round robin over all runs: after a step that starts a turn, and any run within the turn, the
      next tick goes on with the turn or ends it by the ticks that the turn has used. */
  lemma TimeSlices(s: State, a: Step, run: seq<Step>)
    requires Reachable(s) && Enabled(s, a) && EndsTurn(s, a)
    requires var s1 := Apply(s, a); IsRun(s1, run) && KeepsTurn(s1, run) && Enabled(After(s1, run), TimerTick)
    ensures var s1 := Apply(s, a); TurnDecided(After(s1, run), Apply(After(s1, run), TimerTick), BusyTicks(s1, run) + 1)
  {
    hide Apply, Enabled, Inv, Reachable, EndsTurn, TurnDecided, IsRun, KeepsTurn, BusyTicks;
    ReachableInv(s);
    StepKeepsInv(s, a);
    SliceStep(s, a);
    SliceRun(Apply(s, a), run);
    TickDecides(After(Apply(s, a), run));
  }

  lemma TickDecides(s: State)
    requires Inv(s)
    ensures TurnDecided(s, Apply(s, TimerTick), s.sliceTicks + 1)
  {
    hide Inv, TurnDecided, Tick;
    TickTurn(s);
  }

  // ----- holders, donors and base priorities -----

  /** Nobody but t changes its lock, its donors or its base priority, and no lock its holder. */
  ghost predicate SameClaims(s: State, s': State) {
    && s'.holder == s.holder
    && forall t :: SameClaim(Get(s.threads, t), Get(s'.threads, t))
  }

  ghost predicate SameClaim(a: Thread, b: Thread) {
    b.waitlock == a.waitlock && b.donors == a.donors && b.initialPriority == a.initialPriority
  }

  lemma DispatchClaims(s: State)
    ensures SameClaims(s, Dispatch(s))
  {
  }

  lemma YieldClaims(s: State)
    ensures SameClaims(s, Yield(s)) && SameClaims(s, YieldIfOutranked(s))
  {
    hide Dispatch, InsertOrdered;
    var s1 := if s.current == s.idle then s else s.(ready := InsertOrdered(s.threads, s.ready, s.current));
    DispatchClaims(SetThread(s1, s1.current, Me(s1).(status := Ready)));
  }

  lemma UnblockClaims(s: State, t: Tid)
    ensures SameClaims(s, Unblock(s, t)) && Unblock(s, t).current == s.current
  {
  }

  lemma RaiseClaims(s: State, r: SemaRef, sorted: seq<Tid>)
    ensures SameClaims(s, Raise(s, r, sorted))
  {
  }

  lemma DonateClaims(s: State)
    ensures SameClaims(s, DonateFromCurrent(s)) && DonateFromCurrent(s).semas == s.semas && DonateFromCurrent(s).current == s.current
  {
    hide Donate;
    forall t ensures SameClaim(Get(s.threads, t), Get(DonateFromCurrent(s).threads, t)) { DonationStaysOnChain(s.threads, s.holder, s.current, 8, t); }
  }

  lemma {:induction false} WakeDueClaims(s: State)
    ensures SameClaims(s, WakeDue(s))
    decreases |s.sleepers|
  {
    hide SameClaim, Unblock;
    if s.sleepers != [] && s.now >= WakeTime(s.threads, s.sleepers[0]) {
      var s1 := s.(sleepers := s.sleepers[1..]);
      var s2 := Unblock(s1, s.sleepers[0]);
      UnblockClaims(s1, s.sleepers[0]);
      assert s2.sleepers == s1.sleepers by { UnblockSleepers(s1, s.sleepers[0]); }
      WakeDueClaims(s2);
      ClaimsTrans(s1, s2, WakeDue(s2));
      ClaimsFrom(s, s1, WakeDue(s2));
    } else {
      ClaimsSelf(s);
    }
  }

  lemma UnblockSleepers(s: State, t: Tid)
    ensures Unblock(s, t).sleepers == s.sleepers
  {
  }

  lemma ClaimsSelf(s: State)
    ensures SameClaims(s, s)
  {
  }

  lemma ClaimsFrom(s: State, s1: State, s': State)
    requires SameClaims(s1, s') && s1.threads == s.threads && s1.holder == s.holder
    ensures SameClaims(s, s')
  {
  }

  lemma ClaimsFields(s: State, s': State)
    requires SameClaims(s, s')
    ensures s'.holder == s.holder && forall t :: Get(s'.threads, t).donors == Get(s.threads, t).donors && Base(s', t) == Base(s, t)
  {
    forall t ensures Get(s'.threads, t).donors == Get(s.threads, t).donors && Base(s', t) == Base(s, t) {
      assert SameClaim(Get(s.threads, t), Get(s'.threads, t));
    }
  }

  lemma ClaimsTrans(a: State, b: State, c: State)
    requires SameClaims(a, b) && SameClaims(b, c)
    ensures SameClaims(a, c)
  {
    forall t ensures SameClaim(Get(a.threads, t), Get(c.threads, t)) {
      assert SameClaim(Get(a.threads, t), Get(b.threads, t)) && SameClaim(Get(b.threads, t), Get(c.threads, t));
    }
  }

  /** The thread t is on the donation list of h. */
  predicate IsOnList(s: State, h: Tid, t: Tid) { t in Get(s.threads, h).donors }

  function Base(s: State, t: Tid): int { Get(s.threads, t).initialPriority }

  /** What a step does to locks, donation lists and base priorities: a lock goes to a thread that
      takes it and is given up by lock_release alone, a waiter joins the list of the holder in
      lock_acquire and leaves it when that lock is released, and a base priority is what its
      thread asked for last. */
  ghost predicate ClaimsStep(s: State, a: Step, s': State) {
    && (forall l :: HolderOf(s'.holder, l) ==
                    if Tries(s, a) == Some(OfLock(l)) && SemaOf(s, OfLock(l)).value > 0 then Some(s.current)
                    else if a.Release? && a.lock == l then None
                    else HolderOf(s.holder, l))
    && (forall h: Tid, t: Tid :: IsOnList(s', h, t) <==>
                         || (IsOnList(s, h, t) && !(a.Release? && h == s.current && Get(s.threads, t).waitlock == Some(a.lock)))
                         || (a.Acquire? && t == s.current && HolderOf(s.holder, a.lock) == Some(h)))
    && (forall t :: Base(s', t) == if a.ChangePriority? && t == s.current then a.priority
                                   else if a.NewThread? && t == a.tid then a.priority
                                   else if a.Quit? && t == s.current then 0 else Base(s, t))
  }

  lemma QuietClaims(s: State, a: Step, s': State)
    requires SameClaims(s, s') && !a.ChangePriority? && !a.NewThread? && !a.Release? && !a.Acquire? && !a.Quit?
    requires forall l :: Tries(s, a) == Some(OfLock(l)) ==> SemaOf(s, OfLock(l)).value == 0
    ensures ClaimsStep(s, a, s')
  {
    ClaimsFields(s, s');
  }

  lemma ParkClaims(s: State, r: SemaRef)
    ensures SameClaims(s, Dispatch(ParkOn(DonateFromCurrent(s), r)))
  {
    hide Dispatch, DonateFromCurrent, InsertOrdered;
    var d := DonateFromCurrent(s);
    DonateClaims(s);
    var p := ParkOn(d, r);
    assert SameClaims(d, p);
    DispatchClaims(p);
    ClaimsTrans(s, d, p);
    ClaimsTrans(s, p, Dispatch(p));
  }

  lemma GrantClaims(s: State, r: SemaRef)
    ensures var s' := Grant(s, r);
            && (forall l :: HolderOf(s'.holder, l) == if r == OfLock(l) then Some(s.current) else HolderOf(s.holder, l))
            && forall t :: Get(s'.threads, t).donors == Get(s.threads, t).donors && Base(s', t) == Base(s, t)
  {
  }

  lemma DownClaims(s0: State, a: Step, s: State, r: SemaRef)
    requires SameClaims(s0, s) && s.semas == s0.semas && s.current == s0.current && Tries(s0, a) == Some(r)
    requires a.Down? || a.Resume?
    ensures ClaimsStep(s0, a, DownOnce(s, r))
  {
    hide Dispatch, DonateFromCurrent, ParkOn, Grant;
    if SemaOf(s, r).value == 0 {
      ParkClaims(s, r);
      ClaimsTrans(s0, s, DownOnce(s, r));
      QuietClaims(s0, a, DownOnce(s, r));
    } else {
      GrantClaims(s, r);
      forall t ensures Get(s.threads, t).donors == Get(s0.threads, t).donors && Base(s, t) == Base(s0, t) {
        assert SameClaim(Get(s0.threads, t), Get(s.threads, t));
      }
    }
  }

  lemma AcquireClaims(s: State, l: LockId, at: nat)
    requires HolderOf(s.holder, l) != Some(s.current) && (HolderOf(s.holder, l) == None <==> SemaOf(s, OfLock(l)).value > 0)
    ensures ClaimsStep(s, Acquire(l, at), LockAcquire(s, l, at))
  {
    var r := Register(Enter(s, Downing(OfLock(l))), l, at);
    RegisterClaims(s, l, at);
    hide Dispatch, DonateFromCurrent, ParkOn, Grant, Register, SameClaims;
    if SemaOf(s, OfLock(l)).value == 0 {
      ParkClaims(r, OfLock(l));
      var s' := LockAcquire(s, l, at);
      forall t ensures Get(s'.threads, t).donors == Get(r.threads, t).donors && Base(s', t) == Base(r, t) {
        assert SameClaim(Get(r.threads, t), Get(s'.threads, t));
      }
    } else {
      GrantClaims(r, OfLock(l));
    }
  }

  lemma RegisterClaims(s: State, l: LockId, at: nat)
    requires HolderOf(s.holder, l) != Some(s.current)
    ensures var r := Register(Enter(s, Downing(OfLock(l))), l, at);
            && r.holder == s.holder && r.semas == s.semas && r.current == s.current
            && (forall h: Tid, t: Tid :: IsOnList(r, h, t) <==> IsOnList(s, h, t) || (t == s.current && HolderOf(s.holder, l) == Some(h)))
            && forall t :: Base(r, t) == Base(s, t)
  {
    var s1 := Enter(s, Downing(OfLock(l)));
    if HolderOf(s.holder, l).Some? {
      InsertDonorContents(Get(s1.threads, HolderOf(s.holder, l).value).donors, s.current, at);
      hide InsertDonor;
    }
  }

  lemma ReleaseClaims(s: State, l: LockId, sorted: seq<Tid>)
    ensures ClaimsStep(s, Release(l, sorted), LockRelease(s, l, sorted))
  {
    hide SameClaims, Raise, YieldIfOutranked, CheckDonors, DropDonors;
    var s0 := DropDonors(s, l);
    CheckClaims(s0);
    var s1 := CheckDonors(s0);
    RaiseClaims(s1, OfLock(l), sorted);
    var s2 := Raise(s1, OfLock(l), sorted);
    YieldClaims(s2);
    ClaimsTrans(s0, s1, s2);
    ClaimsTrans(s0, s2, YieldIfOutranked(s2));
    ClaimsFields(s0, LockRelease(s, l, sorted));
    DroppedClaims(s, l, sorted, LockRelease(s, l, sorted));
  }

  lemma DroppedClaims(s: State, l: LockId, sorted: seq<Tid>, s': State)
    requires s'.holder == DropDonors(s, l).holder
    requires forall t :: Get(s'.threads, t).donors == Get(DropDonors(s, l).threads, t).donors && Base(s', t) == Base(DropDonors(s, l), t)
    ensures ClaimsStep(s, Release(l, sorted), s')
  {
    WithoutWaitersContents(s.threads, Me(s).donors, l);
    hide WithoutWaitersFor;
  }

  lemma CheckClaims(s: State)
    ensures SameClaims(s, CheckDonors(s))
  {
  }

  lemma SetPriorityClaims(s: State, p: int)
    ensures ClaimsStep(s, ChangePriority(p), SetPriority(s, p))
  {
    hide SameClaims, YieldIfOutranked, DonateFromCurrent, CheckDonors;
    var s0 := SetThread(s, s.current, Me(s).(initialPriority := p));
    var s1 := CheckDonors(s0);
    CheckClaims(s0);
    YieldClaims(s1);
    DonateClaims(s1);
    ClaimsTrans(s0, s1, YieldIfOutranked(s1));
    ClaimsTrans(s0, s1, DonateFromCurrent(s1));
    ClaimsFields(s0, SetPriority(s, p));
    hide SetPriority;
    BaseClaims(s, p, SetPriority(s, p));
  }

  lemma BaseClaims(s: State, p: int, s': State)
    requires var s0 := SetThread(s, s.current, Me(s).(initialPriority := p));
             s'.holder == s.holder && forall t :: Get(s'.threads, t).donors == Get(s0.threads, t).donors && Base(s', t) == Base(s0, t)
    ensures ClaimsStep(s, ChangePriority(p), s')
  {
  }

  lemma CreateClaims(s: State, t: Tid, p: int)
    requires t !in s.threads
    ensures ClaimsStep(s, NewThread(t, p), Create(s, t, p))
  {
    var s0 := SetThread(s, t, Thread(Blocked, p, p, None, [], User));
    hide YieldIfOutranked, Unblock, SameClaims;
    UnblockClaims(s0, t);
    YieldClaims(Unblock(s0, t));
    ClaimsTrans(s0, Unblock(s0, t), Create(s, t, p));
    ClaimsFields(s0, Create(s, t, p));
  }

  lemma TickClaims(s: State)
    ensures SameClaims(s, Tick(s))
  {
    hide WakeDue, Yield, YieldIfOutranked, SameClaim;
    var s0 := s.(now := s.now + 1);
    WakeDueClaims(s0);
    var s1 := WakeDue(s0);
    ClaimsFrom(s, s0, s1);
    var s2 := s1.(sliceTicks := s1.sliceTicks + 1);
    ClaimsSelf(s2);
    ClaimsFrom(s1, s2, s2);
    YieldClaims(s2);
    ClaimsTrans(s, s1, s2);
    ClaimsTrans(s, s2, Yield(s2));
  }

  lemma LeaveClaims(s: State, a: Step)
    requires a.Quit? || a.SleepFor? || a.IdleBlocks?
    requires a.Quit? ==> Me(s).donors == [] && s.current !in s.ready && s.current != s.idle
    ensures ClaimsStep(s, a, Apply(s, a))
  {
    hide Dispatch, InsertByWakeTime;
    match a
    case Quit => QuitClaims(s, s.(threads := s.threads - {s.current}));
    case SleepFor(n) =>
      ClaimsSelf(s);
      DispatchClaims(Doze(Enter(s, Sleeping(s.now + n))));
      ClaimsTrans(s, Doze(Enter(s, Sleeping(s.now + n))), Dispatch(Doze(Enter(s, Sleeping(s.now + n)))));
      QuietClaims(s, a, Apply(s, a));
    case IdleBlocks =>
      var s1 := SetThread(s, s.current, Me(s).(status := Blocked));
      DispatchClaims(s1);
      ClaimsTrans(s, s1, Dispatch(s1));
      QuietClaims(s, a, Apply(s, a));
  }

  lemma QuitClaims(s: State, s1: State)
    requires s1 == s.(threads := s.threads - {s.current}) && Me(s).donors == [] && s.current !in s.ready && s.current != s.idle
    ensures ClaimsStep(s, Quit, Dispatch(s1))
  {
    DispatchClaims(s1);
    var s' := Dispatch(s1);
    ClaimsFields(s1, s');
    if s.ready != [] { assert s.ready[0] in s.ready; }
    assert s.current !in s'.threads;
  }

  lemma StepClaims(s: State, a: Step)
    requires Inv(s) && Enabled(s, a)
    ensures ClaimsStep(s, a, Apply(s, a))
  {
    hide Inv, IsSortOf, SortedByPriority, CheckDonors, DropDonors, ClaimsStep, SameClaims, DownOnce, Raise, YieldIfOutranked, Yield, Tick, LockRelease, LockAcquire, SetPriority, Create, Dispatch, Holds;
    ClaimFacts(s, a);
    match a
    case Down(id) => EnterClaims(s, Downing(Plain(id))); DownClaims(s, a, Enter(s, Downing(Plain(id))), Plain(id));
    case TryDownPlain(id) => TryClaims(s, a, Plain(id));
    case TryAcquire(l) => TryClaims(s, a, OfLock(l));
    case Up(id, sorted) => UpClaims(s, Plain(id), sorted); QuietClaims(s, a, Apply(s, a));
    case UpFromInterrupt(id, sorted) => RaiseClaims(s, Plain(id), sorted); QuietClaims(s, a, Apply(s, a));
    case Acquire(l, at) => AcquireClaims(s, l, at);
    case Release(l, sorted) => ReleaseClaims(s, l, sorted);
    case ChangePriority(p) => SetPriorityClaims(s, p);
    case YieldCpu => YieldClaims(s); QuietClaims(s, a, Apply(s, a));
    case NewThread(t, p) => CreateClaims(s, t, p);
    case TimerTick => TickClaims(s); QuietClaims(s, a, Apply(s, a));
    case Resume =>
      if Me(s).doing.Downing? { ClaimsSelf(s); DownClaims(s, a, s, Me(s).doing.sema); } else { EnterClaims(s, User); QuietClaims(s, a, Apply(s, a)); }
    case _ => LeaveClaims(s, a);
  }

  lemma UpClaims(s: State, r: SemaRef, sorted: seq<Tid>)
    ensures SameClaims(s, YieldIfOutranked(Raise(s, r, sorted)))
  {
    hide SameClaims, YieldIfOutranked, Raise;
    RaiseClaims(s, r, sorted);
    YieldClaims(Raise(s, r, sorted));
    ClaimsTrans(s, Raise(s, r, sorted), YieldIfOutranked(Raise(s, r, sorted)));
  }

  lemma EnterClaims(s: State, act: Activity)
    ensures SameClaims(s, Enter(s, act)) && Enter(s, act).semas == s.semas && Enter(s, act).current == s.current
  {
  }

  lemma TryClaims(s: State, a: Step, r: SemaRef)
    requires Tries(s, a) == Some(r) && (a.TryDownPlain? || a.TryAcquire?)
    ensures ClaimsStep(s, a, TryDown(s, r))
  {
    hide Grant;
    GrantClaims(s, r);
  }

  lemma ClaimFacts(s: State, a: Step)
    requires Inv(s) && Enabled(s, a)
    ensures s.current !in s.ready
    ensures a.Acquire? ==> HolderOf(s.holder, a.lock) != Some(s.current) && (HolderOf(s.holder, a.lock) == None <==> SemaOf(s, OfLock(a.lock)).value > 0)
    ensures a.Quit? ==> Me(s).donors == [] && s.current != s.idle
  {
    if a.Acquire? { assert LockOk(s, a.lock); }
    DonorsHold(s, s.current);
  }

  lemma DonorsHold(s: State, t: Tid)
    requires Inv(s) && t in s.threads
    ensures s.threads[t].donors != [] ==> Holds(s, t)
  {
    if s.threads[t].donors != [] {
      var d := s.threads[t].donors[0];
      assert d in s.threads[t].donors && IsDonor(s, t, d);
    }
  }

  /** The priority that a thread has asked for last: when it was created, or by
      thread_set_priority, and otherwise what it had at the start; 0 once it has exited. */
  function Asked(s: State, run: seq<Step>, t: Tid): int
    decreases |run|
  {
    if run == [] then Base(s, t)
    else
      var last, before := run[|run| - 1], run[..|run| - 1];
      if (last.ChangePriority? && t == After(s, before).current) || (last.NewThread? && t == last.tid) then last.priority
      else if last.Quit? && t == After(s, before).current then 0
      else Asked(s, before, t)
  }

  lemma {:induction false} BaseIsAsked(s: State, run: seq<Step>, t: Tid)
    requires Inv(s) && IsRun(s, run)
    ensures Base(After(s, run), t) == Asked(s, run, t)
    decreases |run|
  {
    hide Inv, Apply, Enabled, ClaimsStep;
    if run != [] {
      var last, before := run[|run| - 1], run[..|run| - 1];
      LastStep(s, run);
      var s1 := After(s, before);
      RunKeepsInv(s, before);
      StepClaims(s1, last);
      BaseIsAsked(s, before, t);
      BaseStep(s1, last, Apply(s1, last), t);
    }
  }

  lemma BaseStep(s: State, a: Step, s': State, t: Tid)
    requires ClaimsStep(s, a, s')
    ensures Base(s', t) == if a.ChangePriority? && t == s.current then a.priority
                           else if a.NewThread? && t == a.tid then a.priority
                           else if a.Quit? && t == s.current then 0 else Base(s, t)
  {
  }

  lemma {:induction false} LastStep(s: State, run: seq<Step>)
    requires IsRun(s, run) && run != []
    ensures var before := run[..|run| - 1];
            && IsRun(s, before) && Enabled(After(s, before), run[|run| - 1])
            && After(s, run) == Apply(After(s, before), run[|run| - 1])
    decreases |run|
  {
    hide Apply, Enabled;
    var before := run[..|run| - 1];
    if |run| > 1 {
      assert before[1..] == run[1..][..|run[1..]| - 1];
      LastStep(Apply(s, run[0]), run[1..]);
    } else {
      assert before == [] && run[1..] == [];
    }
  }

  /** In every state of every run a thread has at least the priority it has asked for last, and
      exactly that one while it holds no lock. */
  lemma PriorityIsAsked(s0: State, run: seq<Step>, t: Tid)
    requires Init(s0) && IsRun(s0, run) && t in After(s0, run).threads
    ensures Prio(After(s0, run), t) >= Asked(s0, run, t)
    ensures !Holds(After(s0, run), t) ==> Prio(After(s0, run), t) == Asked(s0, run, t)
  {
    InitInv(s0);
    BaseIsAsked(s0, run, t);
    hide Inv, Init, IsRun, Asked, Holds;
    assert Reachable(After(s0, run));
    hide Reachable;
    BasePriorities(After(s0, run), t);
  }

  // ----- what donation does for a step -----

  /** The first thread of q that does not wait for lock l, at position i if there is one. */
  ghost predicate FirstOther(s: State, q: seq<Tid>, l: LockId, i: nat) {
    && i <= |q| && (forall j | 0 <= j < i :: Get(s.threads, q[j]).waitlock == Some(l))
    && (i < |q| ==> Get(s.threads, q[i]).waitlock != Some(l))
  }

  lemma {:induction false} WithoutIs(s: State, q: seq<Tid>, l: LockId, i: nat)
    requires FirstOther(s, q, l, i)
    ensures var w := WithoutWaitersFor(s.threads, q, l); if i == |q| then w == [] else w != [] && w[0] == q[i]
  {
    if i > 0 {
      assert Get(s.threads, q[0]).waitlock == Some(l);
      forall j | 0 <= j < i - 1 ensures Get(s.threads, q[1..][j]).waitlock == Some(l) { assert q[1..][j] == q[j + 1]; }
      WithoutIs(s, q[1..], l, i - 1);
    }
  }

  /** lock_release leaves the thread with its base priority or that of its first donor for
      another lock, whichever is higher. */
  lemma ReleaseReturns(s: State, l: LockId, sorted: seq<Tid>, i: nat)
    requires Inv(s) && Enabled(s, Release(l, sorted)) && FirstOther(s, Me(s).donors, l, i)
    ensures var q := Me(s).donors;
            Prio(Apply(s, Release(l, sorted)), s.current)
            == if i < |q| && Prio(s, q[i]) > Base(s, s.current) then Prio(s, q[i]) else Base(s, s.current)
  {
    var q := Me(s).donors;
    OwnDonor(s);
    WithoutIs(s, q, l, i);
    hide Inv, Enabled, WithoutWaitersFor, Raise, YieldIfOutranked, FirstOther;
    var s1 := CheckDonors(DropDonors(s, l));
    assert i < |q| ==> q[i] in q;
    ReleasedPrio(s, l, s1, i);
    hide CheckDonors, DropDonors;
    RaisePrios(s1, OfLock(l), sorted);
    YieldIfPrios(Raise(s1, OfLock(l), sorted));
  }

  lemma ReleasedPrio(s: State, l: LockId, s1: State, i: nat)
    requires s.current !in Me(s).donors && i <= |Me(s).donors| && s1 == CheckDonors(DropDonors(s, l))
    requires var w := WithoutWaitersFor(s.threads, Me(s).donors, l); if i == |Me(s).donors| then w == [] else w != [] && w[0] == Me(s).donors[i]
    ensures s1.current == s.current
    ensures var q := Me(s).donors;
            Prio(s1, s.current) == if i < |q| && Prio(s, q[i]) > Base(s, s.current) then Prio(s, q[i]) else Base(s, s.current)
  {
    hide WithoutWaitersFor;
    if i < |Me(s).donors| { assert Me(s).donors[i] in Me(s).donors; }
  }

  lemma RaisePrios(s: State, r: SemaRef, sorted: seq<Tid>)
    ensures forall t :: Prio(Raise(s, r, sorted), t) == Prio(s, t)
  {
  }

  lemma YieldIfPrios(s: State)
    ensures forall t :: Prio(YieldIfOutranked(s), t) == Prio(s, t)
  {
    hide Yield;
    YieldPrios(s);
  }

  lemma OwnDonor(s: State)
    requires Inv(s)
    ensures s.current in s.threads && s.current !in Me(s).donors && (Me(s).doing == User ==> Me(s).waitlock == None)
  {
    assert WaitlockOk(Me(s));
    assert ActivityOk(s, s.current);
    assert s.current in Me(s).donors ==> IsDonor(s, s.current, s.current);
  }

  /** thread_set_priority takes effect at once: the thread has the new priority, or that of its
      first donor if that is higher. */
  lemma ChangeTakesEffect(s: State, p: int)
    requires Inv(s) && Enabled(s, ChangePriority(p))
    ensures var q := Me(s).donors;
            Prio(Apply(s, ChangePriority(p)), s.current) == if q != [] && Prio(s, q[0]) > p then Prio(s, q[0]) else p
  {
    hide Inv, YieldIfOutranked, DonateFromCurrent, CheckDonors;
    OwnDonor(s);
    var s1 := CheckDonors(SetThread(s, s.current, Me(s).(initialPriority := p)));
    CheckedPrio(s, p, s1);
    YieldIfPrios(s1);
  }

  lemma CheckedPrio(s: State, p: int, s1: State)
    requires s.current in s.threads && s.current !in Me(s).donors && Me(s).waitlock == None
    requires s1 == CheckDonors(SetThread(s, s.current, Me(s).(initialPriority := p)))
    ensures s1.current == s.current && DonateFromCurrent(s1) == s1
    ensures var q := Me(s).donors; Prio(s1, s.current) == if q != [] && Prio(s, q[0]) > p then Prio(s, q[0]) else p
  {
    if Me(s).donors != [] { assert Me(s).donors[0] in Me(s).donors; }
  }

  /** lock_acquire on a lock that is held: when nobody waited for a lower thread before, nobody
      among the first eight threads of the new chain does afterwards, and the holder has at
      least the priority of the thread that waits for it. */
  lemma AcquireDonates(s: State, l: LockId, at: nat, k: nat)
    requires Inv(s) && Enabled(s, Acquire(l, at)) && HolderOf(s.holder, l).Some?
    ensures var s' := Apply(s, Acquire(l, at));
            && WaitEdge(s'.threads, s'.holder, s.current) == HolderOf(s.holder, l)
            && Prio(s', HolderOf(s.holder, l).value) >= Prio(s, s.current)
            && ((forall y :: EdgeOk(s.threads, s.holder, y)) && k < 8 && ChainAt(s'.threads, s'.holder, s.current, k).Some?
                ==> EdgeOk(s'.threads, s'.holder, ChainAt(s'.threads, s'.holder, s.current, k).value))
  {
    var r := Register(Enter(s, Downing(OfLock(l))), l, at);
    var d := DonateFromCurrent(r);
    var s' := Dispatch(ParkOn(d, OfLock(l)));
    AcquireParks(s, l, at);
    RegisterEdges(s, l, at);
    hide Inv, Enabled, Apply, Register, Donate, Dispatch, ParkOn, EdgeOk;
    ParkPrios(d, OfLock(l));
    DonatedHolder(r, HolderOf(s.holder, l).value);
    ChainFrame(r.threads, s'.threads, s.holder, s.current, k);
    if (forall y :: EdgeOk(s.threads, s.holder, y)) && k < 8 && ChainAt(s'.threads, s'.holder, s.current, k).Some? {
      FirstEdgesAreRestored(r.threads, s.holder, s.current, 8, k);
      ParkKeepsEdges(d, OfLock(l), ChainAt(s'.threads, s'.holder, s.current, k).value);
    }
  }

  lemma AcquireParks(s: State, l: LockId, at: nat)
    requires Inv(s) && Enabled(s, Acquire(l, at)) && HolderOf(s.holder, l).Some?
    ensures Apply(s, Acquire(l, at)) == Dispatch(ParkOn(DonateFromCurrent(Register(Enter(s, Downing(OfLock(l))), l, at)), OfLock(l)))
    ensures HolderOf(s.holder, l) != Some(s.current)
  {
    assert LockOk(s, l);
    hide Dispatch, ParkOn, DonateFromCurrent, InsertDonor;
  }

  lemma RegisterEdges(s: State, l: LockId, at: nat)
    requires HolderOf(s.holder, l).Some? && HolderOf(s.holder, l) != Some(s.current)
    ensures var r := Register(Enter(s, Downing(OfLock(l))), l, at);
            && r.current == s.current && r.holder == s.holder
            && WaitEdge(r.threads, r.holder, s.current) == HolderOf(s.holder, l) && (forall t :: Prio(r, t) == Prio(s, t))
            && forall y :: y != s.current && EdgeOk(s.threads, s.holder, y) ==> EdgeOk(r.threads, r.holder, y)
  {
    hide InsertDonor;
  }

  lemma ParkPrios(d: State, r: SemaRef)
    ensures var s' := Dispatch(ParkOn(d, r));
            s'.holder == d.holder && forall t :: Prio(s', t) == Prio(d, t) && Get(s'.threads, t).waitlock == Get(d.threads, t).waitlock
  {
  }

  lemma DonatedHolder(r: State, h: Tid)
    requires WaitEdge(r.threads, r.holder, r.current) == Some(h)
    ensures var d := DonateFromCurrent(r);
            && d.holder == r.holder && Prio(d, h) >= Prio(r, r.current)
            && forall t :: Get(d.threads, t).waitlock == Get(r.threads, t).waitlock
  {
    forall t ensures Get(DonateFromCurrent(r).threads, t).waitlock == Get(r.threads, t).waitlock {
      DonationStaysOnChain(r.threads, r.holder, r.current, 8, t);
    }
    var mine := Prio(r, r.current);
    if Prio(r, h) < mine {
      DonationStaysOnChain(r.threads[h := Get(r.threads, h).(priority := mine)], r.holder, h, 7, h);
    } else {
      DonationStaysOnChain(r.threads, r.holder, r.current, 8, h);
    }
  }
}
