/** timer_sleep and the wake loop of timer_interrupt: over all runs, a tick wakes exactly
    the threads whose wake time has come. */
module SchedulerSleep {
  import opened Machine
  import opened Scheduler
  import opened SchedulerInvariants
  import opened SchedulerRuns
  import opened SchedulerTheorems

  ghost predicate WakeOrdered(threads: map<Tid, Thread>, q: seq<Tid>) {
    forall i, j | 0 <= i < j < |q| :: WakeTime(threads, q[i]) <= WakeTime(threads, q[j])
  }

  ghost predicate SleepersSorted(s: State) { WakeOrdered(s.threads, s.sleepers) }

  /** No thread but the running one changed what it is doing, and nobody joined or left the
      sleep list. */
  ghost predicate SleepersUntouched(s: State, s': State) {
    s'.sleepers == s.sleepers && forall t | t != s.current :: Get(s'.threads, t).doing == Get(s.threads, t).doing
  }

  lemma UntouchedStaysSorted(s: State, s': State)
    requires Inv(s) && SleepersSorted(s) && SleepersUntouched(s, s')
    ensures SleepersSorted(s')
  {
    forall t | t in s.sleepers ensures WakeTime(s'.threads, t) == WakeTime(s.threads, t) {
      assert IsQueued(s, Some(s.current), t);
    }
  }

  lemma QuietSleepers(s: State)
    ensures SleepersUntouched(s, Yield(s)) && SleepersUntouched(s, YieldIfOutranked(s))
    ensures SleepersUntouched(s, Dispatch(s))
  {
    hide Dispatch;
    DispatchSleepers(s);
    var s1 := if s.current == s.idle then s else s.(ready := InsertOrdered(s.threads, s.ready, s.current));
    DispatchSleepers(SetThread(s1, s1.current, Me(s1).(status := Ready)));
  }

  lemma DispatchSleepers(s: State)
    ensures Dispatch(s).sleepers == s.sleepers && forall t :: Get(Dispatch(s).threads, t).doing == Get(s.threads, t).doing
  {
  }

  lemma DonateSleepers(s: State)
    ensures SleepersUntouched(s, DonateFromCurrent(s)) && DonateFromCurrent(s).current == s.current
  {
    forall t ensures Get(DonateFromCurrent(s).threads, t).doing == Get(s.threads, t).doing {
      DonationStaysOnChain(s.threads, s.holder, s.current, DONATION_DEPTH, t);
    }
  }

  lemma DownSleepers(s: State, r: SemaRef)
    ensures SleepersUntouched(s, DownOnce(s, r))
  {
    hide DonateFromCurrent;
    DonateSleepers(s);
  }

  lemma RaiseSleepers(s: State, r: SemaRef, sorted: seq<Tid>)
    ensures SleepersUntouched(s, Raise(s, r, sorted)) && Raise(s, r, sorted).current == s.current
  {
  }

  lemma RegisterSleepers(s: State, l: LockId, at: nat)
    ensures SleepersUntouched(s, Register(s, l, at)) && Register(s, l, at).current == s.current
  {
  }

  lemma ReleaseSleepers(s: State, l: LockId, sorted: seq<Tid>)
    ensures SleepersUntouched(s, LockRelease(s, l, sorted))
  {
    hide Raise, YieldIfOutranked, CheckDonors, DropDonors;
    var s1 := CheckDonors(DropDonors(s, l));
    DropSleepers(s, l);
    RaiseSleepers(s1, OfLock(l), sorted);
    QuietSleepers(Raise(s1, OfLock(l), sorted));
  }

  lemma DropSleepers(s: State, l: LockId)
    ensures var s1 := CheckDonors(DropDonors(s, l)); SleepersUntouched(s, s1) && s1.current == s.current
  {
  }

  lemma SetPrioritySleepers(s: State, p: int)
    ensures SleepersUntouched(s, SetPriority(s, p))
  {
    hide YieldIfOutranked, DonateFromCurrent;
    var s1 := CheckDonors(SetThread(s, s.current, Me(s).(initialPriority := p)));
    DonateSleepers(s1);
    QuietSleepers(s1);
  }

  lemma CreateSleepers(s: State, t: Tid, p: int)
    requires t !in s.threads && s.current in s.threads
    ensures SleepersUntouched(s, Create(s, t, p))
  {
    hide YieldIfOutranked;
    QuietSleepers(Unblock(SetThread(s, t, Thread(Blocked, p, p, None, [], User)), t));
  }

  /** Only timer_sleep and the timer interrupt touch the sleep list. */
  lemma StepSleepers(s: State, a: Step)
    requires s.current in s.threads && Enabled(s, a) && !a.SleepFor? && !a.TimerTick?
    ensures SleepersUntouched(s, Apply(s, a))
  {
    hide DownOnce, Register, Raise, YieldIfOutranked, Yield, Dispatch, LockRelease, SetPriority, Create;
    match a
    case Down(id) => DownSleepers(Enter(s, Downing(Plain(id))), Plain(id));
    case Up(id, sorted) => RaiseSleepers(s, Plain(id), sorted); QuietSleepers(Raise(s, Plain(id), sorted));
    case UpFromInterrupt(id, sorted) => RaiseSleepers(s, Plain(id), sorted);
    case Acquire(l, at) =>
      var s1 := Enter(s, Downing(OfLock(l)));
      RegisterSleepers(s1, l, at);
      DownSleepers(Register(s1, l, at), OfLock(l));
    case Release(l, sorted) => ReleaseSleepers(s, l, sorted);
    case ChangePriority(p) => SetPrioritySleepers(s, p);
    case YieldCpu => QuietSleepers(s);
    case NewThread(t, p) => CreateSleepers(s, t, p);
    case Quit => QuietSleepers(s.(threads := s.threads - {s.current}));
    case Resume => DownSleepers(s, if Me(s).doing.Downing? then Me(s).doing.sema else Plain(0));
    case IdleBlocks => QuietSleepers(SetThread(s, s.current, Me(s).(status := Blocked)));
    case _ =>
  }

  lemma {:induction false} InsertKeepsWakeOrder(threads: map<Tid, Thread>, q: seq<Tid>, t: Tid)
    requires WakeOrdered(threads, q)
    ensures WakeOrdered(threads, InsertByWakeTime(threads, q, t))
  {
    if q != [] && !(WakeTime(threads, t) < WakeTime(threads, q[0])) {
      InsertKeepsWakeOrder(threads, q[1..], t);
      InsertByWakeTimeContents(threads, q[1..], t);
      var r := InsertByWakeTime(threads, q[1..], t);
      forall j | 0 <= j < |r| ensures WakeTime(threads, q[0]) <= WakeTime(threads, r[j]) {
        assert r[j] in q[1..] || r[j] == t;
        if r[j] in q[1..] { var k :| 0 <= k < |q[1..]| && q[1..][k] == r[j]; assert q[k + 1] == r[j]; }
      }
    }
  }

  lemma SleepStaysSorted(s: State, ticks: int)
    requires Inv(s) && SleepersSorted(s) && ticks > 0
    ensures SleepersSorted(Dispatch(Doze(Enter(s, Sleeping(s.now + ticks)))))
  {
    hide Inv, WakeOrdered;
    var s1 := Enter(s, Sleeping(s.now + ticks));
    UntouchedStaysSorted(s, s1);
    InsertKeepsWakeOrder(s1.threads, s1.sleepers, s1.current);
    SameWakeTimes(s1, Dispatch(Doze(s1)));
  }

  lemma SameWakeTimes(s: State, s': State)
    requires WakeOrdered(s.threads, s'.sleepers)
    requires forall t :: Get(s'.threads, t).doing == Get(s.threads, t).doing
    ensures SleepersSorted(s') && forall t :: WakeTime(s'.threads, t) == WakeTime(s.threads, t)
  {
    assert forall t :: WakeTime(s'.threads, t) == WakeTime(s.threads, t);
  }

  /** The wake loop takes exactly the due threads off the sleep list, and puts each of them
      on the ready list. */
  ghost predicate WokeDue(s: State, s': State) {
    && s'.now == s.now && s'.current == s.current
    && (forall t :: t in s'.sleepers <==> t in s.sleepers && WakeTime(s.threads, t) > s.now)
    && (forall t :: t in s'.ready <==> t in s.ready || (t in s.sleepers && WakeTime(s.threads, t) <= s.now))
    && (forall t :: WakeTime(s'.threads, t) == WakeTime(s.threads, t))
  }

  lemma {:induction false} WakesExactlyDue(s: State)
    requires SleepersSorted(s)
    ensures SleepersSorted(WakeDue(s)) && WokeDue(s, WakeDue(s))
    decreases |s.sleepers|
  {
    if s.sleepers != [] {
      FirstOrRest(s.sleepers);
      FirstIsEarliest(s);
      if s.now >= WakeTime(s.threads, s.sleepers[0]) {
        var s1 := Unblock(s.(sleepers := s.sleepers[1..]), s.sleepers[0]);
        InsertOrderedContents(s.threads, s.ready, s.sleepers[0]);
        SameWakeTimes(s, s1);
        WakesExactlyDue(s1);
      }
    }
  }

  lemma FirstIsEarliest(s: State)
    requires SleepersSorted(s) && s.sleepers != []
    ensures forall t | t in s.sleepers :: WakeTime(s.threads, s.sleepers[0]) <= WakeTime(s.threads, t)
  {
    forall t | t in s.sleepers ensures WakeTime(s.threads, s.sleepers[0]) <= WakeTime(s.threads, t) {
      var k :| 0 <= k < |s.sleepers| && s.sleepers[k] == t;
      if k > 0 { assert WakeTime(s.threads, s.sleepers[0]) <= WakeTime(s.threads, s.sleepers[k]); }
    }
  }

  lemma FirstOrRest(q: seq<Tid>)
    requires q != []
    ensures forall t :: t in q <==> t == q[0] || t in q[1..]
  {
    assert q == [q[0]] + q[1..];
  }

  lemma TickStaysSorted(s: State)
    requires SleepersSorted(s)
    ensures SleepersSorted(Tick(s))
    ensures forall t | t in Tick(s).sleepers :: WakeTime(Tick(s).threads, t) > Tick(s).now
  {
    hide WakeDue, Yield;
    var s0 := s.(now := s.now + 1);
    WakesExactlyDue(s0);
    var s1 := WakeDue(s0);
    SlicePassed(s1);
  }

  lemma SlicePassed(s1: State)
    requires SleepersSorted(s1)
    ensures var s2 := s1.(sliceTicks := s1.sliceTicks + 1);
            && SleepersSorted(s2) && SleepersSorted(Yield(s2)) && Yield(s2).sleepers == s1.sleepers
            && Yield(s2).now == s1.now && forall t :: WakeTime(Yield(s2).threads, t) == WakeTime(s1.threads, t)
  {
    hide Yield;
    var s2 := s1.(sliceTicks := s1.sliceTicks + 1);
    YieldTimes(s2);
    SameWakeTimes(s1, Yield(s2));
  }

  lemma YieldTimes(s: State)
    ensures Yield(s).sleepers == s.sleepers && Yield(s).now == s.now
    ensures forall t :: Get(Yield(s).threads, t).doing == Get(s.threads, t).doing
  {
  }

  lemma {:induction false} RunStaysSorted(s: State, run: seq<Step>)
    requires Inv(s) && SleepersSorted(s) && IsRun(s, run)
    ensures SleepersSorted(After(s, run))
    decreases |run|
  {
    hide SleepersSorted, SleepersUntouched;
    if run != [] {
      var a := run[0];
      StepKeepsInv(s, a);
      StepStaysSorted(s, a);
      RunStaysSorted(Apply(s, a), run[1..]);
    }
  }

  lemma StepStaysSorted(s: State, a: Step)
    requires Inv(s) && SleepersSorted(s) && Enabled(s, a)
    ensures SleepersSorted(Apply(s, a))
  {
    hide SleepersSorted, Inv;
    if a.SleepFor? {
      if a.ticks > 0 { SleepStaysSorted(s, a.ticks); }
    } else if a.TimerTick? {
      TickStaysSorted(s);
    } else {
      OtherStaysSorted(s, a);
    }
  }

  lemma OtherStaysSorted(s: State, a: Step)
    requires Inv(s) && SleepersSorted(s) && Enabled(s, a) && !a.SleepFor? && !a.TimerTick?
    ensures SleepersSorted(Apply(s, a))
  {
    PlacedMembers(s, Some(s.current));
    hide SleepersSorted, SleepersUntouched, Apply, Enabled, Rest, Placed;
    StepSleepers(s, a);
    UntouchedStaysSorted(s, Apply(s, a));
  }

  /** In every reachable state the next tick wakes a sleeping thread if and only if its wake
      time has come. */
  lemma TickWakesExactlyDue(s: State)
    requires Reachable(s)
    ensures WokeDue(s.(now := s.now + 1), WakeDue(s.(now := s.now + 1)))
  {
    var s0, run :| Init(s0) && IsRun(s0, run) && s == After(s0, run);
    InitInv(s0);
    RunStaysSorted(s0, run);
    WakesExactlyDue(s.(now := s.now + 1));
  }
}
