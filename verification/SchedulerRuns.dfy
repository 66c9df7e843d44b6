/** The scheduler's invariants hold in every reachable state. */
module SchedulerRuns {
  import opened Machine
  import opened Scheduler
  import opened SchedulerInvariants

  // ----- one step -----

  ghost predicate SamePriorities(s: State, s': State)
    requires s'.threads.Keys == s.threads.Keys
  {
    forall t | t in s.threads :: s'.threads[t].priority == s.threads[t].priority
  }

  lemma DispatchCore(s: State)
    requires s.idle in s.threads && forall t | t in s.ready :: t in s.threads
    ensures SameCore(s, Dispatch(s)) && SamePriorities(s, Dispatch(s))
  {
  }

  lemma PlacedMembers(s: State, running: Option<Tid>)
    requires Placed(s, running)
    ensures s.idle in s.threads && (running.Some? ==> running.value in s.threads)
    ensures forall t | t in s.ready :: t in s.threads
    ensures running.Some? ==> forall r | r in s.semas :: running.value !in s.semas[r].waiters
  {
    forall r | r in s.semas ensures running.Some? ==> running.value !in s.semas[r].waiters {
      assert WaitersOk(s, running, r);
    }
  }

  lemma InvDispatch(s: State)
    requires Placed(s, None) && Rest(s)
    ensures Inv(Dispatch(s))
  {
    hide Placed, Rest;
    PlacedMembers(s, None);
    DispatchPlaced(s);
    DispatchCore(s);
    RestFrame(s, Dispatch(s));
  }

  lemma YieldCore(s: State)
    requires s.idle in s.threads && s.current in s.threads && forall t | t in s.ready :: t in s.threads
    ensures SameCore(s, Yield(s)) && SamePriorities(s, Yield(s))
  {
    var s1 := if s.current == s.idle then s
              else s.(ready := InsertOrdered(s.threads, s.ready, s.current));
    InsertOrderedContents(s.threads, s.ready, s.current);
    DispatchCore(SetThread(s1, s1.current, Me(s1).(status := Ready)));
  }

  lemma InvYield(s: State)
    requires Placed(s, Some(s.current)) && Rest(s)
    ensures Inv(Yield(s))
  {
    hide Placed, Rest;
    PlacedMembers(s, Some(s.current));
    YieldPlaced(s);
    YieldCore(s);
    RestFrame(s, Yield(s));
  }

  lemma InvYieldIfOutranked(s: State)
    requires Inv(s)
    ensures Inv(YieldIfOutranked(s))
  {
    hide Placed, Rest;
    InvYield(s);
  }

  lemma InvEnter(s: State, a: Activity)
    requires Inv(s) && !Me(s).doing.Downing? && (s.current == s.idle ==> a == User)
    requires a.Downing? ==> a.sema in s.semas && (a.sema.OfLock? ==> HolderOf(s.holder, a.sema.lock) != Some(s.current))
    ensures Inv(Enter(s, a)) && Me(Enter(s, a)) == Me(s).(doing := a) && Me(s).waitlock == None
  {
    assert s.current in s.threads;
    hide Placed, Rest;
    EnterPlaced(s, a);
    RestEnter(s, a);
  }

  lemma InvDownOnce(s: State, r: SemaRef)
    requires Inv(s) && s.current != s.idle && r in s.semas && (Me(s).doing == Downing(r))
    ensures Inv(DownOnce(s, r))
  {
    hide Placed, Rest;
    PlacedMembers(s, Some(s.current));
    if s.semas[r].value == 0 {
      BlockKeepsInv(s, r);
    } else {
      GrantKeepsInv(s, r);
    }
  }

  lemma BlockKeepsInv(s: State, r: SemaRef)
    requires Inv(s) && s.current != s.idle && r in s.semas
    requires s.semas[r].value == 0 && Me(s).doing == Downing(r)
    ensures Inv(Dispatch(ParkOn(DonateFromCurrent(s), r)))
  {
    hide Placed, Rest;
    PlacedMembers(s, Some(s.current));
    var s1 := DonateFromCurrent(s);
    RestDonate(s);
    PlacedFrame(s, s1, Some(s.current));
    ParkPlaced(s1, r);
    RestPark(s1, r);
    InvDispatch(ParkOn(s1, r));
  }

  lemma GrantKeepsInv(s: State, r: SemaRef)
    requires Inv(s) && s.current != s.idle && r in s.semas && s.semas[r].value > 0
    requires Me(s).doing == User || Me(s).doing == Downing(r)
    ensures Inv(Grant(s, r))
  {
    hide Placed, Rest;
    PlacedMembers(s, Some(s.current));
    RestGrant(s, r);
    GrantPlaced(s, r, Me(Grant(s, r)));
  }

  lemma GrantPlaced(s: State, r: SemaRef, me: Thread)
    requires Placed(s, Some(s.current)) && s.current != s.idle && r in s.semas && s.semas[r].value > 0
    requires me == Me(Grant(s, r))
    ensures Placed(Grant(s, r), Some(s.current)) && me.status == Me(s).status
  {
    hide Placed;
    PlacedSelf(s, me);
    PlacedFrame(SetThread(s, s.current, me), Grant(s, r), Some(s.current));
  }

  lemma InvAcquire(s: State, l: LockId, at: nat)
    requires Inv(s) && s.current != s.idle && Me(s).doing == User
    requires l in s.holder && s.holder[l] != Some(s.current)
    ensures Inv(LockAcquire(s, l, at))
  {
    assert OfLock(l) in s.semas;
    hide Placed, Rest;
    var s1 := Enter(s, Downing(OfLock(l)));
    InvEnter(s, Downing(OfLock(l)));
    PlacedMembers(s, Some(s.current));
    RestRegister(s1, l, at);
    PlacedFrame(s1, Register(s1, l, at), Some(s.current));
    RegisterKeepsMe(s1, l, at);
    InvDownOnce(Register(s1, l, at), OfLock(l));
  }

  lemma RegisterKeepsMe(s: State, l: LockId, at: nat)
    requires s.current in s.threads && HolderOf(s.holder, l) != Some(s.current)
    ensures Me(Register(s, l, at)).doing == Me(s).doing && Me(Register(s, l, at)).status == Me(s).status
  {
  }

  lemma InvTryDown(s: State, r: SemaRef)
    requires Inv(s) && s.current != s.idle && Me(s).doing == User && r in s.semas
    ensures Inv(TryDown(s, r))
  {
    if s.semas[r].value > 0 { GrantKeepsInv(s, r); }
  }

  lemma InvRaise(s: State, id: nat, sorted: seq<Tid>)
    requires Inv(s) && Plain(id) in s.semas && IsSortOf(s.threads, sorted, s.semas[Plain(id)].waiters)
    ensures Inv(Raise(s, Plain(id), sorted))
  {
    hide Placed;
    RaiseKeepsInv(s, Plain(id), sorted);
  }

  lemma InvRelease(s: State, l: LockId, sorted: seq<Tid>)
    requires Inv(s) && s.current != s.idle && l in s.holder && s.holder[l] == Some(s.current)
    requires IsSortOf(CheckDonors(DropDonors(s, l)).threads, sorted, SemaOf(s, OfLock(l)).waiters)
    ensures Inv(LockRelease(s, l, sorted))
  {
    LockHasSema(s, l);
    hide Placed, Rest, SortedByPriority, Raise, YieldIfOutranked;
    var s1 := CheckDonors(DropDonors(s, l));
    DropKeepsRest(s, l, s1);
    RaiseKeepsInv(s1, OfLock(l), sorted);
    InvYieldIfOutranked(Raise(s1, OfLock(l), sorted));
  }

  lemma DropKeepsRest(s: State, l: LockId, s1: State)
    requires Inv(s) && l in s.holder && s.holder[l] == Some(s.current) && s1 == CheckDonors(DropDonors(s, l))
    ensures Placed(s1, Some(s1.current)) && Me(s1).status == Running && s1.semas == s.semas && l in s1.holder
    ensures LocksOk(s1, Some(l)) && DonorsOk(s1) && PrioritiesOk(s1) && WakeupsOk(s1)
  {
    hide Placed, Rest, LocksOk, DonorsOk, PrioritiesOk, WakeupsOk;
    PlacedMembers(s, Some(s.current));
    RestDrop(s, l);
    PlacedFrame(s, s1, Some(s.current));
  }

  lemma RaiseKeepsInv(s: State, r: SemaRef, sorted: seq<Tid>)
    requires Placed(s, Some(s.current)) && Me(s).status == Running && r in s.semas
    requires LocksOk(s, Freeing(r)) && DonorsOk(s) && PrioritiesOk(s) && WakeupsOk(s)
    requires r.OfLock? ==> r.lock in s.holder
    requires IsSortOf(s.threads, sorted, s.semas[r].waiters)
    ensures Inv(Raise(s, r, sorted))
  {
    hide Placed, Rest, LocksOk, DonorsOk, PrioritiesOk, WakeupsOk, Raise;
    RaisePlaced(s, r, sorted);
    RestRaise(s, r, sorted);
  }

  lemma InvSetPriority(s: State, p: int)
    requires Inv(s) && s.current != s.idle
    ensures Inv(SetPriority(s, p))
  {
    hide Inv, CheckDonors, YieldIfOutranked, DonateFromCurrent;
    var s0 := SetThread(s, s.current, Me(s).(initialPriority := p));
    NewBaseKeepsInv(s, p, s0, CheckDonors(s0));
    InvDonate(CheckDonors(s0));
    InvYieldIfOutranked(CheckDonors(s0));
  }

  lemma InvDonate(s: State)
    requires Inv(s)
    ensures Inv(DonateFromCurrent(s))
  {
    hide Placed, Rest;
    PlacedMembers(s, Some(s.current));
    RestDonate(s);
    PlacedFrame(s, DonateFromCurrent(s), Some(s.current));
  }

  lemma NewBaseKeepsInv(s: State, p: int, s0: State, s1: State)
    requires Inv(s) && s0 == SetThread(s, s.current, Me(s).(initialPriority := p)) && s1 == CheckDonors(s0)
    ensures Inv(s1) && s1.current == s.current
  {
    hide Placed, Rest;
    PlacedMembers(s, Some(s.current));
    NewBaseKeepsRest(s, p, s0, s1);
    PlacedFrame(s, s1, Some(s.current));
  }

  lemma NewBaseKeepsRest(s: State, p: int, s0: State, s1: State)
    requires Rest(s) && s.current in s.threads
    requires s0 == SetThread(s, s.current, Me(s).(initialPriority := p)) && s1 == CheckDonors(s0)
    ensures Rest(s1) && SamePlaces(s.threads, s1.threads)
  {
    hide Rest, LocksOk, DonorsOk, PrioritiesOk, PriorityOk, WakeupsOk, CheckDonors, SameCore;
    NewBase(s, p, s0);
    RecheckedPriorities(s0);
    RestRechecked(s0, s1);
  }

  lemma RestRechecked(s0: State, s1: State)
    requires LocksOk(s0, None) && DonorsOk(s0) && WakeupsOk(s0) && SameCore(s0, s1) && PrioritiesOk(s1)
    ensures Rest(s1)
  {
    hide LocksOk, DonorsOk, PrioritiesOk, WakeupsOk, SameCore;
    CoreFrame(s0, s1, None);
  }

  lemma NewBase(s: State, p: int, s0: State)
    requires Rest(s) && s.current in s.threads && s0 == SetThread(s, s.current, Me(s).(initialPriority := p))
    ensures LocksOk(s0, None) && DonorsOk(s0) && WakeupsOk(s0)
    ensures forall t | t in s0.threads && t != s.current :: PriorityOk(s0, t)
  {
    forall t | t in s0.threads ensures ActivityOk(s0, t) && WaitlockOk(s0.threads[t]) {
      assert ActivityOk(s, t) && WaitlockOk(s.threads[t]);
    }
    forall t | t in s0.threads && t != s.current ensures PriorityOk(s0, t) {
      assert PriorityOk(s, t);
      assert Holds(s0, t) <==> Holds(s, t);
    }
    forall l | l in s0.holder ensures LockOk(s0, l) { assert LockOk(s, l); }
    forall g, t | g in s0.threads && t in s0.threads[g].donors ensures IsDonor(s0, g, t) { assert IsDonor(s, g, t); }
    forall q | q in s0.semas ensures Woken(s0, q) == Woken(s, q) { }
  }

  lemma InvCreate(s: State, t: Tid, p: int)
    requires Inv(s) && t !in s.threads
    ensures Inv(Create(s, t, p))
  {
    var s1 := SetThread(s, t, Thread(Blocked, p, p, None, [], User));
    hide Placed, Rest;
    PlacedMembers(s, Some(s.current));
    CreatePlaced(s, t, p);
    RestCreate(s, t, p);
    RestFrame(s1, Unblock(s1, t));
    InvYieldIfOutranked(Unblock(s1, t));
  }

  lemma InvExit(s: State)
    requires Inv(s) && s.current != s.idle && Me(s).doing == User && !Holds(s, s.current)
    ensures Inv(Exit(s))
  {
    hide Placed, Rest;
    PlacedMembers(s, Some(s.current));
    ExitPlaced(s);
    RestExit(s);
    InvDispatch(s.(threads := s.threads - {s.current}));
  }

  lemma InvSleep(s: State, ticks: int)
    requires Inv(s) && s.current != s.idle && Me(s).doing == User
    ensures Inv(Sleep(s, ticks))
  {
    hide Placed, Rest;
    if ticks > 0 {
      var s1 := Enter(s, Sleeping(s.now + ticks));
      InvEnter(s, Sleeping(s.now + ticks));
      PlacedMembers(s1, Some(s1.current));
      DozePlaced(s1);
      RestFrame(s1, Doze(s1));
      InvDispatch(Doze(s1));
    }
  }

  lemma {:induction false} InvWakeDue(s: State)
    requires Inv(s)
    ensures Inv(WakeDue(s)) && WakeDue(s).current == s.current
    decreases |s.sleepers|
  {
    hide Placed, Rest;
    if s.sleepers != [] && s.now >= WakeTime(s.threads, s.sleepers[0]) {
      WakeFirstKeepsInv(s);
      InvWakeDue(Unblock(s.(sleepers := s.sleepers[1..]), s.sleepers[0]));
    }
  }

  lemma WakeFirstKeepsInv(s: State)
    requires Inv(s) && s.sleepers != []
    ensures Inv(Unblock(s.(sleepers := s.sleepers[1..]), s.sleepers[0]))
  {
    hide Placed, Rest;
    SleeperIsThread(s);
    WakeFirstPlaced(s);
    RestFrame(s, Unblock(s.(sleepers := s.sleepers[1..]), s.sleepers[0]));
  }

  lemma SleeperIsThread(s: State)
    requires Placed(s, Some(s.current)) && s.sleepers != []
    ensures s.sleepers[0] in s.threads
  {
    assert s.sleepers[0] in s.sleepers;
  }

  lemma InvTick(s: State)
    requires Inv(s)
    ensures Inv(Tick(s))
  {
    hide Placed, Rest;
    var s0 := s.(now := s.now + 1);
    PlacedFrame(s, s0, Some(s.current));
    RestFrame(s, s0);
    InvWakeDue(s0);
    var s1 := WakeDue(s0);
    var s2 := s1.(sliceTicks := s1.sliceTicks + 1);
    PlacedFrame(s1, s2, Some(s2.current));
    RestFrame(s1, s2);
    InvYield(s2);
  }

  lemma InvResume(s: State)
    requires Inv(s) && Me(s).doing != User
    ensures Inv(Apply(s, Resume))
  {
    hide Placed;
    BusyFacts(s);
    hide Rest;
    if Me(s).doing.Downing? { InvDownOnce(s, Me(s).doing.sema); } else { InvEnter(s, User); }
  }

  lemma BusyFacts(s: State)
    requires Placed(s, Some(s.current)) && LocksOk(s, None) && Me(s).doing != User
    ensures s.current in s.threads && ActivityOk(s, s.current) && s.current != s.idle
  {
  }

  lemma InvIdleBlocks(s: State)
    requires Inv(s) && s.current == s.idle
    ensures Inv(Apply(s, IdleBlocks))
  {
    hide Placed, Rest, Dispatch;
    var s1 := SetThread(s, s.current, Me(s).(status := Blocked));
    IdlePlaced(s, s1);
    PlacedMembers(s, Some(s.current));
    RestFrame(s, s1);
    InvDispatch(s1);
  }

  lemma IdlePlaced(s: State, s1: State)
    requires Placed(s, Some(s.current)) && s.current == s.idle
    requires s1 == SetThread(s, s.current, Me(s).(status := Blocked))
    ensures Placed(s1, None)
  {
    forall r | r in s1.semas ensures WaitersOk(s1, None, r) { assert WaitersOk(s, Some(s.current), r); }
    forall t | t in s1.threads && t != s1.idle ensures IsPlaced(s1, t) { assert IsPlaced(s, t); }
  }

  /** Every step that the source allows keeps every invariant. */
  lemma StepKeepsInv(s: State, a: Step)
    requires Inv(s) && Enabled(s, a)
    ensures Inv(Apply(s, a))
  {
    hide Inv;
    match a
    case Down(id) => DownKeepsInv(s, id);
    case TryDownPlain(id) => InvTryDown(s, Plain(id));
    case Up(id, sorted) => InvRaise(s, id, sorted); InvYieldIfOutranked(Raise(s, Plain(id), sorted));
    case UpFromInterrupt(id, sorted) => InvRaise(s, id, sorted);
    case Acquire(l, at) => InvAcquire(s, l, at);
    case TryAcquire(l) => LockHasSema(s, l); InvTryDown(s, OfLock(l));
    case Release(l, sorted) => InvRelease(s, l, sorted);
    case ChangePriority(p) => InvSetPriority(s, p);
    case YieldCpu => YieldKeepsInv(s);
    case NewThread(t, p) => InvCreate(s, t, p);
    case Quit => InvExit(s);
    case SleepFor(ticks) => InvSleep(s, ticks);
    case TimerTick => InvTick(s);
    case Resume => InvResume(s);
    case IdleBlocks => InvIdleBlocks(s);
  }

  lemma LockHasSema(s: State, l: LockId)
    requires Inv(s) && l in s.holder
    ensures OfLock(l) in s.semas
  {
  }

  lemma YieldKeepsInv(s: State)
    requires Inv(s)
    ensures Inv(Yield(s))
  {
    hide Placed, Rest;
    InvYield(s);
  }

  lemma DownKeepsInv(s: State, id: nat)
    requires Inv(s) && s.current != s.idle && Me(s).doing == User && Plain(id) in s.semas
    ensures Inv(SemaDown(s, Plain(id)))
  {
    hide Placed, Rest;
    InvEnter(s, Downing(Plain(id)));
    InvDownOnce(Enter(s, Downing(Plain(id))), Plain(id));
  }
}
