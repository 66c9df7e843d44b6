/** Threads, semaphores, locks and priority donation as a state machine
    (Project 2/src/threads/thread.c, Project 2/src/threads/synch.c and the sleep list of
    Project 2/src/devices/timer.c), with the priority scheduler (thread_mlfqs false).

    Every step is one region of code that runs with interrupts off. A thread that blocks
    inside sema_down ends its step there; when it is dispatched again it continues with
    the step Resume, which tests the semaphore once more. */
module Scheduler {
  import opened Machine

  type Tid = nat
  type LockId = nat

  const TIME_SLICE := 4
  const DONATION_DEPTH := 8

  /** A semaphore of its own, or the one inside a lock. */
  datatype SemaRef = Plain(id: nat) | OfLock(lock: LockId)

  datatype Status = Running | Ready | Blocked

  /** Where a thread is between two of its steps. */
  datatype Activity = User | Downing(sema: SemaRef) | Sleeping(until: int)

  datatype Thread = Thread(status: Status, priority: int, initialPriority: int,
                           waitlock: Option<LockId>, donors: seq<Tid>, doing: Activity)

  datatype Sema = Sema(value: nat, waiters: seq<Tid>)

  datatype State = State(threads: map<Tid, Thread>, semas: map<SemaRef, Sema>,
                         holder: map<LockId, Option<Tid>>, ready: seq<Tid>, sleepers: seq<Tid>,
                         current: Tid, idle: Tid, now: int, sliceTicks: nat)

  const NO_THREAD := Thread(Blocked, 0, 0, None, [], User)

  function Get(threads: map<Tid, Thread>, t: Tid): Thread {
    if t in threads then threads[t] else NO_THREAD
  }

  function SemaOf(s: State, r: SemaRef): Sema {
    if r in s.semas then s.semas[r] else Sema(0, [])
  }

  function HolderOf(holder: map<LockId, Option<Tid>>, l: LockId): Option<Tid> {
    if l in holder then holder[l] else None
  }

  function Me(s: State): Thread { Get(s.threads, s.current) }

  function SetThread(s: State, t: Tid, th: Thread): State {
    s.(threads := s.threads[t := th])
  }

  // ----- lists -----

  /** list_insert_ordered with compare_priority: before the first thread of lower priority. */
  function InsertOrdered(threads: map<Tid, Thread>, q: seq<Tid>, t: Tid): seq<Tid> {
    if q == [] then [t]
    else if Get(threads, t).priority > Get(threads, q[0]).priority then [t] + q
    else [q[0]] + InsertOrdered(threads, q[1..], t)
  }

  /** list_insert_ordered with compare_timeto_wakeup_ticks: before the first later wake time. */
  function InsertByWakeTime(threads: map<Tid, Thread>, q: seq<Tid>, t: Tid): seq<Tid> {
    if q == [] then [t]
    else if WakeTime(threads, t) < WakeTime(threads, q[0]) then [t] + q
    else [q[0]] + InsertByWakeTime(threads, q[1..], t)
  }

  function WakeTime(threads: map<Tid, Thread>, t: Tid): int {
    var a := Get(threads, t).doing;
    if a.Sleeping? then a.until else 0
  }

  predicate SortedByPriority(threads: map<Tid, Thread>, q: seq<Tid>) {
    forall i, j | 0 <= i < j < |q| :: Get(threads, q[i]).priority >= Get(threads, q[j]).priority
  }

  /** What list_sort may leave: some ordered permutation. */
  predicate IsSortOf(threads: map<Tid, Thread>, sorted: seq<Tid>, q: seq<Tid>) {
    multiset(sorted) == multiset(q) && SortedByPriority(threads, sorted)
  }

  /** The donors of one thread without those waiting for lock l, in their old order. */
  function WithoutWaitersFor(threads: map<Tid, Thread>, q: seq<Tid>, l: LockId): seq<Tid> {
    if q == [] then []
    else if Get(threads, q[0]).waitlock == Some(l) then WithoutWaitersFor(threads, q[1..], l)
    else [q[0]] + WithoutWaitersFor(threads, q[1..], l)
  }

  // ----- priority donation -----

  /** priority_donation_solve, started at thread t with n iterations left. */
  function Donate(threads: map<Tid, Thread>, holder: map<LockId, Option<Tid>>, t: Tid, n: nat): map<Tid, Thread>
    decreases n
  {
    if n == 0 then threads else
      match Get(threads, t).waitlock
      case None => threads
      case Some(l) =>
        match HolderOf(holder, l)
        case None => threads
        case Some(h) =>
          var mine := Get(threads, t).priority;
          if Get(threads, h).priority >= mine then threads
          else Donate(threads[h := Get(threads, h).(priority := mine)], holder, h, n - 1)
  }

  function DonateFromCurrent(s: State): State {
    s.(threads := Donate(s.threads, s.holder, s.current, DONATION_DEPTH))
  }

  /** priority_check_from_donation_list: the base priority, or the priority of the first
      thread of the donation list if that is larger. */
  function CheckDonors(s: State): State {
    var me := Me(s);
    var s1 := SetThread(s, s.current, me.(priority := me.initialPriority));
    if me.donors != [] && Get(s1.threads, me.donors[0]).priority > me.initialPriority
    then SetThread(s, s.current, me.(priority := Get(s1.threads, me.donors[0]).priority))
    else s1
  }

  // ----- the ready list -----

  /** schedule (), after the old thread has left the processor. */
  function Dispatch(s: State): State {
    var next := if s.ready == [] then s.idle else s.ready[0];
    s.(threads := s.threads[next := Get(s.threads, next).(status := Running)],
       ready := if s.ready == [] then [] else s.ready[1..],
       current := next, sliceTicks := 0)
  }

  function Unblock(s: State, t: Tid): State {
    s.(threads := s.threads[t := Get(s.threads, t).(status := Ready)],
       ready := InsertOrdered(s.threads, s.ready, t))
  }

  function Yield(s: State): State {
    var s1 := if s.current == s.idle then s
              else s.(ready := InsertOrdered(s.threads, s.ready, s.current));
    Dispatch(SetThread(s1, s1.current, Me(s1).(status := Ready)))
  }

  /** iscurrent_thread_has_max_priority outside an interrupt handler. */
  function YieldIfOutranked(s: State): State {
    if s.ready != [] && Me(s).priority < Get(s.threads, s.ready[0]).priority then Yield(s) else s
  }

  // ----- semaphores -----

  function Enter(s: State, a: Activity): State {
    SetThread(s, s.current, Me(s).(doing := a))
  }

  /** The running thread joins the waiters of r and stops being runnable. */
  function ParkOn(s: State, r: SemaRef): State {
    var q := InsertOrdered(s.threads, SemaOf(s, r).waiters, s.current);
    SetThread(s, s.current, Me(s).(status := Blocked))
      .(semas := s.semas[r := SemaOf(s, r).(waiters := q)])
  }

  /** The semaphore is taken; lock_acquire then records the new holder. */
  function Grant(s: State, r: SemaRef): State {
    var v := SemaOf(s, r).value;
    var s1 := s.(semas := s.semas[r := SemaOf(s, r).(value := if v > 0 then v - 1 else 0)]);
    match r
    case Plain(_) => SetThread(s1, s1.current, Me(s1).(doing := User))
    case OfLock(l) =>
      SetThread(s1, s1.current, Me(s1).(doing := User, waitlock := None))
        .(holder := s1.holder[l := Some(s1.current)])
  }

  /** One pass of the loop in sema_down: take the semaphore, or donate and block. */
  function DownOnce(s: State, r: SemaRef): State {
    if SemaOf(s, r).value == 0 then Dispatch(ParkOn(DonateFromCurrent(s), r)) else Grant(s, r)
  }

  function SemaDown(s: State, r: SemaRef): State {
    DownOnce(Enter(s, Downing(r)), r)
  }

  /** sema_up up to its yield; sorted is what list_sort made of the waiters. */
  function Raise(s: State, r: SemaRef, sorted: seq<Tid>): State {
    var v := SemaOf(s, r).value;
    if sorted == [] then s.(semas := s.semas[r := Sema(v + 1, [])])
    else Unblock(s.(semas := s.semas[r := Sema(v + 1, sorted[1..])]), sorted[0])
  }

  // ----- locks -----

  predicate Holds(s: State, t: Tid) {
    exists l :: l in s.holder && s.holder[l] == Some(t)
  }

  /** Where a thread enters a donation list does not depend on priorities: the comparison that
      list_insert_ordered is given takes an elem_of_donation for an elem, and so compares
      words that are pointers. The place is therefore part of the step. */
  function InsertDonor(q: seq<Tid>, t: Tid, at: nat): seq<Tid> {
    if at <= |q| then q[..at] + [t] + q[at..] else q + [t]
  }

  /** The waiter puts itself on the donation list of the thread that holds the lock. */
  function Register(s: State, l: LockId, at: nat): State {
    match HolderOf(s.holder, l)
    case None => s
    case Some(h) =>
      var s1 := SetThread(s, s.current, Me(s).(waitlock := Some(l)));
      var th := Get(s1.threads, h);
      SetThread(s1, h, th.(donors := InsertDonor(th.donors, s.current, at)))
  }

  function LockAcquire(s: State, l: LockId, at: nat): State {
    DownOnce(Register(Enter(s, Downing(OfLock(l))), l, at), OfLock(l))
  }

  function TryDown(s: State, r: SemaRef): State {
    if SemaOf(s, r).value > 0 then Grant(s, r) else s
  }

  function DropDonors(s: State, l: LockId): State {
    SetThread(s, s.current, Me(s).(donors := WithoutWaitersFor(s.threads, Me(s).donors, l)))
      .(holder := s.holder[l := None])
  }

  function LockRelease(s: State, l: LockId, sorted: seq<Tid>): State {
    YieldIfOutranked(Raise(CheckDonors(DropDonors(s, l)), OfLock(l), sorted))
  }

  // ----- threads and time -----

  function SetPriority(s: State, p: int): State {
    var stored := Me(s).priority;
    var s1 := CheckDonors(SetThread(s, s.current, Me(s).(initialPriority := p)));
    if stored < Me(s1).priority then DonateFromCurrent(s1)
    else if stored > Me(s1).priority then YieldIfOutranked(s1)
    else s1
  }

  function Create(s: State, t: Tid, p: int): State {
    YieldIfOutranked(Unblock(SetThread(s, t, Thread(Blocked, p, p, None, [], User)), t))
  }

  function Exit(s: State): State {
    Dispatch(s.(threads := s.threads - {s.current}))
  }

  /** The running thread joins the sleep list and stops being runnable. */
  function Doze(s: State): State {
    SetThread(s, s.current, Me(s).(status := Blocked))
      .(sleepers := InsertByWakeTime(s.threads, s.sleepers, s.current))
  }

  /** timer_sleep */
  function Sleep(s: State, ticks: int): State {
    if ticks <= 0 then s else Dispatch(Doze(Enter(s, Sleeping(s.now + ticks))))
  }

  /** The loop of timer_interrupt: wake sleepers from the front while they are due. */
  function WakeDue(s: State): State
    decreases |s.sleepers|
  {
    if s.sleepers == [] || s.now < WakeTime(s.threads, s.sleepers[0]) then s
    else WakeDue(Unblock(s.(sleepers := s.sleepers[1..]), s.sleepers[0]))
  }

  /** timer_interrupt, and the yield that it may request for its return. */
  function Tick(s: State): State {
    var s1 := WakeDue(s.(now := s.now + 1));
    if s1.ready == [] then s1 else
      var s2 := s1.(sliceTicks := s1.sliceTicks + 1);
      var mine, best := Me(s2).priority, Get(s2.threads, s2.ready[0]).priority;
      if mine < best || (s2.sliceTicks >= TIME_SLICE && mine == best) then Yield(s2) else s2
  }

  // ----- the protocol -----

  datatype Step =
    | Down(id: nat) | TryDownPlain(id: nat)
    | Up(id: nat, sorted: seq<Tid>) | UpFromInterrupt(id: nat, sorted: seq<Tid>)
    | Acquire(lock: LockId, at: nat) | TryAcquire(lock: LockId) | Release(lock: LockId, sorted: seq<Tid>)
    | ChangePriority(priority: int) | YieldCpu | NewThread(tid: Tid, priority: int) | Quit
    | SleepFor(ticks: int) | TimerTick | Resume | IdleBlocks

  function Apply(s: State, a: Step): State {
    match a
    case Down(id) => SemaDown(s, Plain(id))
    case TryDownPlain(id) => TryDown(s, Plain(id))
    case Up(id, sorted) => YieldIfOutranked(Raise(s, Plain(id), sorted))
    case UpFromInterrupt(id, sorted) => Raise(s, Plain(id), sorted)
    case Acquire(l, at) => LockAcquire(s, l, at)
    case TryAcquire(l) => TryDown(s, OfLock(l))
    case Release(l, sorted) => LockRelease(s, l, sorted)
    case ChangePriority(p) => SetPriority(s, p)
    case YieldCpu => Yield(s)
    case NewThread(t, p) => Create(s, t, p)
    case Quit => Exit(s)
    case SleepFor(ticks) => Sleep(s, ticks)
    case TimerTick => Tick(s)
    case Resume =>
      var a := Me(s).doing;
      if a.Downing? then DownOnce(s, a.sema) else Enter(s, User)
    case IdleBlocks => Dispatch(SetThread(s, s.current, Me(s).(status := Blocked)))
  }

  /** When the running thread (or an interrupt handler) may take step a. These are the
      assertions of the source, and the assumption that no thread exits with a lock. A
      thread that is inside sema_down or timer_sleep runs with interrupts off until it
      leaves, so Resume is then the only step. */
  predicate Enabled(s: State, a: Step) {
    && (a.Resume? <==> Me(s).doing != User)
    && (a.IdleBlocks? ==> s.current == s.idle)
    && (s.current == s.idle ==> a.IdleBlocks? || a.TimerTick? || a.UpFromInterrupt? || a.YieldCpu?)
    && match a
       case Down(id) => Plain(id) in s.semas
       case TryDownPlain(id) => Plain(id) in s.semas
       case Up(id, sorted) => Plain(id) in s.semas && IsSortOf(s.threads, sorted, s.semas[Plain(id)].waiters)
       case UpFromInterrupt(id, sorted) =>
         Plain(id) in s.semas && IsSortOf(s.threads, sorted, s.semas[Plain(id)].waiters)
       case Acquire(l, at) => l in s.holder && s.holder[l] != Some(s.current)
       case TryAcquire(l) => l in s.holder && s.holder[l] != Some(s.current)
       case Release(l, sorted) =>
         && l in s.holder && s.holder[l] == Some(s.current)
         && IsSortOf(CheckDonors(DropDonors(s, l)).threads, sorted, SemaOf(s, OfLock(l)).waiters)
       case NewThread(t, p) => t !in s.threads && 0 <= p <= 63
       case Quit => !Holds(s, s.current)
       case _ => true
  }
}
