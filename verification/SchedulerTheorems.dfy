/** What the scheduler promises about every run, and what one donation achieves. */
module SchedulerTheorems {
  import opened Machine
  import opened Scheduler
  import opened SchedulerInvariants
  import opened SchedulerRuns

  // ----- runs -----

  /** The state after thread_start: the initial thread runs, the idle thread has blocked,
      no semaphore has waiters and no lock is held. */
  ghost predicate Init(s: State) {
    && s.current != s.idle && s.threads.Keys == {s.current, s.idle}
    && (forall t | t in s.threads :: Untouched(s.threads[t]))
    && Me(s).status == Running && s.threads[s.idle].status == Blocked
    && s.ready == [] && s.sleepers == []
    && (forall r | r in s.semas :: s.semas[r].waiters == [])
    && (forall l :: l in s.holder <==> OfLock(l) in s.semas)
    && (forall l | l in s.holder :: s.holder[l] == None && s.semas[OfLock(l)].value == 1)
  }

  ghost predicate Untouched(th: Thread) {
    th.doing == User && th.waitlock == None && th.donors == [] && th.priority == th.initialPriority
  }

  function After(s: State, run: seq<Step>): State
    decreases |run|
  {
    if run == [] then s else After(Apply(s, run[0]), run[1..])
  }

  ghost predicate IsRun(s: State, run: seq<Step>)
    decreases |run|
  {
    run != [] ==> Enabled(s, run[0]) && IsRun(Apply(s, run[0]), run[1..])
  }

  ghost predicate Reachable(s: State) {
    exists s0, run :: Init(s0) && IsRun(s0, run) && s == After(s0, run)
  }

  lemma InitInv(s: State)
    requires Init(s)
    ensures Inv(s)
  {
    forall t | t in s.threads ensures ActivityOk(s, t) && PriorityOk(s, t) && WaitlockOk(s.threads[t]) {
      assert Untouched(s.threads[t]);
    }
    assert Untouched(s.threads[s.idle]);
  }

  lemma {:induction false} RunKeepsInv(s: State, run: seq<Step>)
    requires Inv(s) && IsRun(s, run)
    ensures Inv(After(s, run))
    decreases |run|
  {
    hide Inv;
    if run != [] {
      StepKeepsInv(s, run[0]);
      RunKeepsInv(Apply(s, run[0]), run[1..]);
    }
  }

  lemma ReachableInv(s: State)
    requires Reachable(s)
    ensures Inv(s)
  {
    var s0, run :| Init(s0) && IsRun(s0, run) && s == After(s0, run);
    InitInv(s0);
    RunKeepsInv(s0, run);
  }

  // ----- donation lists and priorities -----

  /** Thread t is inside lock_acquire on lock l. */
  ghost predicate WaitsFor(s: State, t: Tid, l: LockId) {
    t in s.threads && s.threads[t].doing == Downing(OfLock(l)) && s.threads[t].waitlock == Some(l)
  }

  /** In every reachable state, an entry t of a donation list of h is a thread still inside
      lock_acquire on a lock that h holds; it is there once, and on no other list. */
  lemma DonationLists(s: State, h: Tid, t: Tid)
    requires Reachable(s) && h in s.threads && t in s.threads[h].donors
    ensures exists l :: WaitsFor(s, t, l) && HolderOf(s.holder, l) == Some(h)
    ensures multiset(s.threads[h].donors)[t] == 1
    ensures forall g | g in s.threads && t in s.threads[g].donors :: g == h
  {
    ReachableInv(s);
    assert IsDonor(s, h, t);
    var l := s.threads[t].waitlock.value;
    assert WaitlockOk(s.threads[t]);
    assert WaitsFor(s, t, l);
    assert t in multiset(s.threads[h].donors);
    forall g | g in s.threads && t in s.threads[g].donors ensures g == h { assert IsDonor(s, g, t); }
  }

  /** In every reachable state no priority is below its base, and a thread that holds no
      lock has exactly its base priority. */
  lemma BasePriorities(s: State, t: Tid)
    requires Reachable(s) && t in s.threads
    ensures s.threads[t].priority >= s.threads[t].initialPriority
    ensures !Holds(s, t) ==> s.threads[t].priority == s.threads[t].initialPriority && s.threads[t].donors == []
  {
    ReachableInv(s);
    assert PriorityOk(s, t);
    if s.threads[t].donors != [] {
      var d := s.threads[t].donors[0];
      assert d in s.threads[t].donors && IsDonor(s, t, d);
      assert Holds(s, t);
    }
  }

  // ----- mutual exclusion and wakeups -----

  /** A lock's semaphore is 0 or 1, and it is 1 exactly when the lock has no holder. A
      thread inside lock_acquire never waits for itself. */
  lemma MutualExclusion(s: State, l: LockId)
    requires Reachable(s) && l in s.holder
    ensures OfLock(l) in s.semas && s.semas[OfLock(l)].value in {0, 1}
    ensures s.holder[l] == None <==> s.semas[OfLock(l)].value == 1
    ensures forall t | t in s.threads && s.threads[t].doing == Downing(OfLock(l)) :: s.holder[l] != Some(t)
  {
    ReachableInv(s);
    assert LockOk(s, l);
    forall t | t in s.threads && s.threads[t].doing == Downing(OfLock(l)) ensures s.holder[l] != Some(t) {
      assert ActivityOk(s, t);
    }
  }

  /** No lost wakeup: while a thread sleeps on a semaphore of positive value, as many
      threads as its value have been woken for it and have yet to test it, and each of them
      is running or on the ready list. */
  lemma NoLostWakeup(s: State, r: SemaRef)
    requires Reachable(s) && r in s.semas && s.semas[r].waiters != []
    ensures s.semas[r].value <= |Woken(s, r)|
    ensures forall t | t in Woken(s, r) :: t == s.current || t in s.ready
  {
    ReachableInv(s);
    forall t | t in Woken(s, r) ensures t == s.current || t in s.ready {
      assert ActivityOk(s, t);
      if t != s.current { assert IsPlaced(s, t); }
    }
  }

  /** The list element of a thread is used for at most one list at a time: a ready thread
      (other than idle) is on the ready list, a blocked one waits in exactly one place. */
  lemma OnePlace(s: State, t: Tid)
    requires Reachable(s) && t in s.threads && t != s.idle
    ensures t in s.ready <==> s.threads[t].status == Ready
    ensures t == s.current <==> s.threads[t].status == Running
    ensures t in s.sleepers <==> s.threads[t].status == Blocked && s.threads[t].doing.Sleeping?
    ensures forall r | r in s.semas ::
              t in s.semas[r].waiters <==> s.threads[t].status == Blocked && s.threads[t].doing == Downing(r)
  {
    ReachableInv(s);
    if t != s.current { assert IsPlaced(s, t); }
    forall r | r in s.semas
      ensures t in s.semas[r].waiters <==> s.threads[t].status == Blocked && s.threads[t].doing == Downing(r)
    {
      assert WaitersOk(s, Some(s.current), r);
    }
  }

  /** sema_up wakes a waiter of the highest priority. */
  lemma WakesHighest(s: State, r: SemaRef, sorted: seq<Tid>)
    requires IsSortOf(s.threads, sorted, SemaOf(s, r).waiters) && sorted != []
    ensures var s' := Raise(s, r, sorted);
            && sorted[0] in SemaOf(s, r).waiters && sorted[0] in s'.ready
            && Get(s'.threads, sorted[0]).status == Ready
            && forall w | w in SemaOf(s, r).waiters :: Get(s.threads, sorted[0]).priority >= Get(s.threads, w).priority
  {
    SortContents(s.threads, sorted, SemaOf(s, r).waiters);
    InsertOrderedContents(s.threads, s.ready, sorted[0]);
    forall w | w in SemaOf(s, r).waiters ensures Get(s.threads, sorted[0]).priority >= Get(s.threads, w).priority {
      var j :| 0 <= j < |sorted| && sorted[j] == w;
      if j > 0 { assert Get(s.threads, sorted[0]).priority >= Get(s.threads, sorted[j]).priority; }
    }
  }

  // ----- accounting -----

  function Ups(a: Step, r: SemaRef): nat {
    match a
    case Up(id, _) => if r == Plain(id) then 1 else 0
    case UpFromInterrupt(id, _) => if r == Plain(id) then 1 else 0
    case Release(l, _) => if r == OfLock(l) then 1 else 0
    case _ => 0
  }

  /** The semaphore that step a tries to take. */
  function Tries(s: State, a: Step): Option<SemaRef> {
    match a
    case Down(id) => Some(Plain(id))
    case TryDownPlain(id) => Some(Plain(id))
    case Acquire(l, _) => Some(OfLock(l))
    case TryAcquire(l) => Some(OfLock(l))
    case Resume => if Me(s).doing.Downing? then Some(Me(s).doing.sema) else None
    case _ => None
  }

  function CompletedDowns(s: State, a: Step, r: SemaRef): nat {
    if Tries(s, a) == Some(r) && SemaOf(s, r).value > 0 then 1 else 0
  }

  function TotalUps(run: seq<Step>, r: SemaRef): nat {
    if run == [] then 0 else Ups(run[0], r) + TotalUps(run[1..], r)
  }

  function TotalDowns(s: State, run: seq<Step>, r: SemaRef): nat
    decreases |run|
  {
    if run == [] then 0 else CompletedDowns(s, run[0], r) + TotalDowns(Apply(s, run[0]), run[1..], r)
  }

  lemma RegisterKeepsSemas(s: State, l: LockId, at: nat)
    ensures Register(s, l, at).semas == s.semas
  {
  }

  lemma {:induction false} WakeDueKeepsSemas(s: State)
    ensures WakeDue(s).semas == s.semas
    decreases |s.sleepers|
  {
    if s.sleepers != [] && s.now >= WakeTime(s.threads, s.sleepers[0]) {
      WakeDueKeepsSemas(Unblock(s.(sleepers := s.sleepers[1..]), s.sleepers[0]));
    }
  }

  lemma DownCounts(s: State, t: SemaRef, r: SemaRef)
    requires r in s.semas
    ensures r in DownOnce(s, t).semas
    ensures DownOnce(s, t).semas[r].value == s.semas[r].value - (if t == r && s.semas[r].value > 0 then 1 else 0)
  {
  }

  lemma UpCounts(s: State, t: SemaRef, sorted: seq<Tid>, r: SemaRef)
    requires r in s.semas
    ensures r in Raise(s, t, sorted).semas
    ensures Raise(s, t, sorted).semas[r].value == s.semas[r].value + (if t == r then 1 else 0)
  {
  }

  /** What moves threads or recomputes priorities leaves every semaphore alone. */
  lemma QuietKeepsSemas(s: State)
    ensures Yield(s).semas == s.semas && YieldIfOutranked(s).semas == s.semas && Dispatch(s).semas == s.semas
    ensures CheckDonors(s).semas == s.semas && DonateFromCurrent(s).semas == s.semas
  {
  }

  lemma StepCounts(s: State, a: Step, r: SemaRef)
    requires r in s.semas
    ensures r in Apply(s, a).semas
    ensures Apply(s, a).semas[r].value == s.semas[r].value + Ups(a, r) - CompletedDowns(s, a, r)
  {
    hide DownOnce, Raise, Register, LockRelease, TryDown, YieldIfOutranked;
    match a
    case Down(id) => DownCounts(Enter(s, Downing(Plain(id))), Plain(id), r);
    case TryDownPlain(id) => TryCounts(s, Plain(id), r);
    case TryAcquire(l) => TryCounts(s, OfLock(l), r);
    case Up(id, sorted) => UpCounts(s, Plain(id), sorted, r); QuietKeepsSemas(Raise(s, Plain(id), sorted));
    case UpFromInterrupt(id, sorted) => UpCounts(s, Plain(id), sorted, r);
    case Acquire(l, at) =>
      var s1 := Enter(s, Downing(OfLock(l)));
      RegisterKeepsSemas(s1, l, at);
      DownCounts(Register(s1, l, at), OfLock(l), r);
    case Release(l, sorted) => ReleaseCounts(s, l, sorted, r);
    case Resume => if Me(s).doing.Downing? { DownCounts(s, Me(s).doing.sema, r); }
    case _ => StepKeepsSemas(s, a);
  }

  lemma ReleaseCounts(s: State, l: LockId, sorted: seq<Tid>, r: SemaRef)
    requires r in s.semas
    ensures r in LockRelease(s, l, sorted).semas
    ensures LockRelease(s, l, sorted).semas[r].value == s.semas[r].value + (if r == OfLock(l) then 1 else 0)
  {
    hide CheckDonors, YieldIfOutranked, Raise;
    var s1 := CheckDonors(DropDonors(s, l));
    QuietKeepsSemas(DropDonors(s, l));
    UpCounts(s1, OfLock(l), sorted, r);
    QuietKeepsSemas(Raise(s1, OfLock(l), sorted));
  }

  lemma StepKeepsSemas(s: State, a: Step)
    requires a.ChangePriority? || a.YieldCpu? || a.NewThread? || a.Quit? || a.SleepFor? || a.TimerTick? || a.IdleBlocks?
    ensures Apply(s, a).semas == s.semas
  {
    hide WakeDue;
    WakeDueKeepsSemas(s.(now := s.now + 1));
  }

  lemma TryCounts(s: State, t: SemaRef, r: SemaRef)
    requires r in s.semas
    ensures r in TryDown(s, t).semas
    ensures TryDown(s, t).semas[r].value
         == s.semas[r].value - (if t == r && s.semas[r].value > 0 then 1 else 0)
  {
  }

  /** Over a whole run, the value of a semaphore is its initial value, plus the calls of
      sema_up, minus the calls of sema_down and sema_try_down that completed. */
  lemma {:induction false} SemaphoreAccounting(s: State, run: seq<Step>, r: SemaRef)
    requires r in s.semas
    ensures r in After(s, run).semas
    ensures After(s, run).semas[r].value == s.semas[r].value + TotalUps(run, r) - TotalDowns(s, run, r)
    decreases |run|
  {
    if run != [] {
      StepCounts(s, run[0], r);
      SemaphoreAccounting(Apply(s, run[0]), run[1..], r);
    }
  }

  // ----- one donation -----

  /** The lock holder that thread t waits for. */
  function WaitEdge(threads: map<Tid, Thread>, holder: map<LockId, Option<Tid>>, t: Tid): Option<Tid> {
    match Get(threads, t).waitlock
    case None => None
    case Some(l) => HolderOf(holder, l)
  }

  /** The thread that waits does not outrank the thread it waits for. */
  ghost predicate EdgeOk(threads: map<Tid, Thread>, holder: map<LockId, Option<Tid>>, t: Tid) {
    match WaitEdge(threads, holder, t)
    case None => true
    case Some(h) => Get(threads, h).priority >= Get(threads, t).priority
  }

  /** The k-th thread on the wait chain that starts at t. */
  function ChainAt(threads: map<Tid, Thread>, holder: map<LockId, Option<Tid>>, t: Tid, k: nat): Option<Tid>
    decreases k
  {
    if k == 0 then Some(t) else
      match WaitEdge(threads, holder, t)
      case None => None
      case Some(h) => ChainAt(threads, holder, h, k - 1)
  }

  lemma {:induction false} ChainFrame(a: map<Tid, Thread>, b: map<Tid, Thread>, holder: map<LockId, Option<Tid>>, t: Tid, k: nat)
    requires forall x :: Get(a, x).waitlock == Get(b, x).waitlock
    ensures ChainAt(a, holder, t, k) == ChainAt(b, holder, t, k)
    decreases k
  {
    if k > 0 && WaitEdge(a, holder, t).Some? {
      ChainFrame(a, b, holder, WaitEdge(a, holder, t).value, k - 1);
    }
  }

  lemma {:induction false} ChainNext(threads: map<Tid, Thread>, holder: map<LockId, Option<Tid>>, t: Tid, k: nat)
    ensures ChainAt(threads, holder, t, k + 1)
            == (match ChainAt(threads, holder, t, k) case None => None case Some(x) => WaitEdge(threads, holder, x))
    decreases k
  {
    if k > 0 && WaitEdge(threads, holder, t).Some? {
      ChainNext(threads, holder, WaitEdge(threads, holder, t).value, k - 1);
    }
  }

  /** Priorities do not fall along a chain whose edges are all in order. */
  lemma {:induction false} ChainRises(threads: map<Tid, Thread>, holder: map<LockId, Option<Tid>>, t: Tid, k: nat)
    requires forall y :: EdgeOk(threads, holder, y)
    ensures ChainAt(threads, holder, t, k).Some? ==> Get(threads, ChainAt(threads, holder, t, k).value).priority >= Get(threads, t).priority
    decreases k
  {
    if k > 0 && WaitEdge(threads, holder, t).Some? {
      assert EdgeOk(threads, holder, t);
      ChainRises(threads, holder, WaitEdge(threads, holder, t).value, k - 1);
    }
  }

  /** The thread does not come among the first n of the chain. */
  ghost predicate NotBefore(threads: map<Tid, Thread>, holder: map<LockId, Option<Tid>>, t: Tid, n: nat, z: Tid) {
    forall k: nat | k < n :: ChainAt(threads, holder, t, k) != Some(z)
  }

  /** The chain goes on past n donations to a thread that it has not met and that the donor
      outranks. */
  ghost predicate TooLong(threads: map<Tid, Thread>, holder: map<LockId, Option<Tid>>, t: Tid, n: nat) {
    match ChainAt(threads, holder, t, n + 1)
    case None => false
    case Some(z) => NotBefore(threads, holder, t, n + 1, z) && Get(threads, z).priority < Get(threads, t).priority
  }

  /** Raising the first holder of the chain leaves the question to the rest of the chain. */
  lemma TooLongShifts(threads: map<Tid, Thread>, raised: map<Tid, Thread>, holder: map<LockId, Option<Tid>>, t: Tid, h: Tid, n: nat)
    requires WaitEdge(threads, holder, t) == Some(h) && Get(threads, h).priority < Get(threads, t).priority
    requires raised == threads[h := Get(threads, h).(priority := Get(threads, t).priority)]
    ensures TooLong(threads, holder, t, n + 1) <==> TooLong(raised, holder, h, n)
  {
    forall k: nat ensures ChainAt(threads, holder, t, k + 1) == ChainAt(raised, holder, h, k) {
      ChainFrame(threads, raised, holder, h, k);
    }
    var c := ChainAt(raised, holder, h, n + 1);
    if c.Some? {
      assert ChainAt(threads, holder, t, 0) == Some(t) && ChainAt(raised, holder, h, 0) == Some(h);
      if TooLong(threads, holder, t, n + 1) {
        forall k: nat | k < n + 1 ensures ChainAt(raised, holder, h, k) != c { assert ChainAt(threads, holder, t, k + 1) != c; }
      }
      if TooLong(raised, holder, h, n) {
        forall k: nat | k < n + 2 ensures ChainAt(threads, holder, t, k) != c {
          if k > 0 { assert ChainAt(raised, holder, h, k - 1) != c; }
        }
      }
    }
  }

  /** Donation with n iterations: if every wait edge but the first one of the chain was in
      order, every edge is in order afterwards, except exactly for the edge out of the n-th
      thread of a chain that is too long. The chain may be cyclic. */
  lemma {:induction false} DonationRestoresEdges(threads: map<Tid, Thread>, holder: map<LockId, Option<Tid>>, t: Tid, n: nat, x: Tid)
    requires forall y :: y != t ==> EdgeOk(threads, holder, y)
    ensures EdgeOk(Donate(threads, holder, t, n), holder, x) <==> !(TooLong(threads, holder, t, n) && ChainAt(threads, holder, t, n) == Some(x))
    decreases n
  {
    var mine := Get(threads, t).priority;
    if WaitEdge(threads, holder, t).Some? {
      var h := WaitEdge(threads, holder, t).value;
      assert ChainAt(threads, holder, t, 1) == ChainAt(threads, holder, h, 0) == Some(h);
      if Get(threads, h).priority >= mine {
        assert forall y :: EdgeOk(threads, holder, y);
        ChainRises(threads, holder, t, n + 1);
      } else if n == 0 {
        assert ChainAt(threads, holder, t, 0) == Some(t) && x != t ==> EdgeOk(threads, holder, x);
      } else {
        var raised := threads[h := Get(threads, h).(priority := mine)];
        forall y | y != h ensures EdgeOk(raised, holder, y) {
          if y != t { assert EdgeOk(threads, holder, y); }
        }
        ChainFrame(threads, raised, holder, h, n - 1);
        TooLongShifts(threads, raised, holder, t, h, n - 1);
        DonationRestoresEdges(raised, holder, h, n - 1, x);
      }
    } else {
      assert EdgeOk(threads, holder, t);
    }
  }

  /** The first n edges of the chain, even of a cyclic one, are never too far. */
  lemma FirstEdgesAreRestored(threads: map<Tid, Thread>, holder: map<LockId, Option<Tid>>, t: Tid, n: nat, k: nat)
    requires (forall y :: y != t ==> EdgeOk(threads, holder, y)) && k < n && ChainAt(threads, holder, t, k).Some?
    ensures EdgeOk(Donate(threads, holder, t, n), holder, ChainAt(threads, holder, t, k).value)
  {
    var x := ChainAt(threads, holder, t, k).value;
    DonationRestoresEdges(threads, holder, t, n, x);
    if ChainAt(threads, holder, t, n) == Some(x) {
      ChainNext(threads, holder, t, k);
      ChainNext(threads, holder, t, n);
      assert ChainAt(threads, holder, t, k + 1) == ChainAt(threads, holder, t, n + 1);
    }
  }

  /** All edges are in order afterwards exactly if the chain is not too long. */
  lemma DonationRestoresAllEdges(threads: map<Tid, Thread>, holder: map<LockId, Option<Tid>>, t: Tid, n: nat)
    requires forall y :: y != t ==> EdgeOk(threads, holder, y)
    ensures (forall x :: EdgeOk(Donate(threads, holder, t, n), holder, x)) <==> !TooLong(threads, holder, t, n)
  {
    hide EdgeOk, TooLong;
    var r := Donate(threads, holder, t, n);
    if TooLong(threads, holder, t, n) {
      TooLongReaches(threads, holder, t, n);
      var x := ChainAt(threads, holder, t, n).value;
      DonationRestoresEdges(threads, holder, t, n, x);
      assert !EdgeOk(r, holder, x);
    } else {
      forall x: Tid ensures EdgeOk(r, holder, x) { DonationRestoresEdges(threads, holder, t, n, x); }
    }
  }

  lemma TooLongReaches(threads: map<Tid, Thread>, holder: map<LockId, Option<Tid>>, t: Tid, n: nat)
    requires TooLong(threads, holder, t, n)
    ensures ChainAt(threads, holder, t, n).Some?
  {
    ChainNext(threads, holder, t, n);
  }

  /** Donation lowers no priority, gives every thread it changes the priority of the donor,
      and changes no thread off the first n of the chain. */
  lemma {:induction false} DonationStaysOnChain(threads: map<Tid, Thread>, holder: map<LockId, Option<Tid>>, t: Tid, n: nat, x: Tid)
    ensures var r := Donate(threads, holder, t, n);
            || Get(r, x) == Get(threads, x)
            || (&& Get(r, x) == Get(threads, x).(priority := Get(threads, t).priority)
                && Get(r, x).priority > Get(threads, x).priority
                && exists k :: 1 <= k <= n && ChainAt(threads, holder, t, k) == Some(x))
    decreases n
  {
    var mine := Get(threads, t).priority;
    if n > 0 && WaitEdge(threads, holder, t).Some? {
      var h := WaitEdge(threads, holder, t).value;
      if Get(threads, h).priority < mine {
        var raised := threads[h := Get(threads, h).(priority := mine)];
        DonationStaysOnChain(raised, holder, h, n - 1, x);
        var r := Donate(threads, holder, t, n);
        assert r == Donate(raised, holder, h, n - 1) && Get(raised, h).priority == mine;
        if x == h {
          assert Get(r, h) == Get(raised, h);
          assert ChainAt(threads, holder, h, 0) == Some(h);
          assert ChainAt(threads, holder, t, 1) == Some(x);
        } else if Get(r, x) != Get(threads, x) {
          var k :| 1 <= k <= n - 1 && ChainAt(raised, holder, h, k) == Some(x);
          ChainFrame(threads, raised, holder, h, k);
          assert ChainAt(threads, holder, t, k + 1) == Some(x);
        }
      }
    }
  }

  /** priority_donation_solve in one statement: if every wait edge but the current thread's
      is in order, then no priority falls, nothing off the first eight threads of the chain
      changes, the first eight edges are in order afterwards, and all edges are exactly if the
      chain is not too long. */
  lemma DonationSolve(s: State, x: Tid)
    requires forall y :: y != s.current ==> EdgeOk(s.threads, s.holder, y)
    ensures var s' := DonateFromCurrent(s);
            && Get(s'.threads, x).priority >= Get(s.threads, x).priority
            && ((forall k | 1 <= k <= 8 :: ChainAt(s.threads, s.holder, s.current, k) != Some(x)) ==> Get(s'.threads, x) == Get(s.threads, x))
            && ((exists k: nat :: k < 8 && ChainAt(s.threads, s.holder, s.current, k) == Some(x)) ==> EdgeOk(s'.threads, s.holder, x))
            && ((forall y :: EdgeOk(s'.threads, s.holder, y)) <==> !TooLong(s.threads, s.holder, s.current, 8))
  {
    DonationStaysOnChain(s.threads, s.holder, s.current, 8, x);
    DonationRestoresAllEdges(s.threads, s.holder, s.current, 8);
    if k: nat :| k < 8 && ChainAt(s.threads, s.holder, s.current, k) == Some(x) {
      FirstEdgesAreRestored(s.threads, s.holder, s.current, 8, k);
    }
  }

  // Thread i > 0 waits for lock i, which thread i + 1 holds; thread 0 runs, and alone has a
  // priority above 0. Thread 9 is ready, and thread 10 is the idle thread.
  const LONG_THREADS := map i: nat | i <= 10 ::
    Thread(if i == 0 then Running else if i == 9 then Ready else Blocked, if i == 0 then 63 else 0, if i == 0 then 63 else 0,
           if 1 <= i <= 8 then Some(i) else None, if 2 <= i <= 9 then [i - 1] else [],
           if 1 <= i <= 8 then Downing(OfLock(i)) else User)
  const LONG_SEMAS: map<SemaRef, Sema> := map r: SemaRef | r in (set i: nat | i < 9 :: OfLock(i)) :: Sema(0, if r.OfLock? && r.lock > 0 then [r.lock] else [])
  const LONG_CHAIN := State(LONG_THREADS, LONG_SEMAS, map i: nat | i < 9 :: Some(i + 1), [9], [], 0, 10, 0, 0)

  lemma LongPlaced()
    ensures ListsOk(LONG_CHAIN) && MembersOk(LONG_CHAIN, Some(0))
  {
  }

  lemma LongStatuses()
    ensures StatusesOk(LONG_CHAIN, Some(0)) && Me(LONG_CHAIN).status == Running
  {
  }

  lemma LongLocks()
    ensures LocksOk(LONG_CHAIN, None)
  {
    forall t | t in LONG_THREADS ensures ActivityOk(LONG_CHAIN, t) {}
  }

  lemma LongDonors()
    ensures DonorsOk(LONG_CHAIN)
  {
    forall h | h in LONG_THREADS ensures NoDup(LONG_THREADS[h].donors) && WaitlockOk(LONG_THREADS[h]) {}
    forall h, t | h in LONG_THREADS && t in LONG_THREADS[h].donors ensures IsDonor(LONG_CHAIN, h, t) {}
  }

  lemma LongPriorities()
    ensures PrioritiesOk(LONG_CHAIN) && WakeupsOk(LONG_CHAIN)
  {
  }

  lemma LongChainInv()
    ensures Inv(LONG_CHAIN) && Enabled(LONG_CHAIN, Acquire(0, 0))
  {
    LongPlaced();
    LongStatuses();
    LongLocks();
    LongDonors();
    LongPriorities();
    hide ListsOk, MembersOk, StatusesOk, LocksOk, DonorsOk, PrioritiesOk, WakeupsOk;
    assert Placed(LONG_CHAIN, Some(0));
  }

  /** The first n threads of a chain in which thread i waits for thread i + 1. */
  lemma {:induction false} LongChainAt(threads: map<Tid, Thread>, holder: map<LockId, Option<Tid>>, t: nat, k: nat, n: nat)
    requires t + k <= n && forall i: nat | i < n :: WaitEdge(threads, holder, i) == Some(i + 1)
    ensures ChainAt(threads, holder, t, k) == Some(t + k)
    decreases k
  {
    if k > 0 { LongChainAt(threads, holder, t + 1, k - 1, n); }
  }

  /** The depth limit is real: in a state that keeps every invariant and has every edge in
      order, thread 0 acquires lock 0, and the ninth edge of its chain stays out of order. */
  lemma DonationStopsAfterEight()
    ensures Inv(LONG_CHAIN) && Enabled(LONG_CHAIN, Acquire(0, 0)) && forall y :: EdgeOk(LONG_CHAIN.threads, LONG_CHAIN.holder, y)
    ensures var s' := Apply(LONG_CHAIN, Acquire(0, 0)); Inv(s') && !EdgeOk(s'.threads, s'.holder, 8)
  {
    LongChainInv();
    LongEdges();
    LongDonation();
    hide Inv, EdgeOk, TooLong;
    StepKeepsInv(LONG_CHAIN, Acquire(0, 0));
    var s := Register(Enter(LONG_CHAIN, Downing(OfLock(0))), 0, 0);
    DonationRestoresEdges(s.threads, s.holder, 0, 8, 8);
    ParkKeepsEdges(DonateFromCurrent(s), OfLock(0), 8);
  }

  lemma LongEdges()
    ensures forall y: Tid :: EdgeOk(LONG_CHAIN.threads, LONG_CHAIN.holder, y)
  {
    forall y: Tid ensures EdgeOk(LONG_CHAIN.threads, LONG_CHAIN.holder, y) { assert y > 0 ==> Get(LONG_THREADS, y).priority == 0; }
  }

  /** The donation that thread 0 makes when it waits for lock 0. */
  lemma LongDonation()
    ensures var s := Register(Enter(LONG_CHAIN, Downing(OfLock(0))), 0, 0);
            && s.current == 0 && s.holder == LONG_CHAIN.holder && SemaOf(s, OfLock(0)).value == 0
            && TooLong(s.threads, s.holder, 0, 8) && ChainAt(s.threads, s.holder, 0, 8) == Some(8)
            && forall y: Tid :: y != 0 ==> EdgeOk(s.threads, s.holder, y)
  {
    var s := Register(Enter(LONG_CHAIN, Downing(OfLock(0))), 0, 0);
    LongRegistered();
    forall k: nat | k <= 9 ensures ChainAt(s.threads, s.holder, 0, k) == Some(k) { LongChainAt(s.threads, s.holder, 0, k, 9); }
  }

  lemma LongRegistered()
    ensures var s := Register(Enter(LONG_CHAIN, Downing(OfLock(0))), 0, 0);
            && s.current == 0 && s.holder == LONG_CHAIN.holder && s.semas == LONG_SEMAS
            && (forall i: nat | i < 9 :: WaitEdge(s.threads, s.holder, i) == Some(i + 1))
            && (forall y: nat :: Get(s.threads, y).priority == if y == 0 then 63 else 0)
  {
  }

  lemma ParkKeepsEdges(s: State, r: SemaRef, x: Tid)
    ensures var s' := Dispatch(ParkOn(s, r)); EdgeOk(s'.threads, s'.holder, x) <==> EdgeOk(s.threads, s.holder, x)
  {
  }
}
