/** The scheduler's code as it updates the kernel's data in place, proved equal to the
    steps of the state machine. */
module SchedulerKernel {
  import opened Machine
  import opened Scheduler
  import opened SchedulerInvariants

  /** Skipping a prefix that the new element must not overtake. */
  lemma {:induction false} InsertAt(threads: map<Tid, Thread>, q: seq<Tid>, t: Tid, i: nat)
    requires i <= |q| && forall j | 0 <= j < i :: Get(threads, t).priority <= Get(threads, q[j]).priority
    requires i < |q| ==> Get(threads, t).priority > Get(threads, q[i]).priority
    ensures InsertOrdered(threads, q, t) == q[..i] + [t] + q[i..]
  {
    if i > 0 {
      InsertAt(threads, q[1..], t, i - 1);
      assert q[..i] == [q[0]] + q[1..][..i - 1] && q[i..] == q[1..][i - 1..];
    }
  }

  lemma {:induction false} InsertByWakeTimeAt(threads: map<Tid, Thread>, q: seq<Tid>, t: Tid, i: nat)
    requires i <= |q| && forall j | 0 <= j < i :: WakeTime(threads, t) >= WakeTime(threads, q[j])
    requires i < |q| ==> WakeTime(threads, t) < WakeTime(threads, q[i])
    ensures InsertByWakeTime(threads, q, t) == q[..i] + [t] + q[i..]
  {
    if i > 0 {
      InsertByWakeTimeAt(threads, q[1..], t, i - 1);
      assert q[..i] == [q[0]] + q[1..][..i - 1] && q[i..] == q[1..][i - 1..];
    }
  }

  /** The word that compare_priority reads for an element of a donation list, where it expects a
      priority: the next pointer at the head of the thread's own donation list. It points to the
      first element there, 80 bytes into the page of its thread, or to the tail of the list, at 72. */
  function ComparedWord(addr: Tid -> int, threads: map<Tid, Thread>, t: Tid): int {
    var q := Get(threads, t).donors; if q == [] then addr(t) + 72 else addr(q[0]) + 80
  }

  /** The place in front of the first element with a smaller word. */
  ghost predicate IsPlaceAmong(addr: Tid -> int, threads: map<Tid, Thread>, q: seq<Tid>, t: Tid, at: nat) {
    && at <= |q| && (forall j | 0 <= j < at :: ComparedWord(addr, threads, t) <= ComparedWord(addr, threads, q[j]))
    && (at < |q| ==> ComparedWord(addr, threads, t) > ComparedWord(addr, threads, q[at]))
  }

  lemma SameWords(addr: Tid -> int, a: map<Tid, Thread>, b: map<Tid, Thread>)
    requires forall t :: Get(a, t).donors == Get(b, t).donors
    ensures forall t :: ComparedWord(addr, a, t) == ComparedWord(addr, b, t)
  {
  }

  class Kernel {
    var threads: map<Tid, Thread>
    var semas: map<SemaRef, Sema>
    var holder: map<LockId, Option<Tid>>
    var ready: seq<Tid>
    var sleepers: seq<Tid>
    var current: Tid
    var idle: Tid
    var now: int
    var sliceTicks: nat

    ghost function View(): State
      reads this
    {
      State(threads, semas, holder, ready, sleepers, current, idle, now, sliceTicks)
    }

    // ----- lists -----

    method ListInsertOrdered(q: seq<Tid>, t: Tid) returns (r: seq<Tid>)
      ensures r == InsertOrdered(threads, q, t)
    {
      var i := 0;
      while i < |q| && !(Get(threads, t).priority > Get(threads, q[i]).priority)
        invariant i <= |q| && forall j | 0 <= j < i :: Get(threads, t).priority <= Get(threads, q[j]).priority
      {
        i := i + 1;
      }
      InsertAt(threads, q, t, i);
      r := q[..i] + [t] + q[i..];
    }

    method ListSort(q: seq<Tid>) returns (sorted: seq<Tid>)
      ensures IsSortOf(threads, sorted, q)
    {
      sorted := [];
      for i := 0 to |q|
        invariant IsSortOf(threads, sorted, q[..i])
      {
        InsertOrderedSorted(threads, sorted, q[i]);
        InsertOrderedContents(threads, sorted, q[i]);
        assert q[..i + 1] == q[..i] + [q[i]];
        sorted := ListInsertOrdered(sorted, q[i]);
      }
      assert q[..|q|] == q;
    }

    // ----- donation -----

    /** Walks at most eight steps up the chain of lock holders, and stops early at a free
        lock or at a holder of sufficient priority. It ends even when the chain is cyclic. */
    method PriorityDonationSolve()
      modifies this`threads
      ensures View() == DonateFromCurrent(old(View()))
    {
      var counter := 0;
      var t := current;
      var l := Get(threads, t).waitlock;
      while l.Some? && counter < DONATION_DEPTH
        invariant 0 <= counter <= DONATION_DEPTH && l == Get(threads, t).waitlock
        invariant Donate(threads, holder, t, DONATION_DEPTH - counter)
               == Donate(old(threads), holder, current, DONATION_DEPTH)
      {
        counter := counter + 1;
        var h := HolderOf(holder, l.value);
        if h == None { return; }
        if Get(threads, h.value).priority >= Get(threads, t).priority { return; }
        threads := threads[h.value := Get(threads, h.value).(priority := Get(threads, t).priority)];
        t := h.value;
        l := Get(threads, t).waitlock;
      }
    }

    method RemoveDonationListWaitingLock(l: LockId)
      modifies this`threads
      ensures View() == SetThread(old(View()), current,
                          old(Me(View())).(donors := WithoutWaitersFor(old(threads), old(Me(View())).donors, l)))
    {
      var q := Get(threads, current).donors;
      var kept: seq<Tid> := [];
      for i := 0 to |q|
        invariant kept + WithoutWaitersFor(threads, q[i..], l) == WithoutWaitersFor(threads, q, l)
      {
        assert q[i..] == [q[i]] + q[i + 1..];
        if Get(threads, q[i]).waitlock != Some(l) { kept := kept + [q[i]]; }
      }
      assert kept == WithoutWaitersFor(threads, q, l);
      threads := threads[current := Get(threads, current).(donors := kept)];
    }

    method PriorityCheckFromDonationList()
      modifies this`threads
      ensures View() == CheckDonors(old(View()))
    {
      var me := Get(threads, current);
      threads := threads[current := me.(priority := me.initialPriority)];
      if me.donors == [] { return; }
      var p := Get(threads, me.donors[0]).priority;
      if p > me.initialPriority {
        threads := threads[current := me.(priority := p)];
      }
    }

    // ----- the ready list -----

    method Schedule()
      modifies this`threads, this`ready, this`current, this`sliceTicks
      ensures View() == Dispatch(old(View()))
    {
      var next := idle;
      if ready != [] { next, ready := ready[0], ready[1..]; }
      threads := threads[next := Get(threads, next).(status := Running)];
      current, sliceTicks := next, 0;
    }

    method ThreadUnblock(t: Tid)
      modifies this`threads, this`ready
      ensures View() == Unblock(old(View()), t)
    {
      ready := ListInsertOrdered(ready, t);
      threads := threads[t := Get(threads, t).(status := Ready)];
    }

    method ThreadYield()
      modifies this`threads, this`ready, this`current, this`sliceTicks
      ensures View() == Yield(old(View()))
    {
      if current != idle { ready := ListInsertOrdered(ready, current); }
      threads := threads[current := Get(threads, current).(status := Ready)];
      Schedule();
    }

    method YieldToHighest()
      modifies this`threads, this`ready, this`current, this`sliceTicks
      ensures View() == YieldIfOutranked(old(View()))
    {
      if ready == [] { return; }
      if Get(threads, current).priority < Get(threads, ready[0]).priority { ThreadYield(); }
    }

    // ----- semaphores -----

    /** One pass of the loop of sema_down, up to its call of thread_block. */
    method SemaPass(r: SemaRef)
      modifies this
      ensures View() == DownOnce(old(View()), r)
    {
      var sema := if r in semas then semas[r] else Sema(0, []);
      if sema.value == 0 {
        PriorityDonationSolve();
        var q := ListInsertOrdered(sema.waiters, current);
        semas := semas[r := sema.(waiters := q)];
        threads := threads[current := Get(threads, current).(status := Blocked)];
        Schedule();
      } else {
        semas := semas[r := sema.(value := sema.value - 1)];
        threads := threads[current := Get(threads, current).(doing := User)];
        if r.OfLock? {
          threads := threads[current := Get(threads, current).(waitlock := None)];
          holder := holder[r.lock := Some(current)];
        }
      }
    }

    method SemaDown(id: nat)
      modifies this
      ensures View() == Apply(old(View()), Down(id))
    {
      threads := threads[current := Get(threads, current).(doing := Downing(Plain(id)))];
      SemaPass(Plain(id));
    }

    /** sema_up up to its yield. */
    method SemaRaise(r: SemaRef) returns (ghost sorted: seq<Tid>)
      modifies this`threads, this`semas, this`ready
      ensures IsSortOf(old(threads), sorted, old(SemaOf(View(), r).waiters))
      ensures View() == Raise(old(View()), r, sorted)
    {
      var sema := if r in semas then semas[r] else Sema(0, []);
      if sema.waiters == [] {
        sorted := [];
        semas := semas[r := Sema(sema.value + 1, [])];
      } else {
        var q := ListSort(sema.waiters);
        sorted := q;
        assert |q| == |multiset(q)| == |multiset(sema.waiters)|;
        semas := semas[r := Sema(sema.value + 1, q[1..])];
        ThreadUnblock(q[0]);
      }
    }

    method SemaUp(id: nat) returns (ghost sorted: seq<Tid>)
      modifies this
      ensures IsSortOf(old(threads), sorted, old(SemaOf(View(), Plain(id)).waiters))
      ensures View() == Apply(old(View()), Up(id, sorted))
    {
      sorted := SemaRaise(Plain(id));
      YieldToHighest();
    }

    // ----- locks -----

    /** lock_acquire up to where it returns or blocks; addr gives the pages of the threads. */
    method LockAcquire(l: LockId, addr: Tid -> int) returns (ghost at: nat)
      modifies this
      ensures View() == Apply(old(View()), Acquire(l, at))
      ensures HolderOf(old(holder), l).Some? ==> IsPlaceAmong(addr, old(threads), old(Get(threads, HolderOf(holder, l).value).donors), old(current), at)
    {
      at := 0;
      threads := threads[current := Get(threads, current).(doing := Downing(OfLock(l)))];
      var h := HolderOf(holder, l);
      if h.Some? {
        threads := threads[current := Get(threads, current).(waitlock := Some(l))];
        var th := Get(threads, h.value);
        var i := 0;
        while i < |th.donors| && !(ComparedWord(addr, threads, current) > ComparedWord(addr, threads, th.donors[i]))
          invariant i <= |th.donors|
          invariant forall j | 0 <= j < i :: ComparedWord(addr, threads, current) <= ComparedWord(addr, threads, th.donors[j])
        {
          i := i + 1;
        }
        at := i;
        SameWords(addr, old(threads), threads);
        threads := threads[h.value := th.(donors := th.donors[..i] + [current] + th.donors[i..])];
      }
      SemaPass(OfLock(l));
    }

    method LockTryAcquire(l: LockId) returns (success: bool)
      modifies this
      ensures View() == Apply(old(View()), TryAcquire(l))
      ensures success <==> old(SemaOf(View(), OfLock(l)).value) > 0
    {
      success := OfLock(l) in semas && semas[OfLock(l)].value > 0;
      if success {
        semas := semas[OfLock(l) := semas[OfLock(l)].(value := semas[OfLock(l)].value - 1)];
        threads := threads[current := Get(threads, current).(doing := User, waitlock := None)];
        holder := holder[l := Some(current)];
      }
    }

    method LockRelease(l: LockId) returns (ghost sorted: seq<Tid>)
      modifies this
      ensures IsSortOf(CheckDonors(DropDonors(old(View()), l)).threads, sorted, old(SemaOf(View(), OfLock(l)).waiters))
      ensures View() == Apply(old(View()), Release(l, sorted))
    {
      hide CheckDonors, Raise, YieldIfOutranked, WithoutWaitersFor, SortedByPriority;
      holder := holder[l := None];
      RemoveDonationListWaitingLock(l);
      PriorityCheckFromDonationList();
      sorted := SemaRaise(OfLock(l));
      YieldToHighest();
    }

    method ThreadSetPriority(p: int)
      modifies this
      ensures View() == Apply(old(View()), ChangePriority(p))
    {
      var stored := Get(threads, current).priority;
      threads := threads[current := Get(threads, current).(initialPriority := p)];
      PriorityCheckFromDonationList();
      if stored < Get(threads, current).priority {
        PriorityDonationSolve();
      } else if stored > Get(threads, current).priority {
        YieldToHighest();
      }
    }

    // ----- time -----

    method TimerSleep(ticks: int)
      modifies this
      ensures View() == Apply(old(View()), SleepFor(ticks))
    {
      hide Dispatch, InsertByWakeTime;
      if ticks <= 0 { return; }
      threads := threads[current := Get(threads, current).(doing := Sleeping(now + ticks))];
      var i := 0;
      while i < |sleepers| && !(WakeTime(threads, current) < WakeTime(threads, sleepers[i]))
        invariant i <= |sleepers| && forall j | 0 <= j < i :: WakeTime(threads, current) >= WakeTime(threads, sleepers[j])
      {
        i := i + 1;
      }
      InsertByWakeTimeAt(threads, sleepers, current, i);
      sleepers := sleepers[..i] + [current] + sleepers[i..];
      threads := threads[current := Get(threads, current).(status := Blocked)];
      Schedule();
    }

    /** The wake loop of timer_interrupt. */
    method WakeSleepers()
      modifies this`threads, this`sleepers, this`ready
      ensures View() == WakeDue(old(View()))
    {
      while sleepers != [] && now >= WakeTime(threads, sleepers[0])
        invariant WakeDue(View()) == WakeDue(old(View()))
        invariant View() == old(View()).(threads := threads, sleepers := sleepers, ready := ready)
        decreases |sleepers|
      {
        var t := sleepers[0];
        sleepers := sleepers[1..];
        ThreadUnblock(t);
      }
    }

    method TimerInterrupt()
      modifies this
      ensures View() == Apply(old(View()), TimerTick)
    {
      now := now + 1;
      WakeSleepers();
      if ready == [] { return; }
      sliceTicks := sliceTicks + 1;
      var mine, best := Get(threads, current).priority, Get(threads, ready[0]).priority;
      if mine < best || (sliceTicks >= TIME_SLICE && mine == best) { ThreadYield(); }
    }
  }
}
