/** What every step of the scheduler keeps, and its consequences for whole runs. */
module SchedulerInvariants {
  import opened Machine
  import opened Scheduler

  /** No thread occurs twice. */
  ghost predicate NoDup(q: seq<Tid>) {
    forall t :: multiset(q)[t] <= 1
  }

  // ----- the invariants -----

  /** Every thread other than `running` is in exactly the place its status says: a ready
      thread on the ready list, a blocked one among the waiters of the semaphore it is
      downing or on the sleep list. The thread `running` (if any) is on none of them. */
  ghost predicate Placed(s: State, running: Option<Tid>) {
    ListsOk(s) && MembersOk(s, running) && StatusesOk(s, running)
  }

  ghost predicate ListsOk(s: State) {
    NoDup(s.ready) && NoDup(s.sleepers) && forall r | r in s.semas :: NoDup(s.semas[r].waiters)
  }

  ghost predicate MembersOk(s: State, running: Option<Tid>) {
    && (forall t | t in s.ready :: IsQueued(s, running, t) && s.threads[t].status == Ready)
    && (forall t | t in s.sleepers :: IsQueued(s, running, t) && s.threads[t].status == Blocked && s.threads[t].doing.Sleeping?)
    && (forall r | r in s.semas :: WaitersOk(s, running, r))
  }

  ghost predicate WaitersOk(s: State, running: Option<Tid>, r: SemaRef)
    requires r in s.semas
  {
    forall t | t in s.semas[r].waiters ::
      IsQueued(s, running, t) && s.threads[t].status == Blocked && s.threads[t].doing == Downing(r)
  }

  ghost predicate StatusesOk(s: State, running: Option<Tid>) {
    && (forall t | t in s.threads && t != s.idle && running != Some(t) :: IsPlaced(s, t))
    && s.idle in s.threads && s.threads[s.idle].doing == User
    && (running != Some(s.idle) ==> s.threads[s.idle].status != Running)
    && (running.Some? ==> running.value in s.threads)
  }

  ghost predicate IsQueued(s: State, running: Option<Tid>, t: Tid) {
    t in s.threads && t != s.idle && running != Some(t)
  }

  ghost predicate IsPlaced(s: State, t: Tid)
    requires t in s.threads
  {
    var th := s.threads[t];
    match th.status
    case Running => false
    case Ready => t in s.ready
    case Blocked =>
      || (th.doing.Downing? && th.doing.sema in s.semas && t in s.semas[th.doing.sema].waiters)
      || (th.doing.Sleeping? && t in s.sleepers)
  }

  /** Mutual exclusion: a lock's semaphore is 0 or 1, and it is 1 exactly when nobody
      holds the lock. A thread never waits for a lock that it holds. In the middle of
      lock_release the lock `freeing` has lost its holder and not yet raised its semaphore. */
  ghost predicate LocksOk(s: State, freeing: Option<LockId>) {
    && (forall l :: l in s.holder <==> OfLock(l) in s.semas)
    && (forall l | l in s.holder && freeing != Some(l) :: LockOk(s, l))
    && (freeing.Some? ==> HolderOf(s.holder, freeing.value) == None && SemaOf(s, OfLock(freeing.value)).value == 0)
    && (forall t | t in s.threads :: ActivityOk(s, t))
  }

  ghost predicate LockOk(s: State, l: LockId)
    requires l in s.holder
  {
    && SemaOf(s, OfLock(l)).value <= 1
    && (s.holder[l] == None <==> SemaOf(s, OfLock(l)).value == 1)
    && (s.holder[l].Some? ==> s.holder[l].value in s.threads && s.holder[l].value != s.idle)
  }

  ghost predicate ActivityOk(s: State, t: Tid)
    requires t in s.threads
  {
    match s.threads[t].doing
    case Downing(r) => r in s.semas && (r.OfLock? ==> HolderOf(s.holder, r.lock) != Some(t))
    case _ => true
  }

  /** The donation list of h holds threads that are still inside lock_acquire on a lock
      that h holds, each once. */
  ghost predicate DonorsOk(s: State) {
    && (forall h | h in s.threads :: NoDup(s.threads[h].donors))
    && (forall h, t | h in s.threads && t in s.threads[h].donors :: IsDonor(s, h, t))
    && (forall t | t in s.threads :: WaitlockOk(s.threads[t]))
  }

  ghost predicate IsDonor(s: State, h: Tid, t: Tid) {
    t in s.threads && s.threads[t].waitlock.Some? && HolderOf(s.holder, s.threads[t].waitlock.value) == Some(h)
  }

  ghost predicate WaitlockOk(th: Thread) {
    th.waitlock.Some? ==> th.doing == Downing(OfLock(th.waitlock.value))
  }

  /** Donation only raises a priority, and only while the thread holds a lock. */
  ghost predicate PrioritiesOk(s: State) {
    forall t | t in s.threads :: PriorityOk(s, t)
  }

  ghost predicate PriorityOk(s: State, t: Tid)
    requires t in s.threads
  {
    && s.threads[t].priority >= s.threads[t].initialPriority
    && (!Holds(s, t) ==> s.threads[t].priority == s.threads[t].initialPriority)
  }

  /** The threads that were woken from r and have not tested it again. */
  ghost function Woken(s: State, r: SemaRef): set<Tid> {
    set t | t in s.threads && s.threads[t].doing == Downing(r) && t !in SemaOf(s, r).waiters
  }

  /** No lost wakeup: while threads sleep on r, every unit of its value is claimed by a
      thread that was woken for it. */
  ghost predicate WakeupsOk(s: State) {
    forall r | r in s.semas && s.semas[r].waiters != [] :: s.semas[r].value <= |Woken(s, r)|
  }

  ghost predicate Inv(s: State) {
    Placed(s, Some(s.current)) && Me(s).status == Running && Rest(s)
  }

  /** The invariants that do not speak of places. */
  ghost predicate Rest(s: State) {
    LocksOk(s, None) && DonorsOk(s) && PrioritiesOk(s) && WakeupsOk(s)
  }

  // ----- lists -----

  lemma OneMore(r: seq<Tid>, q: seq<Tid>, t: Tid)
    requires multiset(r) == multiset(q) + multiset{t}
    ensures forall x :: x in r <==> x in q || x == t
    ensures NoDup(q) && t !in q ==> NoDup(r)
  {
    assert forall x :: x in r <==> x in multiset(r);
  }

  lemma {:induction false} InsertOrderedContents(threads: map<Tid, Thread>, q: seq<Tid>, t: Tid)
    ensures multiset(InsertOrdered(threads, q, t)) == multiset(q) + multiset{t}
    ensures forall x :: x in InsertOrdered(threads, q, t) <==> x in q || x == t
    ensures NoDup(q) && t !in q ==> NoDup(InsertOrdered(threads, q, t))
  {
    if q != [] && !(Get(threads, t).priority > Get(threads, q[0]).priority) {
      InsertOrderedContents(threads, q[1..], t);
      assert q == [q[0]] + q[1..];
    }
    OneMore(InsertOrdered(threads, q, t), q, t);
  }

  lemma PopFrontContents(q: seq<Tid>)
    requires q != []
    ensures multiset(q) == multiset{q[0]} + multiset(q[1..])
    ensures NoDup(q) ==> NoDup(q[1..]) && q[0] !in q[1..]
    ensures forall x :: x in q <==> x in q[1..] || x == q[0]
  {
    assert q == [q[0]] + q[1..];
    assert forall x :: x in q[1..] <==> x in multiset(q[1..]);
    if NoDup(q) {
      forall t ensures multiset(q[1..])[t] <= 1 { assert multiset(q)[t] <= 1; }
      assert multiset(q)[q[0]] <= 1;
    }
  }

  /** Insertion keeps an ordered list ordered, and puts the new thread behind every thread
      of the same priority. */
  lemma {:induction false} InsertOrderedSorted(threads: map<Tid, Thread>, q: seq<Tid>, t: Tid)
    requires SortedByPriority(threads, q)
    ensures SortedByPriority(threads, InsertOrdered(threads, q, t))
  {
    if q != [] && !(Get(threads, t).priority > Get(threads, q[0]).priority) {
      InsertOrderedSorted(threads, q[1..], t);
      InsertOrderedContents(threads, q[1..], t);
      var r := InsertOrdered(threads, q[1..], t);
      forall j | 0 <= j < |r| ensures Get(threads, q[0]).priority >= Get(threads, r[j]).priority {
        assert r[j] in q[1..] || r[j] == t;
        if r[j] in q[1..] { var k :| 0 <= k < |q[1..]| && q[1..][k] == r[j]; assert q[k + 1] == r[j]; }
      }
    }
  }

  /** Position i of q is behind every thread in front of it that is not lower, and in front of a lower one. */
  ghost predicate IsPlace(threads: map<Tid, Thread>, q: seq<Tid>, t: Tid, i: nat) {
    && i <= |q| && (forall j | 0 <= j < i :: Get(threads, q[j]).priority >= Get(threads, t).priority)
    && (i < |q| ==> Get(threads, q[i]).priority < Get(threads, t).priority)
  }

  /** The new thread goes exactly there: threads of equal priority are served in the order of arrival. */
  lemma {:induction false} InsertOrderedPlace(threads: map<Tid, Thread>, q: seq<Tid>, t: Tid, i: nat)
    requires IsPlace(threads, q, t, i)
    ensures InsertOrdered(threads, q, t) == q[..i] + [t] + q[i..]
  {
    if i > 0 {
      forall j | 0 <= j < i - 1 ensures Get(threads, q[1..][j]).priority >= Get(threads, t).priority { assert q[1..][j] == q[j + 1]; }
      InsertOrderedPlace(threads, q[1..], t, i - 1);
    }
  }

  // ----- placement -----

  /** Placement depends only on status and activity. */
  ghost predicate SamePlaces(a: map<Tid, Thread>, b: map<Tid, Thread>) {
    && a.Keys == b.Keys
    && forall t | t in a :: a[t].status == b[t].status && a[t].doing == b[t].doing
  }

  lemma PlacedFrame(s: State, s': State, running: Option<Tid>)
    requires Placed(s, running) && SamePlaces(s.threads, s'.threads)
    requires s'.ready == s.ready && s'.sleepers == s.sleepers && s'.idle == s.idle
    requires s'.semas.Keys == s.semas.Keys && forall r | r in s.semas :: s'.semas[r].waiters == s.semas[r].waiters
    ensures Placed(s', running)
  {
    forall t | t in s'.threads && t != s'.idle && running != Some(t) ensures IsPlaced(s', t) {
      assert IsPlaced(s, t);
    }
    forall r | r in s'.semas ensures WaitersOk(s', running, r) { assert WaitersOk(s, running, r); }
  }

  /** The running thread may change anything about itself but its place. */
  lemma PlacedSelf(s: State, th: Thread)
    requires Placed(s, Some(s.current)) && (s.current == s.idle ==> th.doing == User)
    ensures Placed(SetThread(s, s.current, th), Some(s.current))
  {
  }

  lemma EnterPlaced(s: State, a: Activity)
    requires Placed(s, Some(s.current)) && (s.current == s.idle ==> a == User)
    ensures var s' := Enter(s, a);
            && Placed(s', Some(s'.current)) && Me(s') == Me(s).(doing := a)
            && s'.current == s.current && s'.idle == s.idle
  {
    PlacedSelf(s, Me(s).(doing := a));
  }

  lemma ParkPlaced(s: State, r: SemaRef)
    requires Placed(s, Some(s.current)) && s.current != s.idle
    requires r in s.semas && Me(s).doing == Downing(r)
    ensures Placed(ParkOn(s, r), None)
  {
    InsertOrderedContents(s.threads, s.semas[r].waiters, s.current);
    var s' := ParkOn(s, r);
    assert WaitersOk(s, Some(s.current), r);
    assert ListsOk(s');
    forall t | t in s'.threads && t != s'.idle ensures IsPlaced(s', t) {
      if t != s.current { assert IsPlaced(s, t); }
    }
    forall q | q in s'.semas ensures WaitersOk(s', None, q) { assert WaitersOk(s, Some(s.current), q); }
  }

  lemma DispatchPlaced(s: State)
    requires Placed(s, None)
    ensures Placed(Dispatch(s), Some(Dispatch(s).current)) && Me(Dispatch(s)).status == Running
  {
    var s' := Dispatch(s);
    if s.ready != [] { PopFrontContents(s.ready); }
    forall t | t in s'.threads && t != s'.idle && s'.current != t ensures IsPlaced(s', t) {
      assert IsPlaced(s, t);
    }
  }

  lemma SortContents(threads: map<Tid, Thread>, sorted: seq<Tid>, q: seq<Tid>)
    requires IsSortOf(threads, sorted, q)
    ensures (sorted == [] <==> q == []) && (NoDup(q) ==> NoDup(sorted))
    ensures forall x :: x in sorted <==> x in q
  {
    assert |sorted| == |multiset(sorted)| && |q| == |multiset(q)|;
    assert forall x :: x in sorted <==> x in multiset(sorted);
    assert forall x :: x in q <==> x in multiset(q);
  }

  lemma RaisePlaced(s: State, r: SemaRef, sorted: seq<Tid>)
    requires Placed(s, Some(s.current)) && r in s.semas
    requires IsSortOf(s.threads, sorted, s.semas[r].waiters)
    ensures Placed(Raise(s, r, sorted), Some(s.current))
    ensures Raise(s, r, sorted).current == s.current && Me(Raise(s, r, sorted)) == Me(s)
  {
    SortContents(s.threads, sorted, s.semas[r].waiters);
    var s' := Raise(s, r, sorted);
    assert WaitersOk(s, Some(s.current), r);
    if sorted == [] {
      PlacedFrame(s, s', Some(s.current));
    } else {
      var w := sorted[0];
      PopFrontContents(sorted);
      InsertOrderedContents(s.threads, s.ready, w);
      assert w !in s.ready;
      assert ListsOk(s');
      forall q | q in s'.semas ensures WaitersOk(s', Some(s.current), q) {
        assert WaitersOk(s, Some(s.current), q);
      }
      forall t | t in s'.threads && t != s'.idle && t != s.current ensures IsPlaced(s', t) {
        assert IsPlaced(s, t);
      }
    }
  }

  lemma YieldPlaced(s: State)
    requires Placed(s, Some(s.current))
    ensures Placed(Yield(s), Some(Yield(s).current)) && Me(Yield(s)).status == Running
  {
    var s1 := if s.current == s.idle then s
              else s.(ready := InsertOrdered(s.threads, s.ready, s.current));
    var s2 := SetThread(s1, s1.current, Me(s1).(status := Ready));
    InsertOrderedContents(s.threads, s.ready, s.current);
    forall q | q in s2.semas ensures WaitersOk(s2, None, q) { assert WaitersOk(s, Some(s.current), q); }
    forall t | t in s2.threads && t != s2.idle ensures IsPlaced(s2, t) {
      if t != s.current { assert IsPlaced(s, t); }
    }
    DispatchPlaced(s2);
  }

  lemma {:induction false} InsertByWakeTimeContents(threads: map<Tid, Thread>, q: seq<Tid>, t: Tid)
    ensures multiset(InsertByWakeTime(threads, q, t)) == multiset(q) + multiset{t}
    ensures forall x :: x in InsertByWakeTime(threads, q, t) <==> x in q || x == t
    ensures NoDup(q) && t !in q ==> NoDup(InsertByWakeTime(threads, q, t))
  {
    if q != [] && !(WakeTime(threads, t) < WakeTime(threads, q[0])) {
      InsertByWakeTimeContents(threads, q[1..], t);
      assert q == [q[0]] + q[1..];
    }
    OneMore(InsertByWakeTime(threads, q, t), q, t);
  }

  lemma DozePlaced(s: State)
    requires Placed(s, Some(s.current)) && s.current != s.idle && Me(s).doing.Sleeping?
    ensures Placed(Doze(s), None)
  {
    var s' := Doze(s);
    InsertByWakeTimeContents(s.threads, s.sleepers, s.current);
    forall q | q in s'.semas ensures WaitersOk(s', None, q) { assert WaitersOk(s, Some(s.current), q); }
    forall t | t in s'.threads && t != s'.idle ensures IsPlaced(s', t) {
      if t != s.current { assert IsPlaced(s, t); }
    }
  }

  lemma WakeFirstPlaced(s: State)
    requires Placed(s, Some(s.current)) && s.sleepers != []
    ensures var s' := Unblock(s.(sleepers := s.sleepers[1..]), s.sleepers[0]);
            Placed(s', Some(s.current)) && Me(s') == Me(s)
  {
    var w := s.sleepers[0];
    var s' := Unblock(s.(sleepers := s.sleepers[1..]), w);
    PopFrontContents(s.sleepers);
    InsertOrderedContents(s.threads, s.ready, w);
    assert w !in s.ready;
    forall q | q in s'.semas ensures WaitersOk(s', Some(s.current), q) {
      assert WaitersOk(s, Some(s.current), q);
    }
    forall t | t in s'.threads && t != s'.idle && t != s.current ensures IsPlaced(s', t) {
      assert IsPlaced(s, t);
    }
  }

  lemma CreatePlaced(s: State, t: Tid, p: int)
    requires Placed(s, Some(s.current)) && t !in s.threads
    ensures var s' := Unblock(SetThread(s, t, Thread(Blocked, p, p, None, [], User)), t);
            Placed(s', Some(s.current)) && Me(s') == Me(s)
  {
    var s1 := SetThread(s, t, Thread(Blocked, p, p, None, [], User));
    var s' := Unblock(s1, t);
    assert t !in s.ready;
    InsertOrderedContents(s1.threads, s.ready, t);
    forall q | q in s'.semas ensures WaitersOk(s', Some(s.current), q) {
      assert WaitersOk(s, Some(s.current), q);
    }
    forall u | u in s'.threads && u != s'.idle && u != s.current ensures IsPlaced(s', u) {
      if u != t { assert IsPlaced(s, u); }
    }
  }

  lemma ExitPlaced(s: State)
    requires Placed(s, Some(s.current)) && s.current != s.idle
    ensures Placed(s.(threads := s.threads - {s.current}), None)
  {
    var s' := s.(threads := s.threads - {s.current});
    forall q | q in s'.semas ensures WaitersOk(s', None, q) { assert WaitersOk(s, Some(s.current), q); }
    forall u | u in s'.threads && u != s'.idle ensures IsPlaced(s', u) { assert IsPlaced(s, u); }
  }

  // ----- locks, donors, priorities and wakeups -----

  /** Nothing but statuses, priorities and the ready list changed. */
  ghost predicate SameCore(s: State, s': State) {
    && s'.semas == s.semas && s'.holder == s.holder && s'.idle == s.idle
    && SameThreads(s.threads, s'.threads)
  }

  ghost predicate SameThreads(a: map<Tid, Thread>, b: map<Tid, Thread>) {
    && b.Keys == a.Keys
    && forall t | t in a :: b[t].doing == a[t].doing && b[t].waitlock == a[t].waitlock
                            && b[t].donors == a[t].donors && b[t].initialPriority == a[t].initialPriority
  }

  lemma CoreFrame(s: State, s': State, freeing: Option<LockId>)
    requires SameCore(s, s')
    ensures LocksOk(s, freeing) ==> LocksOk(s', freeing)
    ensures DonorsOk(s) ==> DonorsOk(s')
    ensures WakeupsOk(s) ==> WakeupsOk(s')
  {
    if LocksOk(s, freeing) {
      forall t | t in s'.threads ensures ActivityOk(s', t) { assert ActivityOk(s, t); }
      forall l | l in s'.holder && freeing != Some(l) ensures LockOk(s', l) { assert LockOk(s, l); }
    }
    if DonorsOk(s) {
      forall t | t in s'.threads ensures WaitlockOk(s'.threads[t]) { assert WaitlockOk(s.threads[t]); }
      forall h, t | h in s'.threads && t in s'.threads[h].donors ensures IsDonor(s', h, t) { assert IsDonor(s, h, t); }
    }
    forall r | r in s'.semas ensures Woken(s', r) == Woken(s, r) { }
  }

  /** Moving threads between the processor and the ready list keeps everything else. */
  lemma RestFrame(s: State, s': State)
    requires Rest(s) && SameCore(s, s')
    requires forall t | t in s.threads :: s'.threads[t].priority == s.threads[t].priority
    ensures Rest(s')
  {
    CoreFrame(s, s', None);
    forall t | t in s'.threads ensures PriorityOk(s', t) {
      assert PriorityOk(s, t);
      assert Holds(s', t) <==> Holds(s, t);
    }
  }

  /** Donation raises the priorities of lock holders to that of the donor, and changes
      nothing else. */
  lemma {:induction false} DonateEffect(threads: map<Tid, Thread>, holder: map<LockId, Option<Tid>>, t: Tid, n: nat)
    requires forall l | l in holder && holder[l].Some? :: holder[l].value in threads
    ensures var r := Donate(threads, holder, t, n);
            && r.Keys == threads.Keys
            && forall x | x in threads ::
                 || r[x] == threads[x]
                 || (&& r[x] == threads[x].(priority := Get(threads, t).priority)
                     && Get(threads, t).priority > threads[x].priority
                     && exists l :: l in holder && holder[l] == Some(x))
    decreases n
  {
    if n > 0 && Get(threads, t).waitlock.Some? {
      var l := Get(threads, t).waitlock.value;
      if HolderOf(holder, l).Some? {
        var h := HolderOf(holder, l).value;
        var mine := Get(threads, t).priority;
        if Get(threads, h).priority < mine {
          DonateEffect(threads[h := Get(threads, h).(priority := mine)], holder, h, n - 1);
          assert l in holder && holder[l] == Some(h);
        }
      }
    }
  }

  lemma RestDonate(s: State)
    requires Rest(s)
    ensures Rest(DonateFromCurrent(s)) && SamePlaces(s.threads, DonateFromCurrent(s).threads)
    ensures SameCore(s, DonateFromCurrent(s))
  {
    forall l | l in s.holder && s.holder[l].Some? ensures s.holder[l].value in s.threads { assert LockOk(s, l); }
    DonateEffect(s.threads, s.holder, s.current, DONATION_DEPTH);
    var s' := DonateFromCurrent(s);
    CoreFrame(s, s', None);
    forall t | t in s'.threads ensures PriorityOk(s', t) {
      assert PriorityOk(s, t);
      assert Holds(s', t) <==> Holds(s, t);
    }
  }

  lemma SubsetCard<T>(a: set<T>, b: set<T>)
    requires a <= b
    ensures |a| <= |b|
  {
    assert |b - a| >= 0 && b == a + (b - a);
  }

  lemma RestPark(s: State, r: SemaRef)
    requires Rest(s) && r in s.semas && s.semas[r].value == 0 && s.current in s.threads
    ensures Rest(ParkOn(s, r))
  {
    var s1 := SetThread(s, s.current, Me(s).(status := Blocked));
    RestFrame(s, s1);
    WaitersFrame(s1, ParkOn(s, r), r);
  }

  /** The waiters of a semaphore whose value is 0 may change freely. */
  lemma WaitersFrame(s: State, s': State, r: SemaRef)
    requires Rest(s) && r in s.semas && s.semas[r].value == 0
    requires s' == s.(semas := s'.semas) && s'.semas == s.semas[r := s.semas[r].(waiters := SemaOf(s', r).waiters)]
    ensures Rest(s')
  {
    forall t | t in s'.threads ensures ActivityOk(s', t) && PriorityOk(s', t) {
      assert ActivityOk(s, t) && PriorityOk(s, t);
      assert Holds(s', t) <==> Holds(s, t);
    }
    forall l | l in s'.holder ensures LockOk(s', l) { assert LockOk(s, l); }
    forall h, t | h in s'.threads && t in s'.threads[h].donors ensures IsDonor(s', h, t) { assert IsDonor(s, h, t); }
    forall q | q in s'.semas && s'.semas[q].waiters != [] ensures s'.semas[q].value <= |Woken(s', q)| {
      if q != r { assert Woken(s', q) == Woken(s, q); }
    }
  }

  /** Entering a primitive: the thread now counts as woken for the semaphore it tests. */
  lemma RestEnter(s: State, a: Activity)
    requires Rest(s) && s.current in s.threads && !Me(s).doing.Downing?
    requires a.Downing? ==> a.sema in s.semas && (a.sema.OfLock? ==> HolderOf(s.holder, a.sema.lock) != Some(s.current))
    ensures Rest(Enter(s, a)) && Me(Enter(s, a)) == Me(s).(doing := a) && Me(s).waitlock == None
  {
    var s' := Enter(s, a);
    assert WaitlockOk(Me(s));
    forall t | t in s'.threads ensures ActivityOk(s', t) && PriorityOk(s', t) && WaitlockOk(s'.threads[t]) {
      assert ActivityOk(s, t) && PriorityOk(s, t) && WaitlockOk(s.threads[t]);
      assert Holds(s', t) <==> Holds(s, t);
    }
    forall l | l in s'.holder ensures LockOk(s', l) { assert LockOk(s, l); }
    forall h, t | h in s'.threads && t in s'.threads[h].donors ensures IsDonor(s', h, t) { assert IsDonor(s, h, t); }
    forall q | q in s'.semas && s'.semas[q].waiters != [] ensures s'.semas[q].value <= |Woken(s', q)| {
      SubsetCard(Woken(s, q), Woken(s', q));
    }
  }

  /** A thread that waits for no lock is on no donation list. */
  lemma FreeIsNoDonor(s: State, t: Tid)
    requires DonorsOk(s) && t in s.threads && s.threads[t].waitlock == None
    ensures forall g | g in s.threads :: t !in s.threads[g].donors
  {
  }

  lemma InsertDonorContents(q: seq<Tid>, t: Tid, at: nat)
    ensures multiset(InsertDonor(q, t, at)) == multiset(q) + multiset{t}
    ensures forall x :: x in InsertDonor(q, t, at) <==> x in q || x == t
    ensures NoDup(q) && t !in q ==> NoDup(InsertDonor(q, t, at))
  {
    if at <= |q| { assert q == q[..at] + q[at..]; }
    OneMore(InsertDonor(q, t, at), q, t);
  }

  lemma RestRegister(s: State, l: LockId, at: nat)
    requires Rest(s) && s.current in s.threads && l in s.holder
    requires Me(s).doing == Downing(OfLock(l)) && Me(s).waitlock == None
    ensures Rest(Register(s, l, at)) && SamePlaces(s.threads, Register(s, l, at).threads)
    ensures s.holder[l] == None ==> Register(s, l, at) == s
  {
    hide LocksOk, PrioritiesOk, WakeupsOk, DonorsOk, InsertDonor;
    HolderIsAnother(s, l);
    if s.holder[l].Some? {
      var h := s.holder[l].value;
      RegisterShape(s, l, h, at);
      assert NoDup(s.threads[h].donors) by { DonorsDistinct(s, h); }
      hide NoDup, Register;
      InsertDonorContents(s.threads[h].donors, s.current, at);
      RegisteredDonors(s, Register(s, l, at), h, l, InsertDonor(s.threads[h].donors, s.current, at));
      RegisteredRest(s, Register(s, l, at));
    }
  }

  lemma DonorsDistinct(s: State, h: Tid)
    requires DonorsOk(s) && h in s.threads
    ensures NoDup(s.threads[h].donors)
  {
  }

  lemma HolderIsAnother(s: State, l: LockId)
    requires LocksOk(s, None) && s.current in s.threads && l in s.holder && Me(s).doing == Downing(OfLock(l))
    ensures s.holder[l].Some? ==> s.holder[l].value in s.threads && s.holder[l].value != s.current
  {
    assert LockOk(s, l) && ActivityOk(s, s.current);
  }

  lemma RegisterShape(s: State, l: LockId, h: Tid, at: nat)
    requires HolderOf(s.holder, l) == Some(h) && h in s.threads && h != s.current && s.current in s.threads
    ensures var waiting := s.threads[s.current := Me(s).(waitlock := Some(l))];
            Register(s, l, at) == s.(threads := waiting[h := s.threads[h].(donors := InsertDonor(s.threads[h].donors, s.current, at))])
  {
  }

  lemma RegisteredRest(s: State, s': State)
    requires LocksOk(s, None) && PrioritiesOk(s) && WakeupsOk(s)
    requires s' == s.(threads := s'.threads) && SamePlaces(s.threads, s'.threads)
    requires forall t | t in s.threads :: s'.threads[t].priority == s.threads[t].priority
    requires forall t | t in s.threads :: s'.threads[t].initialPriority == s.threads[t].initialPriority
    ensures LocksOk(s', None) && PrioritiesOk(s') && WakeupsOk(s')
  {
    forall t | t in s'.threads ensures ActivityOk(s', t) && PriorityOk(s', t) {
      assert ActivityOk(s, t) && PriorityOk(s, t);
      assert Holds(s', t) <==> Holds(s, t);
    }
    forall k | k in s'.holder ensures LockOk(s', k) { assert LockOk(s, k); }
    forall q | q in s'.semas ensures Woken(s', q) == Woken(s, q) { }
  }

  lemma RegisteredDonors(s: State, s': State, h: Tid, l: LockId, donors: seq<Tid>)
    requires DonorsOk(s) && s.current in s.threads && h in s.threads && h != s.current
    requires HolderOf(s.holder, l) == Some(h) && s'.holder == s.holder
    requires Me(s).doing == Downing(OfLock(l)) && Me(s).waitlock == None
    requires s'.threads == s.threads[s.current := Me(s).(waitlock := Some(l))][h := s.threads[h].(donors := donors)]
    requires forall x :: x in donors <==> x in s.threads[h].donors || x == s.current
    requires s.current !in s.threads[h].donors ==> NoDup(donors)
    ensures DonorsOk(s')
  {
    FreeIsNoDonor(s, s.current);
    forall t | t in s'.threads ensures WaitlockOk(s'.threads[t]) { assert WaitlockOk(s.threads[t]); }
    forall g, t | g in s'.threads && t in s'.threads[g].donors ensures IsDonor(s', g, t) {
      if t != s.current { assert IsDonor(s, g, t); }
    }
  }

  lemma RestGrant(s: State, r: SemaRef)
    requires Rest(s) && s.current in s.threads && s.current != s.idle && r in s.semas && s.semas[r].value > 0
    requires s.current !in s.semas[r].waiters
    requires Me(s).doing == User || Me(s).doing == Downing(r)
    ensures Rest(Grant(s, r))
  {
    var s' := Grant(s, r);
    if r.OfLock? { assert LockOk(s, r.lock); }
    GrantedLocks(s, s', r);
    GrantedDonors(s, s', r);
    GrantedWakeups(s, s', r);
    forall t | t in s'.threads ensures PriorityOk(s', t) {
      assert PriorityOk(s, t);
      if Holds(s, t) {
        var l :| l in s.holder && s.holder[l] == Some(t);
        assert l in s'.holder && s'.holder[l] == Some(t);
      }
    }
  }

  lemma GrantedLocks(s: State, s': State, r: SemaRef)
    requires LocksOk(s, None) && s.current in s.threads && s.current != s.idle && r in s.semas && s.semas[r].value > 0
    requires s' == Grant(s, r)
    ensures LocksOk(s', None)
  {
    forall l | l in s'.holder ensures LockOk(s', l) { assert LockOk(s, l); }
    forall t | t in s'.threads ensures ActivityOk(s', t) { assert ActivityOk(s, t); }
  }

  lemma GrantedDonors(s: State, s': State, r: SemaRef)
    requires DonorsOk(s) && LocksOk(s, None) && s.current in s.threads && r in s.semas && s.semas[r].value > 0
    requires Me(s).doing == User || Me(s).doing == Downing(r)
    requires s' == Grant(s, r)
    ensures DonorsOk(s')
  {
    if r.OfLock? { assert LockOk(s, r.lock); }
    assert WaitlockOk(Me(s));
    forall t | t in s'.threads ensures WaitlockOk(s'.threads[t]) { assert WaitlockOk(s.threads[t]); }
    forall g, t | g in s'.threads && t in s'.threads[g].donors ensures IsDonor(s', g, t) {
      assert IsDonor(s, g, t);
    }
  }

  lemma GrantedWakeups(s: State, s': State, r: SemaRef)
    requires WakeupsOk(s) && s.current in s.threads && r in s.semas && s.semas[r].value > 0
    requires s.current !in s.semas[r].waiters && (Me(s).doing == User || Me(s).doing == Downing(r))
    requires s' == Grant(s, r)
    ensures WakeupsOk(s')
  {
    if Me(s).doing == Downing(r) { assert Woken(s', r) == Woken(s, r) - {s.current}; }
    else { assert Woken(s', r) == Woken(s, r); }
    forall q | q in s'.semas && q != r ensures Woken(s', q) == Woken(s, q) { }
  }

  function Freeing(r: SemaRef): Option<LockId> {
    match r case OfLock(l) => Some(l) case Plain(_) => None
  }

  lemma RestRaise(s: State, r: SemaRef, sorted: seq<Tid>)
    requires LocksOk(s, Freeing(r)) && DonorsOk(s) && PrioritiesOk(s) && WakeupsOk(s)
    requires Placed(s, Some(s.current)) && r in s.semas && IsSortOf(s.threads, sorted, s.semas[r].waiters)
    requires r.OfLock? ==> r.lock in s.holder
    ensures Rest(Raise(s, r, sorted))
  {
    hide LocksOk, DonorsOk, PrioritiesOk, WakeupsOk;
    var q := s.semas[r].waiters;
    assert WaitersOk(s, Some(s.current), r) && NoDup(q);
    SortContents(s.threads, sorted, q);
    if sorted == [] {
      RaisedLocks(s, r, []);
      RaisedWakeups(s, r, []);
      RaisedOthers(s, r, []);
    } else {
      PopFrontContents(sorted);
      RaisedLocks(s, r, sorted[1..]);
      RaisedOneWoken(s, r, sorted[0], sorted[1..]);
      RaisedWakeups(s, r, sorted[1..]);
      RaisedOthers(s, r, sorted[1..]);
      RestFrame(WithSema(s, r, sorted[1..]), Raise(s, r, sorted));
    }
  }

  function WithSema(s: State, r: SemaRef, waiters: seq<Tid>): State {
    s.(semas := s.semas[r := Sema(SemaOf(s, r).value + 1, waiters)])
  }

  lemma RaisedLocks(s: State, r: SemaRef, rest: seq<Tid>)
    requires LocksOk(s, Freeing(r)) && r in s.semas && (r.OfLock? ==> r.lock in s.holder)
    ensures LocksOk(WithSema(s, r, rest), None)
  {
    var s' := WithSema(s, r, rest);
    forall l | l in s'.holder ensures LockOk(s', l) { if r != OfLock(l) { assert LockOk(s, l); } }
    forall t | t in s'.threads ensures ActivityOk(s', t) { assert ActivityOk(s, t); }
  }

  lemma RaisedOthers(s: State, r: SemaRef, rest: seq<Tid>)
    requires DonorsOk(s) && PrioritiesOk(s)
    ensures DonorsOk(WithSema(s, r, rest)) && PrioritiesOk(WithSema(s, r, rest))
  {
    var s' := WithSema(s, r, rest);
    forall t | t in s'.threads ensures PriorityOk(s', t) {
      assert PriorityOk(s, t);
      assert Holds(s', t) <==> Holds(s, t);
    }
    forall g, t | g in s'.threads && t in s'.threads[g].donors ensures IsDonor(s', g, t) { assert IsDonor(s, g, t); }
  }

  /** The thread taken from the waiters becomes a woken thread. */
  lemma RaisedOneWoken(s: State, r: SemaRef, w: Tid, rest: seq<Tid>)
    requires r in s.semas && w in s.threads && s.threads[w].doing == Downing(r) && w !in rest
    requires forall x :: x in s.semas[r].waiters <==> x in rest || x == w
    ensures |Woken(WithSema(s, r, rest), r)| == |Woken(s, r)| + 1
  {
    assert Woken(WithSema(s, r, rest), r) == Woken(s, r) + {w};
  }

  lemma RaisedWakeups(s: State, r: SemaRef, rest: seq<Tid>)
    requires WakeupsOk(s) && r in s.semas
    requires rest != [] ==> s.semas[r].waiters != [] && |Woken(WithSema(s, r, rest), r)| == |Woken(s, r)| + 1
    ensures WakeupsOk(WithSema(s, r, rest))
  {
    var s' := WithSema(s, r, rest);
    forall q | q in s'.semas && q != r ensures Woken(s', q) == Woken(s, q) { }
  }

  /** lock_release up to sema_up: the lock has no holder, the threads that wait for it
      have left the donation list, and the priority has been recomputed. */
  lemma RestDrop(s: State, l: LockId)
    requires Rest(s) && s.current in s.threads && l in s.holder && s.holder[l] == Some(s.current)
    ensures var s' := CheckDonors(DropDonors(s, l));
            && LocksOk(s', Some(l)) && DonorsOk(s') && PrioritiesOk(s') && WakeupsOk(s')
            && SamePlaces(s.threads, s'.threads)
  {
    hide LocksOk, DonorsOk, WakeupsOk;
    var s1 := DropDonors(s, l);
    DroppedLocks(s, l);
    DroppedDonors(s, l);
    DroppedOthers(s, l);
    RecheckedPriorities(s1);
    CoreFrame(s1, CheckDonors(s1), Some(l));
  }

  lemma DroppedOthers(s: State, l: LockId)
    requires PrioritiesOk(s) && WakeupsOk(s) && s.current in s.threads && l in s.holder && s.holder[l] == Some(s.current)
    ensures WakeupsOk(DropDonors(s, l)) && SamePlaces(s.threads, DropDonors(s, l).threads)
    ensures forall t | t in s.threads && t != s.current :: PriorityOk(DropDonors(s, l), t)
  {
    var s1 := DropDonors(s, l);
    forall q | q in s1.semas ensures Woken(s1, q) == Woken(s, q) { }
    forall t | t in s1.threads && t != s1.current ensures PriorityOk(s1, t) {
      assert PriorityOk(s, t);
      if Holds(s, t) {
        var k :| k in s.holder && s.holder[k] == Some(t);
        assert k in s1.holder && s1.holder[k] == Some(t);
      }
    }
  }

  lemma DroppedLocks(s: State, l: LockId)
    requires LocksOk(s, None) && s.current in s.threads && l in s.holder && s.holder[l] == Some(s.current)
    ensures LocksOk(DropDonors(s, l), Some(l))
  {
    var s' := DropDonors(s, l);
    assert LockOk(s, l);
    forall k | k in s'.holder && k != l ensures LockOk(s', k) { assert LockOk(s, k); }
    forall t | t in s'.threads ensures ActivityOk(s', t) { assert ActivityOk(s, t); }
  }

  lemma {:induction false} WithoutWaitersContents(threads: map<Tid, Thread>, q: seq<Tid>, l: LockId)
    ensures multiset(WithoutWaitersFor(threads, q, l)) <= multiset(q)
    ensures forall x :: x in WithoutWaitersFor(threads, q, l) <==> x in q && Get(threads, x).waitlock != Some(l)
  {
    if q != [] {
      WithoutWaitersContents(threads, q[1..], l);
      assert q == [q[0]] + q[1..];
    }
  }

  lemma DroppedDonors(s: State, l: LockId)
    requires DonorsOk(s) && s.current in s.threads && l in s.holder && s.holder[l] == Some(s.current)
    ensures DonorsOk(DropDonors(s, l))
  {
    var s' := DropDonors(s, l);
    WithoutWaitersContents(s.threads, Me(s).donors, l);
    assert forall x :: multiset(Me(s').donors)[x] <= multiset(Me(s).donors)[x];
    forall t | t in s'.threads ensures WaitlockOk(s'.threads[t]) { assert WaitlockOk(s.threads[t]); }
    forall g, t | g in s'.threads && t in s'.threads[g].donors ensures IsDonor(s', g, t) {
      assert t in s.threads[g].donors;
      assert IsDonor(s, g, t);
    }
  }

  /** priority_check_from_donation_list puts a thread that holds no lock back at its base
      priority, because its donation list is then empty. */
  lemma RecheckedPriorities(s: State)
    requires DonorsOk(s) && s.current in s.threads
    requires forall t | t in s.threads && t != s.current :: PriorityOk(s, t)
    ensures PrioritiesOk(CheckDonors(s)) && SameCore(s, CheckDonors(s)) && SamePlaces(s.threads, CheckDonors(s).threads)
  {
    var s' := CheckDonors(s);
    if Me(s).donors != [] {
      var d := Me(s).donors[0];
      assert d in Me(s).donors && IsDonor(s, s.current, d);
      assert Holds(s, s.current);
    }
    forall t | t in s'.threads ensures PriorityOk(s', t) {
      assert Holds(s', t) <==> Holds(s, t);
      if t != s.current { assert PriorityOk(s, t); }
    }
  }

  lemma RestCreate(s: State, t: Tid, p: int)
    requires Rest(s) && t !in s.threads
    ensures Rest(SetThread(s, t, Thread(Blocked, p, p, None, [], User)))
  {
    var s' := SetThread(s, t, Thread(Blocked, p, p, None, [], User));
    forall u | u in s'.threads ensures ActivityOk(s', u) && PriorityOk(s', u) && WaitlockOk(s'.threads[u]) {
      if u != t {
        assert ActivityOk(s, u) && PriorityOk(s, u) && WaitlockOk(s.threads[u]);
        assert Holds(s', u) <==> Holds(s, u);
      }
    }
    forall l | l in s'.holder ensures LockOk(s', l) { assert LockOk(s, l); }
    forall g, u | g in s'.threads && u in s'.threads[g].donors ensures IsDonor(s', g, u) { assert IsDonor(s, g, u); }
    forall q | q in s'.semas ensures Woken(s', q) == Woken(s, q) { }
  }

  lemma RestExit(s: State)
    requires Rest(s) && s.current in s.threads && !Holds(s, s.current) && Me(s).doing == User
    ensures Rest(s.(threads := s.threads - {s.current}))
  {
    var s' := s.(threads := s.threads - {s.current});
    assert WaitlockOk(Me(s));
    FreeIsNoDonor(s, s.current);
    forall u | u in s'.threads ensures ActivityOk(s', u) && PriorityOk(s', u) && WaitlockOk(s'.threads[u]) {
      assert ActivityOk(s, u) && PriorityOk(s, u) && WaitlockOk(s.threads[u]);
      assert Holds(s', u) <==> Holds(s, u);
    }
    forall l | l in s'.holder ensures LockOk(s', l) { assert LockOk(s, l); }
    forall g, u | g in s'.threads && u in s'.threads[g].donors ensures IsDonor(s', g, u) { assert IsDonor(s, g, u); }
    forall q | q in s'.semas ensures Woken(s', q) == Woken(s, q) { }
  }
}
