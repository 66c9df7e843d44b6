/** 17.14 fixed-point arithmetic on 32-bit words (Project 2/src/threads/fixed-point.h). Every
    result is cut to 32 bits as the C code would; one is 16384. */
module FixedPoint {
  import opened Machine

  function IntegerToFloat(n: int): int { S32(n * 16384) }

  function FloatToInt(x: int): int { TruncDiv(x, 16384) }

  function FloatToIntRound(x: int): int {
    if x >= 0 then TruncDiv(S32(x + 8192), 16384) else TruncDiv(S32(x - 8192), 16384)
  }

  function AddI(x: int, y: int): int { S32(x + y) }
  function SubI(x: int, y: int): int { S32(x - y) }
  function AddMixed(x: int, n: int): int { S32(x + IntegerToFloat(n)) }
  function SubMixed(x: int, n: int): int { S32(x - IntegerToFloat(n)) }
  function MultiplyMixed(x: int, n: int): int { S32(x * n) }
  function DivisionMixed(x: int, n: int): int
    requires n != 0
  {
    TruncDiv(x, n)
  }

  /** The product and the scaled dividend are 64 bits wide before the division. */
  function MultiplyFloat(x: int, y: int): int { S32(TruncDiv(S64(x * y), 16384)) }
  function DivisionFloat(x: int, y: int): int
    requires y != 0
  {
    S32(TruncDiv(S64(x * 16384), y))
  }
}

/** The multi-level feedback queue scheduler's once-per-second recurrences
    (Project 2/src/threads/thread.c, driven by timer_interrupt in
    Project 2/src/devices/timer.c). */
module Mlfqs {
  import opened Machine
  import opened Nonlinear
  import opened FixedPoint

  type Tid = nat

  const PRI_MIN := 0
  const PRI_MAX := 63

  datatype Thread = Thread(nice: int, recentCpu: int, priority: int)
  datatype State = State(ticks: int, loadAvg: int, threads: map<Tid, Thread>, idle: Tid)

  // ----- the recurrences -----

  function PriorityOf(th: Thread): int {
    var p := FloatToInt(SubMixed(SubI(IntegerToFloat(PRI_MAX), DivisionMixed(th.recentCpu, 4)), S32(2 * th.nice)));
    if p < PRI_MIN then PRI_MIN else if p > PRI_MAX then PRI_MAX else p
  }

  function Decay(loadAvg: int): int
    requires AddMixed(MultiplyMixed(loadAvg, 2), 1) != 0
  {
    DivisionFloat(MultiplyMixed(loadAvg, 2), AddMixed(MultiplyMixed(loadAvg, 2), 1))
  }

  function RecentCpuOf(loadAvg: int, th: Thread): int
    requires AddMixed(MultiplyMixed(loadAvg, 2), 1) != 0
  {
    AddMixed(MultiplyFloat(Decay(loadAvg), th.recentCpu), th.nice)
  }

  function LoadAvgOf(loadAvg: int, running: int): int {
    AddI(MultiplyFloat(DivisionMixed(IntegerToFloat(59), 60), loadAvg), DivisionMixed(IntegerToFloat(running), 60))
  }

  // ----- what the invariant says -----

  /** With at most n runnable threads: the load average is at most n, and recent_cpu stays
      between -20 (2n + 1) and 240 n + 20, plus one for each tick of the current second. */
  ghost predicate ThreadOk(n: nat, phase: int, th: Thread) {
    && -20 <= th.nice <= 20
    && -20 * (2 * n + 1) * 16384 <= th.recentCpu <= (240 * n + 20 + phase) * 16384
    && PRI_MIN <= th.priority <= PRI_MAX
  }

  ghost predicate LoadOk(n: nat, loadAvg: int) { 0 <= loadAvg <= n * 16384 }

  ghost predicate Inv(n: nat, s: State) {
    && LoadOk(n, s.loadAvg)
    && forall t | t in s.threads && t != s.idle :: ThreadOk(n, s.ticks % 100, s.threads[t])
  }

  // ----- no overflow -----

  lemma TruncDivExact(x: int, d: int)
    requires d > 0
    ensures x >= 0 ==> TruncDiv(x, d) == x / d && 0 <= TruncDiv(x, d)
    ensures x <= 0 ==> TruncDiv(x, d) == -((-x) / d) && TruncDiv(x, d) <= 0
  {
    if x >= 0 { DivAtLeast(x, d, 0); } else { DivAtLeast(-x, d, 0); }
  }

  /** The load average recurrence in unbounded arithmetic. */
  lemma LoadAvgStep(n: nat, loadAvg: int, running: nat)
    requires n <= 545 && LoadOk(n, loadAvg) && running <= n
    ensures LoadAvgOf(loadAvg, running) == 16110 * loadAvg / 16384 + running * 16384 / 60
    ensures LoadOk(n, LoadAvgOf(loadAvg, running))
  {
    assert IntegerToFloat(59) == 966656 && DivisionMixed(966656, 60) == 16110;
    assert IntegerToFloat(running) == running * 16384;
    assert 0 <= 16110 * loadAvg < B63;
    assert MultiplyFloat(16110, loadAvg) == 16110 * loadAvg / 16384;
  }

  /** The decay factor is below one by enough to keep recent_cpu bounded. */
  lemma DecayStep(n: nat, loadAvg: int)
    requires n <= 545 && LoadOk(n, loadAvg)
    ensures AddMixed(MultiplyMixed(loadAvg, 2), 1) == 2 * loadAvg + 16384
    ensures Decay(loadAvg) == 2 * loadAvg * 16384 / (2 * loadAvg + 16384)
    ensures 0 <= Decay(loadAvg) <= 16384 && Decay(loadAvg) * (2 * n + 1) <= 2 * n * 16384
  {
    hide S32, S64;
    var x := 2 * loadAvg;
    assert MultiplyMixed(loadAvg, 2) == x && IntegerToFloat(1) == 16384 && AddMixed(x, 1) == x + 16384;
    DecayRange(n, x, x * 16384 / (x + 16384));
  }

  lemma DecayRange(n: nat, x: int, c: int)
    requires 0 <= x <= 2 * n * 16384 && c == x * 16384 / (x + 16384)
    ensures 0 <= c <= 16384 && c * (2 * n + 1) <= 2 * n * 16384
  {
    DivAtLeast(x * 16384, x + 16384, 0);
    DivLess(x * 16384, x + 16384, 16384 + 1);
    DivBounds(x * 16384, x + 16384);
    assert c * (x + 16384) == c * x + c * 16384;
    DecayBound(n, x, c);
  }

  lemma DecayBound(n: nat, x: int, c: int)
    requires 0 <= x <= 2 * n * 16384 && 0 <= c <= 16384
    requires c * x + c * 16384 <= x * 16384
    ensures c * (2 * n + 1) <= 2 * n * 16384
  {
    var e := 16384 - c;
    assert x * e == x * 16384 - c * x;
    MulMono(x, 2 * n * 16384, e);
    assert (2 * n * 16384) * e == 16384 * ((2 * n) * e);
    assert (2 * n) * e == 2 * n * 16384 - (2 * n) * c;
    assert c * (2 * n + 1) == (2 * n) * c + c;
  }

  /** The recent_cpu recurrence never overflows and keeps its bounds; the largest value it
      is applied to is 120 (2n + 1). */
  lemma RecentCpuStep(n: nat, loadAvg: int, th: Thread)
    requires n <= 545 && LoadOk(n, loadAvg) && ThreadOk(n, 100, th)
    ensures AddMixed(MultiplyMixed(loadAvg, 2), 1) != 0
    ensures RecentCpuOf(loadAvg, th) == TruncDiv(Decay(loadAvg) * th.recentCpu, 16384) + th.nice * 16384
    ensures -20 * (2 * n + 1) * 16384 <= RecentCpuOf(loadAvg, th) <= (240 * n + 20) * 16384
  {
    DecayStep(n, loadAvg);
    var c, rc := Decay(loadAvg), th.recentCpu;
    ProductBounds(n, c, rc);
    var q := TruncDiv(c * rc, 16384);
    assert IntegerToFloat(th.nice) == th.nice * 16384;
    assert S64(c * rc) == c * rc;
    assert -40 * n * 16384 <= q <= 240 * n * 16384;
  }

  lemma ProductBounds(n: nat, c: int, rc: int)
    requires n <= 545 && 0 <= c <= 16384 && c * (2 * n + 1) <= 2 * n * 16384
    requires -20 * (2 * n + 1) * 16384 <= rc <= 120 * (2 * n + 1) * 16384
    ensures -40 * n * 16384 * 16384 <= c * rc <= 240 * n * 16384 * 16384
    ensures -B63 <= c * rc < B63
  {
    var p := 2 * n + 1;
    MulMono(rc, 120 * p * 16384, c);
    MulMono(-20 * p * 16384, rc, c);
    assert (120 * p * 16384) * c == 120 * 16384 * (c * p);
    assert (-20 * p * 16384) * c == -20 * 16384 * (c * p);
    assert c * rc == rc * c;
  }

  // ----- priorities -----

  /** In the range the invariant allows, the priority is the fixed-point formula rounded
      toward zero and clamped. */
  lemma PriorityStep(n: nat, th: Thread)
    requires n <= 545 && -20 <= th.nice <= 20
    requires -20 * (2 * n + 1) * 16384 <= th.recentCpu <= 120 * (2 * n + 1) * 16384
    ensures var p := TruncDiv(63 * 16384 - TruncDiv(th.recentCpu, 4) - 2 * th.nice * 16384, 16384);
            PriorityOf(th) == if p < 0 then 0 else if p > 63 then 63 else p
  {
    var q := TruncDiv(th.recentCpu, 4);
    assert IntegerToFloat(63) == 63 * 16384;
    assert -0x4000_0000 <= 63 * 16384 - q <= 0x4000_0000;
    assert IntegerToFloat(2 * th.nice) == 2 * th.nice * 16384;
  }

  lemma TruncDivMono(x: int, y: int, d: int)
    requires d > 0 && x <= y
    ensures TruncDiv(x, d) <= TruncDiv(y, d)
  {
    TruncDivExact(x, d);
    TruncDivExact(y, d);
    if x >= 0 { DivBounds(x, d); DivAtLeast(y, d, x / d); }
    if y < 0 { DivBounds(-y, d); DivAtLeast(-x, d, (-y) / d); }
  }

  /** A thread that has used more processor time, or is nicer, never has a higher computed
      priority. */
  lemma PriorityAntitone(n: nat, a: Thread, b: Thread)
    requires n <= 545 && ThreadOk(n, 100, a) && ThreadOk(n, 100, b)
    requires a.recentCpu <= b.recentCpu && a.nice <= b.nice
    ensures PRI_MIN <= PriorityOf(b) <= PriorityOf(a) <= PRI_MAX
  {
    PriorityStep(n, a);
    PriorityStep(n, b);
    TruncDivMono(a.recentCpu, b.recentCpu, 4);
    TruncDivMono(63 * 16384 - TruncDiv(b.recentCpu, 4) - 2 * b.nice * 16384,
                 63 * 16384 - TruncDiv(a.recentCpu, 4) - 2 * a.nice * 16384, 16384);
  }

  // ----- reading the statistics -----

  function HundredTimesRounded(x: int): int {
    if x >= 0 then (100 * x + 8192) / 16384 else -((8192 - 100 * x) / 16384)
  }

  /** thread_get_load_avg and thread_get_recent_cpu return 100 times the value, rounded,
      exactly when the scaled value fits in 32 bits. */
  lemma ReadingIsExact(x: s32)
    ensures FloatToIntRound(MultiplyMixed(x, 100)) == HundredTimesRounded(x)
            <==> -B31 + 8192 <= 100 * x < B31 - 8192
  {
  }

  /** The load average can always be read; recent_cpu cannot, within its bounds. */
  lemma LoadAvgIsReadable(n: nat, loadAvg: int)
    requires n <= 545 && LoadOk(n, loadAvg)
    ensures FloatToIntRound(MultiplyMixed(loadAvg, 100)) == HundredTimesRounded(loadAvg)
  {
    ReadingIsExact(loadAvg);
  }

  // ----- runs -----

  datatype Step =
    | Tick(current: Tid, ready: nat) | SetNice(current: Tid, nice: int)
    | Spawn(tid: Tid, priority: int) | Leave(tid: Tid)

  function Recompute(loadAvg: int, th: Thread): Thread
    requires AddMixed(MultiplyMixed(loadAvg, 2), 1) != 0
  {
    var th1 := th.(recentCpu := RecentCpuOf(loadAvg, th));
    th1.(priority := PriorityOf(th1))
  }

  function Charge(s: State, t: Tid): State {
    if t == s.idle || t !in s.threads then s
    else s.(threads := s.threads[t := s.threads[t].(recentCpu := AddMixed(s.threads[t].recentCpu, 1))])
  }

  function Reprioritize(s: State, t: Tid): State {
    if t == s.idle || t !in s.threads then s
    else s.(threads := s.threads[t := s.threads[t].(priority := PriorityOf(s.threads[t]))])
  }

  /** The once-per-second recalculation. None is a kernel panic: the assertion on the load
      average, or a division by zero. */
  function EverySecond(s: State, running: nat): Option<State> {
    var la := LoadAvgOf(s.loadAvg, running);
    if la < 0 || AddMixed(MultiplyMixed(la, 2), 1) == 0 then None
    else Some(s.(loadAvg := la, threads :=
                  map t | t in s.threads :: if t == s.idle then s.threads[t] else Recompute(la, s.threads[t])))
  }

  /** The scheduler's part of timer_interrupt. */
  function TimerTick(s: State, current: Tid, ready: nat): Option<State> {
    var s1 := Charge(s.(ticks := s.ticks + 1), current);
    var running := if current == s.idle then ready else ready + 1;
    var s2 := if s1.ticks % 100 == 0 then EverySecond(s1, running) else Some(s1);
    match s2
    case None => None
    case Some(s3) => Some(if s3.ticks % 4 == 0 then Reprioritize(s3, current) else s3)
  }

  function Apply(s: State, a: Step): Option<State> {
    match a
    case Tick(t, ready) => TimerTick(s, t, ready)
    case SetNice(t, nice) =>
      Some(if t in s.threads then Reprioritize(s.(threads := s.threads[t := s.threads[t].(nice := nice)]), t) else s)
    case Spawn(t, p) => Some(s.(threads := s.threads[t := Thread(0, 0, p)]))
    case Leave(t) => Some(s.(threads := s.threads - {t}))
  }

  /** At most n runnable threads, a nice value in the documented range, and a priority in
      range for a new thread. */
  predicate Enabled(n: nat, s: State, a: Step) {
    match a
    case Tick(t, ready) => ready + (if t == s.idle then 0 else 1) <= n
    case SetNice(t, nice) => -20 <= nice <= 20
    case Spawn(t, p) => t !in s.threads && PRI_MIN <= p <= PRI_MAX
    case Leave(t) => true
  }

  /** The invariant with `phase` ticks of the current second charged. */
  ghost predicate InvAt(n: nat, phase: int, s: State) {
    && LoadOk(n, s.loadAvg)
    && forall t | t in s.threads && t != s.idle :: ThreadOk(n, phase, s.threads[t])
  }

  lemma ChargeKeeps(n: nat, s: State, t: Tid, phase: nat)
    requires n <= 545 && phase < 100 && InvAt(n, phase, s)
    ensures InvAt(n, phase + 1, Charge(s, t))
  {
    if t in s.threads && t != s.idle {
      assert ThreadOk(n, phase, s.threads[t]);
      assert AddMixed(s.threads[t].recentCpu, 1) == s.threads[t].recentCpu + 16384;
    }
    forall u | u in Charge(s, t).threads && u != s.idle ensures ThreadOk(n, phase + 1, Charge(s, t).threads[u]) {
      assert ThreadOk(n, phase, s.threads[u]);
    }
  }

  lemma ReprioritizeKeeps(n: nat, s: State, t: Tid, phase: nat)
    requires InvAt(n, phase, s)
    ensures InvAt(n, phase, Reprioritize(s, t))
  {
    hide PriorityOf;
    if t in s.threads { PriorityInRange(s.threads[t]); }
    forall u | u in s.threads && u != s.idle ensures ThreadOk(n, phase, Reprioritize(s, t).threads[u]) {
      assert ThreadOk(n, phase, s.threads[u]);
    }
  }

  lemma PriorityInRange(th: Thread)
    ensures PRI_MIN <= PriorityOf(th) <= PRI_MAX
  {
  }

  lemma EverySecondKeeps(n: nat, s: State, running: nat)
    requires n <= 545 && running <= n && InvAt(n, 100, s)
    ensures EverySecond(s, running).Some? && InvAt(n, 0, EverySecond(s, running).value)
    ensures EverySecond(s, running).value.ticks == s.ticks && EverySecond(s, running).value.idle == s.idle
  {
    hide LoadAvgOf, PriorityOf, RecentCpuOf, AddMixed, MultiplyMixed;
    var la := LoadAvgOf(s.loadAvg, running);
    LoadAvgStep(n, s.loadAvg, running);
    DecayStep(n, la);
    forall t | t in s.threads && t != s.idle ensures ThreadOk(n, 0, Recompute(la, s.threads[t])) {
      RecentCpuStep(n, la, s.threads[t]);
      PriorityInRange(s.threads[t].(recentCpu := RecentCpuOf(la, s.threads[t])));
    }
  }

  lemma TickKeeps(n: nat, s: State, t: Tid, ready: nat)
    requires n <= 545 && Inv(n, s) && Enabled(n, s, Tick(t, ready))
    ensures TimerTick(s, t, ready).Some? && Inv(n, TimerTick(s, t, ready).value)
  {
    hide Charge, EverySecond, Reprioritize, ThreadOk, LoadOk;
    var s0 := s.(ticks := s.ticks + 1);
    var s1 := Charge(s0, t);
    assert InvAt(n, s.ticks % 100, s0);
    ChargeKeeps(n, s0, t, s.ticks % 100);
    ChargeFrame(s0, t);
    var phase := if s1.ticks % 100 == 0 then 0 else s.ticks % 100 + 1;
    var s2 := s1;
    if s1.ticks % 100 == 0 {
      var running := if t == s.idle then ready else ready + 1;
      EverySecondKeeps(n, s1, running);
      s2 := EverySecond(s1, running).value;
    }
    assert InvAt(n, phase, s2) && phase == s2.ticks % 100;
    ReprioritizeKeeps(n, s2, t, phase);
    ChargeFrame(s2, t);
  }

  lemma ChargeFrame(s: State, t: Tid)
    ensures Charge(s, t).ticks == s.ticks && Charge(s, t).idle == s.idle && Charge(s, t).loadAvg == s.loadAvg
    ensures Reprioritize(s, t).ticks == s.ticks && Reprioritize(s, t).idle == s.idle
  {
  }

  lemma StepKeeps(n: nat, s: State, a: Step)
    requires n <= 545 && Inv(n, s) && Enabled(n, s, a)
    ensures Apply(s, a).Some? && Inv(n, Apply(s, a).value)
  {
    hide Reprioritize, TimerTick;
    match a
    case Tick(t, ready) => TickKeeps(n, s, t, ready);
    case SetNice(t, nice) =>
      if t in s.threads {
        var s1 := s.(threads := s.threads[t := s.threads[t].(nice := nice)]);
        assert InvAt(n, s.ticks % 100, s1);
        ReprioritizeKeeps(n, s1, t, s.ticks % 100);
        ChargeFrame(s1, t);
      }
    case Spawn(t, p) =>
    case Leave(t) =>
  }

  ghost predicate RunsTo(n: nat, s: State, run: seq<Step>, r: Option<State>)
    decreases |run|
  {
    if run == [] then r == Some(s)
    else Enabled(n, s, run[0]) &&
         match Apply(s, run[0])
         case None => r == None
         case Some(s') => RunsTo(n, s', run[1..], r)
  }

  lemma {:induction false} RunsOn(n: nat, s0: State, run: seq<Step>, s: State, a: Step, s': State)
    requires RunsTo(n, s0, run, Some(s)) && Enabled(n, s, a) && Apply(s, a) == Some(s')
    ensures RunsTo(n, s0, run + [a], Some(s'))
    decreases |run|
  {
    hide Enabled, Apply;
    if run == [] {
      assert RunsTo(n, s', [], Some(s'));
      assert (run + [a])[1..] == [];
    } else {
      assert (run + [a])[1..] == run[1..] + [a];
      RunsOn(n, Apply(s0, run[0]).value, run[1..], s, a, s');
    }
  }

  /** Whole runs: the kernel never panics, and every state it reaches is within bounds. */
  lemma {:induction false} RunKeeps(n: nat, s: State, run: seq<Step>, r: Option<State>)
    requires n <= 545 && Inv(n, s) && RunsTo(n, s, run, r)
    ensures r.Some? && Inv(n, r.value)
    decreases |run|
  {
    hide Inv;
    if run != [] {
      StepKeeps(n, s, run[0]);
      RunKeeps(n, Apply(s, run[0]).value, run[1..], r);
    }
  }

  /** The state in which the timer starts: thread_start has set the load average to 0 and
      every thread has used no time. */
  lemma StartIsInv(n: nat, s: State)
    requires s.loadAvg == 0 && s.ticks >= 0
    requires forall t | t in s.threads :: s.threads[t].nice == 0 && s.threads[t].recentCpu == 0
    requires forall t | t in s.threads :: PRI_MIN <= s.threads[t].priority <= PRI_MAX
    ensures Inv(n, s)
  {
  }
}

/** The same recurrences as the interrupt handler performs them, in place over the list of
    all threads. */
module MlfqsKernel {
  import opened Machine
  import opened FixedPoint
  import opened Mlfqs
  import opened MlfqsLaws

  class Kernel {
    var ticks: int
    var loadAvg: int
    var threads: map<Tid, Thread>
    var allList: seq<Tid>
    var idle: Tid

    ghost function View(): State
      reads this
    {
      State(ticks, loadAvg, threads, idle)
    }

    /** all_list names every thread once. */
    ghost predicate Valid()
      reads this
    {
      && (forall t :: t in threads <==> t in allList)
      && forall i, j | 0 <= i < j < |allList| :: allList[i] != allList[j]
    }

    method IncrementRecentCpu(current: Tid)
      requires Valid() && current in threads
      modifies this`threads
      ensures Valid() && View() == Charge(old(View()), current)
    {
      if current == idle { return; }
      threads := threads[current := threads[current].(recentCpu := AddMixed(threads[current].recentCpu, 1))];
    }

    method CalculatePriority(t: Tid)
      requires Valid() && t in threads
      modifies this`threads
      ensures Valid() && View() == Reprioritize(old(View()), t)
    {
      if t == idle { return; }
      var term1 := IntegerToFloat(PRI_MAX);
      var term2 := DivisionMixed(threads[t].recentCpu, 4);
      var term3 := S32(2 * threads[t].nice);
      term1 := SubI(term1, term2);
      term1 := SubMixed(term1, term3);
      var p := FloatToInt(term1);
      if p < PRI_MIN { p := PRI_MIN; }
      if p > PRI_MAX { p := PRI_MAX; }
      threads := threads[t := threads[t].(priority := p)];
    }

    method CalculateLoadAvg(current: Tid, ready: nat)
      modifies this`loadAvg
      ensures loadAvg == LoadAvgOf(old(loadAvg), if current == idle then ready else ready + 1)
    {
      var term2 := ready;
      if current != idle { term2 := term2 + 1; }
      var term1 := DivisionMixed(IntegerToFloat(59), 60);
      loadAvg := AddI(MultiplyFloat(term1, loadAvg), DivisionMixed(IntegerToFloat(term2), 60));
    }

    /** The walk over all_list; None is a division by zero. */
    method RecalculateAll()
      requires Valid() && AddMixed(MultiplyMixed(loadAvg, 2), 1) != 0
      modifies this`threads
      ensures Valid()
      ensures threads == map t | t in old(threads) ::
                         if t == idle then old(threads)[t] else Recompute(loadAvg, old(threads)[t])
    {
      hide Recompute, PriorityOf, RecentCpuOf;
      for i := 0 to |allList|
        invariant threads.Keys == old(threads).Keys
        invariant forall j | 0 <= j < |allList| ::
                    threads[allList[j]] == if j < i && allList[j] != idle
                                           then Recompute(loadAvg, old(threads)[allList[j]])
                                           else old(threads)[allList[j]]
      {
        var t := allList[i];
        if t != idle { threads := threads[t := Recompute(loadAvg, threads[t])]; }
      }
    }

    method RecalculateSystem(current: Tid, ready: nat)
      requires Valid() && EverySecond(View(), if current == idle then ready else ready + 1).Some?
      modifies this`loadAvg, this`threads
      ensures Valid() && EverySecond(old(View()), if current == idle then ready else ready + 1) == Some(View())
    {
      hide Recompute, LoadAvgOf;
      CalculateLoadAvg(current, ready);
      RecalculateAll();
      assert threads == EverySecond(old(View()), if current == idle then ready else ready + 1).value.threads;
    }

    /** The whole handler: its result is the specification's, and it never panics while at
        most n threads are runnable. */
    method TimerInterrupt(current: Tid, ready: nat, ghost n: nat)
      requires Valid() && current in threads
      requires n <= 545 && Inv(n, View()) && Enabled(n, View(), Tick(current, ready))
      modifies this
      ensures Valid() && Inv(n, View())
      ensures TimerTick(old(View()), current, ready) == Some(View())
      ensures TickLaw(old(View()), current, ready, View())
    {
      hide Inv, EverySecond, Reprioritize, Charge, Enabled, TickLaw;
      TickKeeps(n, View(), current, ready);
      TickIs(n, View(), current, ready);
      ticks := ticks + 1;
      ChargeFrame(View(), current);
      IncrementRecentCpu(current);
      if ticks % 100 == 0 { RecalculateSystem(current, ready); }
      ghost var s3 := View();
      if ticks % 4 == 0 { CalculatePriority(current); }
      assert View() == if s3.ticks % 4 == 0 then Reprioritize(s3, current) else s3;
    }
  }
}
