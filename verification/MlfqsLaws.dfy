/** What one timer tick does under the multi-level feedback queue scheduler, in unbounded
    arithmetic, and how far a priority can lag behind its formula. */
module MlfqsLaws {
  import opened Machine
  import opened FixedPoint
  import opened Mlfqs

  /** 63 - recent_cpu / 4 - 2 nice in 17.14 arithmetic, cut to an integer between 0 and 63. */
  function Formula(recentCpu: int, nice: int): int {
    var p := TruncDiv(63 * 16384 - TruncDiv(recentCpu, 4) - 2 * nice * 16384, 16384);
    if p < 0 then 0 else if p > 63 then 63 else p
  }

  function FormulaOf(th: Thread): int { Formula(th.recentCpu, th.nice) }

  /** The recent_cpu of thread u when the running thread t has been charged for the tick. */
  function Charged(s: State, t: Tid, u: Tid): int
    requires u in s.threads
  {
    s.threads[u].recentCpu + if u == t then 16384 else 0
  }

  function NewLoad(s: State, t: Tid, ready: nat): int {
    16110 * s.loadAvg / 16384 + (if t == s.idle then ready else ready + 1) * 16384 / 60
  }

  function DecayAt(loadAvg: nat): int { 2 * loadAvg * 16384 / (2 * loadAvg + 16384) }

  /** The running thread t is charged; once a second load average, recent_cpu and every priority
      are computed anew; every fourth tick the priority of t is; no other priority changes. */
  ghost predicate TickLaw(s: State, t: Tid, ready: nat, s': State) {
    && s'.ticks == s.ticks + 1 && s'.idle == s.idle && s'.threads.Keys == s.threads.Keys
    && s'.loadAvg == (if (s.ticks + 1) % 100 == 0 then NewLoad(s, t, ready) else s.loadAvg) && s'.loadAvg >= 0
    && (s.idle in s.threads ==> s'.threads[s.idle] == s.threads[s.idle])
    && forall u | u in s.threads && u != s.idle :: ThreadLaw(s, t, s', u)
  }

  ghost predicate ThreadLaw(s: State, t: Tid, s': State, u: Tid)
    requires u in s.threads && u in s'.threads && s'.loadAvg >= 0
  {
    var th, th' := s.threads[u], s'.threads[u];
    && th'.nice == th.nice
    && th'.recentCpu == (if (s.ticks + 1) % 100 == 0 then TruncDiv(DecayAt(s'.loadAvg) * Charged(s, t, u), 16384) + th.nice * 16384
                         else Charged(s, t, u))
    && th'.priority == if (s.ticks + 1) % 100 == 0 || ((s.ticks + 1) % 4 == 0 && u == t) then FormulaOf(th') else th.priority
  }

  lemma TickIs(n: nat, s: State, t: Tid, ready: nat)
    requires n <= 545 && Inv(n, s) && Enabled(n, s, Tick(t, ready))
    ensures Apply(s, Tick(t, ready)).Some? && TickLaw(s, t, ready, Apply(s, Tick(t, ready)).value)
  {
    hide Inv, TimerTick, ThreadLaw, InvAt;
    TickKeeps(n, s, t, ready);
    var s0 := s.(ticks := s.ticks + 1);
    TickFrame(n, s, t, ready);
    var s' := TimerTick(s, t, ready).value;
    forall u | u in s.threads && u != s.idle ensures ThreadLaw(s, t, s', u) {
      if (s.ticks + 1) % 100 == 0 { SecondLaw(n, s, t, ready, u); } else { OtherLaw(n, s, t, ready, u); }
    }
  }

  lemma TickFrame(n: nat, s: State, t: Tid, ready: nat)
    requires n <= 545 && Inv(n, s) && Enabled(n, s, Tick(t, ready)) && TimerTick(s, t, ready).Some?
    ensures var s' := TimerTick(s, t, ready).value;
            && s'.ticks == s.ticks + 1 && s'.idle == s.idle && s'.threads.Keys == s.threads.Keys
            && s'.loadAvg == (if (s.ticks + 1) % 100 == 0 then NewLoad(s, t, ready) else s.loadAvg) && s'.loadAvg >= 0
            && (s.idle in s.threads ==> s'.threads[s.idle] == s.threads[s.idle])
  {
    LoadAvgStep(n, s.loadAvg, if t == s.idle then ready else ready + 1);
    hide LoadAvgOf, Recompute, PriorityOf, AddMixed, MultiplyMixed;
  }

  /** In the bounds of the invariant a charge does not overflow, and the priority is the formula. */
  lemma ThreadFacts(n: nat, phase: nat, th: Thread)
    requires n <= 545 && phase <= 100 && ThreadOk(n, phase, th)
    ensures PriorityOf(th) == FormulaOf(th)
    ensures AddMixed(th.recentCpu, 1) == th.recentCpu + 16384
  {
    PriorityStep(n, th);
  }

  lemma OtherLaw(n: nat, s: State, t: Tid, ready: nat, u: Tid)
    requires n <= 545 && Inv(n, s) && TimerTick(s, t, ready).Some? && (s.ticks + 1) % 100 != 0
    requires u in s.threads && u != s.idle && TimerTick(s, t, ready).value.threads.Keys == s.threads.Keys && s.loadAvg >= 0
    requires TimerTick(s, t, ready).value.loadAvg == s.loadAvg
    ensures ThreadLaw(s, t, TimerTick(s, t, ready).value, u)
  {
    hide PriorityOf, AddMixed, ThreadOk, Inv, Formula, TruncDiv, DecayAt, EverySecond;
    WithinFacts(n, s, t, u);
  }

  lemma WithinFacts(n: nat, s: State, t: Tid, u: Tid)
    requires n <= 545 && Inv(n, s) && u in s.threads && u != s.idle
    ensures var th := s.threads[u]; var th1 := th.(recentCpu := Charged(s, t, u));
            AddMixed(th.recentCpu, 1) == th.recentCpu + 16384 && PriorityOf(th1) == FormulaOf(th1)
  {
    var th := s.threads[u];
    assert ThreadOk(n, s.ticks % 100, th);
    ThreadFacts(n, s.ticks % 100, th);
    ThreadFacts(n, s.ticks % 100 + 1, th.(recentCpu := Charged(s, t, u)));
  }

  lemma SecondLaw(n: nat, s: State, t: Tid, ready: nat, u: Tid)
    requires n <= 545 && Inv(n, s) && TimerTick(s, t, ready).Some? && (s.ticks + 1) % 100 == 0 && Enabled(n, s, Tick(t, ready))
    requires u in s.threads && u != s.idle && TimerTick(s, t, ready).value.threads.Keys == s.threads.Keys
    requires TimerTick(s, t, ready).value.loadAvg == NewLoad(s, t, ready) >= 0
    ensures ThreadLaw(s, t, TimerTick(s, t, ready).value, u)
  {
    hide Inv, LoadAvgOf, ThreadOk, LoadOk, Recompute, PriorityOf, AddMixed, MultiplyMixed, Enabled, FormulaOf, Formula, DecayAt, NewLoad, TruncDiv;
    var la := LoadAvgOf(s.loadAvg, if t == s.idle then ready else ready + 1);
    LoadIs(n, s, t, ready);
    ChargedOk(n, s, t, u);
    SecondThread(n, la, s.threads[u].(recentCpu := Charged(s, t, u)));
    SecondShape(s, t, ready, u, la);
    FormulaIs(TimerTick(s, t, ready).value.threads[u]);
  }

  lemma FormulaIs(th: Thread)
    ensures FormulaOf(th) == Formula(th.recentCpu, th.nice)
  {
  }

  lemma LoadIs(n: nat, s: State, t: Tid, ready: nat)
    requires n <= 545 && Inv(n, s) && Enabled(n, s, Tick(t, ready))
    ensures var la := LoadAvgOf(s.loadAvg, if t == s.idle then ready else ready + 1); la == NewLoad(s, t, ready) && LoadOk(n, la)
  {
    LoadAvgStep(n, s.loadAvg, if t == s.idle then ready else ready + 1);
  }

  lemma ChargedOk(n: nat, s: State, t: Tid, u: Tid)
    requires n <= 545 && Inv(n, s) && u in s.threads && u != s.idle
    ensures ThreadOk(n, 100, s.threads[u].(recentCpu := Charged(s, t, u))) && AddMixed(s.threads[u].recentCpu, 1) == s.threads[u].recentCpu + 16384
  {
    assert ThreadOk(n, s.ticks % 100, s.threads[u]);
    ThreadFacts(n, s.ticks % 100, s.threads[u]);
  }

  /** The recomputation of one thread once a second. */
  lemma SecondThread(n: nat, la: int, th: Thread)
    requires n <= 545 && LoadOk(n, la) && ThreadOk(n, 100, th)
    ensures la >= 0 && AddMixed(MultiplyMixed(la, 2), 1) != 0
    ensures var rc := TruncDiv(DecayAt(la) * th.recentCpu, 16384) + th.nice * 16384;
            Recompute(la, th) == Thread(th.nice, rc, Formula(rc, th.nice)) && PriorityOf(Recompute(la, th)) == Formula(rc, th.nice)
  {
    RecentCpuStep(n, la, th);
    DecayStep(n, la);
    assert DecayAt(la) == Decay(la);
    var th2 := th.(recentCpu := RecentCpuOf(la, th));
    assert ThreadOk(n, 0, th2);
    hide RecentCpuOf, Decay, AddMixed, MultiplyMixed, DecayAt;
    ThreadFacts(n, 0, th2);
    ThreadFacts(n, 0, th2.(priority := FormulaOf(th2)));
  }

  lemma SecondShape(s: State, t: Tid, ready: nat, u: Tid, la: int)
    requires TimerTick(s, t, ready).Some? && (s.ticks + 1) % 100 == 0 && u in s.threads && u != s.idle
    requires la == LoadAvgOf(s.loadAvg, if t == s.idle then ready else ready + 1) && AddMixed(MultiplyMixed(la, 2), 1) != 0
    requires AddMixed(s.threads[u].recentCpu, 1) == s.threads[u].recentCpu + 16384
    ensures var th' := Recompute(la, s.threads[u].(recentCpu := Charged(s, t, u)));
            u in TimerTick(s, t, ready).value.threads
            && TimerTick(s, t, ready).value.threads[u] == if u == t then th'.(priority := PriorityOf(th')) else th'
  {
    hide LoadAvgOf, Recompute, PriorityOf, AddMixed, MultiplyMixed;
  }

  // ----- how far a priority lags -----

  /** The priority is the formula for what recent_cpu was lag charges ago. */
  predicate Lags(th: Thread, lag: nat) { th.priority == Formula(th.recentCpu - 16384 * lag, th.nice) }

  /** A priority that lags by at most 75 charges is at most 19 too high, and never too low. */
  lemma LagBound(th: Thread, lag: nat)
    requires Lags(th, lag) && lag <= 75
    ensures FormulaOf(th) <= th.priority <= FormulaOf(th) + 19
  {
    var a, b := TruncDiv(th.recentCpu, 4), TruncDiv(th.recentCpu - 16384 * lag, 4);
    QuarterLag(th.recentCpu, lag);
    var x, y := 63 * 16384 - a - 2 * th.nice * 16384, 63 * 16384 - b - 2 * th.nice * 16384;
    assert x <= y <= x + 4096 * 75 + 1;
    Nineteen(x, y);
  }

  lemma QuarterLag(rc: int, lag: nat)
    requires lag <= 75
    ensures TruncDiv(rc - 16384 * lag, 4) <= TruncDiv(rc, 4) <= TruncDiv(rc - 16384 * lag, 4) + 4096 * lag + 1
  {
    TruncDivMono(rc - 16384 * lag, rc, 4);
    TruncDivExact(rc, 4);
    TruncDivExact(rc - 16384 * lag, 4);
  }

  lemma Nineteen(x: int, y: int)
    requires x <= y <= x + 307201
    ensures TruncDiv(x, 16384) <= TruncDiv(y, 16384) <= TruncDiv(x, 16384) + 19
  {
    TruncDivExact(x, 16384);
    TruncDivExact(y, 16384);
  }

  /** Thread u stays during the run, which is shorter than a second. */
  predicate Stays(run: seq<Step>, u: Tid) { forall a | a in run :: a != Leave(u) }

  function TickCount(run: seq<Step>): nat
    decreases |run|
  {
    if run == [] then 0 else (if run[0].Tick? then 1 else 0) + TickCount(run[1..])
  }

  /** At phase p of a second a thread has been charged at most p - p / 4 times since its priority
      was computed. */
  ghost predicate Behind(s: State, u: Tid) {
    u in s.threads && u != s.idle && exists lag: nat :: lag <= s.ticks % 100 - s.ticks % 100 / 4 && Lags(s.threads[u], lag)
  }

  lemma StepBehind(n: nat, s: State, a: Step, u: Tid)
    requires n <= 545 && Inv(n, s) && Enabled(n, s, a) && a != Leave(u) && Behind(s, u)
    requires a.Tick? ==> (s.ticks + 1) % 100 != 0
    ensures Apply(s, a).Some? && Behind(Apply(s, a).value, u)
    ensures Apply(s, a).value.ticks == s.ticks + if a.Tick? then 1 else 0
  {
    if a.Tick? {
      TickIs(n, s, a.current, a.ready);
      hide Apply, Inv, Formula;
      TickBehind(s, a.current, a.ready, Apply(s, a).value, u);
    } else {
      assert ThreadOk(n, s.ticks % 100, s.threads[u]);
      OtherBehind(n, s, a, u);
    }
  }

  lemma TickBehind(s: State, t: Tid, ready: nat, s': State, u: Tid)
    requires TickLaw(s, t, ready, s') && Behind(s, u) && (s.ticks + 1) % 100 != 0
    ensures Behind(s', u)
  {
    hide Formula, DecayAt, NewLoad;
    WithinSecond(s, t, ready, s', u);
    hide TickLaw;
    var lag: nat :| lag <= s.ticks % 100 - s.ticks % 100 / 4 && Lags(s.threads[u], lag);
    var computed := u == t && (s.ticks + 1) % 4 == 0;
    var lag' := if computed then 0 else if u == t then lag + 1 else lag;
    NextPhase(s.ticks, lag, computed, lag');
    assert Lags(s'.threads[u], lag');
  }

  lemma WithinSecond(s: State, t: Tid, ready: nat, s': State, u: Tid)
    requires TickLaw(s, t, ready, s') && (s.ticks + 1) % 100 != 0 && u in s.threads && u != s.idle
    ensures u in s'.threads && s'.idle == s.idle && s'.ticks == s.ticks + 1
    ensures var th, th' := s.threads[u], s'.threads[u];
            && th'.nice == th.nice && th'.recentCpu == th.recentCpu + (if u == t then 16384 else 0)
            && th'.priority == if u == t && (s.ticks + 1) % 4 == 0 then FormulaOf(th') else th.priority
  {
    hide Formula, DecayAt, NewLoad;
    assert ThreadLaw(s, t, s', u);
  }

  lemma NextPhase(ticks: int, lag: nat, computed: bool, lag': nat)
    requires (ticks + 1) % 100 != 0 && lag <= ticks % 100 - ticks % 100 / 4
    requires if computed then lag' == 0 else lag' == lag || (lag' == lag + 1 && (ticks + 1) % 4 != 0)
    ensures lag' <= (ticks + 1) % 100 - (ticks + 1) % 100 / 4
  {
    var p, q := ticks % 100, ticks / 100;
    assert ticks == 100 * q + p;
    assert (ticks + 1) % 100 == p + 1;
    QuarterOf(q, p + 1);
    WithinBound(p, lag, computed, lag');
  }

  lemma QuarterOf(q: int, p: nat)
    ensures (100 * q + p) % 4 == p % 4
  {
    assert 100 * q + p == 4 * (25 * q) + p;
  }

  lemma WithinBound(p: nat, lag: nat, computed: bool, lag': nat)
    requires lag <= p - p / 4 && if computed then lag' == 0 else lag' == lag || (lag' == lag + 1 && (p + 1) % 4 != 0)
    ensures lag' <= p + 1 - (p + 1) / 4
  {
  }

  lemma OtherBehind(n: nat, s: State, a: Step, u: Tid)
    requires n <= 545 && Enabled(n, s, a) && a != Leave(u) && Behind(s, u) && !a.Tick? && ThreadOk(n, s.ticks % 100, s.threads[u])
    ensures Apply(s, a).Some? && Behind(Apply(s, a).value, u) && Apply(s, a).value.ticks == s.ticks
  {
    if a.SetNice? && a.current == u {
      var th := s.threads[u].(nice := a.nice);
      assert ThreadOk(n, s.ticks % 100, th);
      ThreadFacts(n, s.ticks % 100, th);
      hide PriorityOf, Formula;
      assert Lags(Apply(s, a).value.threads[u], 0);
    } else {
      hide PriorityOf, Formula;
      assert Apply(s, a).value.threads[u] == s.threads[u];
    }
  }

  lemma {:induction false} RunBehind(n: nat, s: State, run: seq<Step>, u: Tid, s': State)
    requires n <= 545 && Inv(n, s) && Behind(s, u) && Stays(run, u) && RunsTo(n, s, run, Some(s')) && s.ticks % 100 + TickCount(run) < 100
    ensures Behind(s', u) && s'.ticks == s.ticks + TickCount(run)
    decreases |run|
  {
    hide Inv, Apply, Enabled, Behind;
    if run != [] {
      var a := run[0];
      assert a in run && forall b | b in run[1..] :: b in run;
      StepBehind(n, s, a, u);
      StepKeeps(n, s, a);
      RunBehind(n, Apply(s, a).value, run[1..], u, s');
    }
  }

  /** In a run that starts with the tick of a new second and is shorter than another, the priority
      of every thread that was there is between the formula and 19 more. */
  lemma PriorityLags(n: nat, s: State, t: Tid, ready: nat, run: seq<Step>, u: Tid, s': State)
    requires n <= 545 && Inv(n, s) && Enabled(n, s, Tick(t, ready)) && (s.ticks + 1) % 100 == 0 && u in s.threads && u != s.idle
    requires Apply(s, Tick(t, ready)).Some? && RunsTo(n, Apply(s, Tick(t, ready)).value, run, Some(s')) && Stays(run, u) && TickCount(run) < 100
    ensures u in s'.threads && FormulaOf(s'.threads[u]) <= s'.threads[u].priority <= FormulaOf(s'.threads[u]) + 19
  {
    TickIs(n, s, t, ready);
    TickKeeps(n, s, t, ready);
    hide Apply, Inv, Enabled, RunsTo, Formula;
    var s1 := Apply(s, Tick(t, ready)).value;
    FreshSecond(s, t, ready, s1, u);
    hide TickLaw;
    RunBehind(n, s1, run, u, s');
    BehindBound(s', u);
  }

  /** The tick of a new second computes every priority. */
  lemma FreshSecond(s: State, t: Tid, ready: nat, s': State, u: Tid)
    requires TickLaw(s, t, ready, s') && (s.ticks + 1) % 100 == 0 && u in s.threads && u != s.idle
    ensures Behind(s', u) && s'.ticks % 100 == 0
  {
    assert ThreadLaw(s, t, s', u);
    hide Formula, DecayAt, NewLoad;
    assert Lags(s'.threads[u], 0);
  }

  lemma BehindBound(s: State, u: Tid)
    requires Behind(s, u)
    ensures u in s.threads && FormulaOf(s.threads[u]) <= s.threads[u].priority <= FormulaOf(s.threads[u]) + 19
  {
    var lag: nat :| lag <= s.ticks % 100 - s.ticks % 100 / 4 && Lags(s.threads[u], lag);
    hide Formula, FormulaOf, Lags;
    LagBound(s.threads[u], lag);
  }

  // ----- a run that reaches the bound -----

  /** Thread 0 runs for three ticks of four, and thread 1 for the fourth. */
  ghost predicate Alternating(s0: State, k: nat) {
    exists run, s ::
      && RunsTo(2, s0, run, Some(s)) && TickCount(run) == k && Stays(run, 0) && Inv(2, s) && s.ticks == k && s.idle == 2
      && 0 in s.threads && s.threads[0] == Thread(0, 16384 * (k - k / 4), 63) && 1 in s.threads
  }

  lemma {:induction false} Alternates(s0: State, k: nat)
    requires Inv(2, s0) && s0.ticks == 0 && s0.idle == 2 && 0 in s0.threads && 1 in s0.threads && s0.threads[0] == Thread(0, 0, 63) && k < 100
    ensures Alternating(s0, k)
  {
    if k == 0 {
      assert RunsTo(2, s0, [], Some(s0)) && Stays([], 0) && TickCount([]) == 0;
    } else {
      Alternates(s0, k - 1);
      hide Inv;
      AlternatesOn(s0, k - 1);
    }
  }

  lemma AlternatesOn(s0: State, k: nat)
    requires Alternating(s0, k) && k < 99
    ensures Alternating(s0, k + 1)
  {
    var run, s :|
      && RunsTo(2, s0, run, Some(s)) && TickCount(run) == k && Stays(run, 0) && Inv(2, s) && s.ticks == k && s.idle == 2
      && 0 in s.threads && s.threads[0] == Thread(0, 16384 * (k - k / 4), 63) && 1 in s.threads;
    var t := if (k + 1) % 4 == 0 then 1 else 0;
    hide Inv, Apply, RunsTo, TickCount;
    TickIs(2, s, t, 1);
    TickKeeps(2, s, t, 1);
    var s' := Apply(s, Tick(t, 1)).value;
    RunsOn(2, s0, run, s, Tick(t, 1), s');
    CountOn(run, Tick(t, 1));
    AlternateThread(s, t, s', k);
    assert Stays(run + [Tick(t, 1)], 0);
    hide TickLaw;
    assert TickCount(run + [Tick(t, 1)]) == k + 1;
  }

  lemma AlternateThread(s: State, t: Tid, s': State, k: nat)
    requires TickLaw(s, t, 1, s') && k < 99 && s.ticks == k && s.idle == 2 && t == (if (k + 1) % 4 == 0 then 1 else 0)
    requires 0 in s.threads && s.threads[0] == Thread(0, 16384 * (k - k / 4), 63)
    ensures 0 in s'.threads && s'.threads[0] == Thread(0, 16384 * (k + 1 - (k + 1) / 4), 63) && s'.ticks == k + 1
  {
    assert ThreadLaw(s, t, s', 0);
    hide Formula, DecayAt, NewLoad;
    assert (k + 1) % 100 != 0;
    assert (k + 1) / 4 == if (k + 1) % 4 == 0 then k / 4 + 1 else k / 4;
  }

  lemma {:induction false} CountOn(run: seq<Step>, a: Step)
    ensures TickCount(run + [a]) == TickCount(run) + if a.Tick? then 1 else 0
    decreases |run|
  {
    if run == [] {
      assert (run + [a])[1..] == [];
    } else {
      assert (run + [a])[1..] == run[1..] + [a];
      CountOn(run[1..], a);
    }
  }

  /** The bound of 19 is reached: a run of 99 ticks from the start in which a thread that has been
      charged 75 times still has priority 63, where the formula gives 44. */
  lemma LagIsReached(s0: State)
    requires Inv(2, s0) && s0.ticks == 0 && s0.idle == 2 && 0 in s0.threads && 1 in s0.threads && s0.threads[0] == Thread(0, 0, 63)
    ensures exists run, s :: RunsTo(2, s0, run, Some(s)) && TickCount(run) == 99 && 0 in s.threads
                             && s.threads[0] == Thread(0, 75 * 16384, 63) && FormulaOf(s.threads[0]) == 44
  {
    hide RunsTo, TickCount, Inv, FormulaOf, Stays;
    Alternates(s0, 99);
    FortyFour();
    var run, s :|
      && RunsTo(2, s0, run, Some(s)) && TickCount(run) == 99 && Stays(run, 0) && Inv(2, s) && s.ticks == 99 && s.idle == 2
      && 0 in s.threads && s.threads[0] == Thread(0, 16384 * (99 - 99 / 4), 63) && 1 in s.threads;
  }

  lemma FortyFour()
    ensures FormulaOf(Thread(0, 75 * 16384, 63)) == 44
  {
  }

  /** thread_set_nice stores the value, computes the priority of that thread anew, and changes nothing else. */
  lemma SetNiceIs(n: nat, s: State, t: Tid, nice: int)
    requires n <= 545 && Inv(n, s) && -20 <= nice <= 20 && t in s.threads && t != s.idle
    ensures var th := s.threads[t];
            Apply(s, SetNice(t, nice)) == Some(s.(threads := s.threads[t := Thread(nice, th.recentCpu, Formula(th.recentCpu, nice))]))
  {
    var th := s.threads[t].(nice := nice);
    assert ThreadOk(n, s.ticks % 100, s.threads[t]);
    ThreadFacts(n, s.ticks % 100, th);
    hide PriorityOf, Formula;
    var threads := s.threads[t := Thread(nice, th.recentCpu, PriorityOf(th))];
    assert Apply(s, SetNice(t, nice)).value.threads == threads;
  }
}
