/** A run of the multi-level feedback queue scheduler after which recent_cpu can no longer be read. */
module MlfqsReadings {
  import opened Machine
  import opened FixedPoint
  import opened Mlfqs

  /** Thread 0, of nice value 0, has used this much time. */
  ghost predicate At(s: State, ticks: int, loadAvg: int, recentCpu: int) {
    s.ticks == ticks && s.loadAvg == loadAvg && s.idle != 0 && 0 in s.threads && s.threads[0].nice == 0 && s.threads[0].recentCpu == recentCpu
  }

  ghost predicate Reached(s0: State, ticks: int, loadAvg: int, recentCpu: int) {
    exists run, s :: RunsTo(545, s0, run, Some(s)) && At(s, ticks, loadAvg, recentCpu)
  }

  /** Thread 0 runs for one tick, with 544 threads ready. */
  lemma OneTick(s0: State, ticks: int, loadAvg: int, recentCpu: int)
    requires Reached(s0, ticks, loadAvg, recentCpu) && (ticks + 1) % 100 != 0 && 0 <= recentCpu < 0x4000_0000
    ensures Reached(s0, ticks + 1, loadAvg, recentCpu + 16384)
  {
    var run, s :| RunsTo(545, s0, run, Some(s)) && At(s, ticks, loadAvg, recentCpu);
    var s' := Apply(s, Tick(0, 544)).value;
    RunsOn(545, s0, run, s, Tick(0, 544), s');
    assert At(s', ticks + 1, loadAvg, recentCpu + 16384);
  }

  lemma LastTick(s0: State, ticks: int, loadAvg: int, recentCpu: int)
    requires Reached(s0, ticks, loadAvg, recentCpu) && (ticks + 1) % 100 == 0 && 0 <= recentCpu < 0x0200_0000 && LoadOk(545, loadAvg)
    ensures LoadOk(545, NextLoad(loadAvg)) && Reached(s0, ticks + 1, NextLoad(loadAvg), NextCpu(NextLoad(loadAvg), recentCpu + 16384))
  {
    LoadAvgStep(545, loadAvg, 545);
    var run, s :| RunsTo(545, s0, run, Some(s)) && At(s, ticks, loadAvg, recentCpu);
    SecondAt(s, ticks, loadAvg, recentCpu);
    hide LoadOk, NextLoad, NextCpu, At, Apply, RunsTo;
    RunsOn(545, s0, run, s, Tick(0, 544), Apply(s, Tick(0, 544)).value);
  }

  lemma SecondAt(s: State, ticks: int, loadAvg: int, recentCpu: int)
    requires At(s, ticks, loadAvg, recentCpu) && (ticks + 1) % 100 == 0 && 0 <= recentCpu < 0x0200_0000
    requires LoadOk(545, loadAvg) && LoadAvgOf(loadAvg, 545) == NextLoad(loadAvg) && LoadOk(545, NextLoad(loadAvg))
    ensures Apply(s, Tick(0, 544)).Some?
    ensures At(Apply(s, Tick(0, 544)).value, ticks + 1, NextLoad(loadAvg), NextCpu(NextLoad(loadAvg), recentCpu + 16384))
  {
    var s1 := Charge(s.(ticks := s.ticks + 1), 0);
    var th := s1.threads[0];
    assert th.recentCpu == recentCpu + 16384;
    NextCpuIs(NextLoad(loadAvg), th);
    SecondIsSome(s1, loadAvg);
    hide LoadAvgOf, RecentCpuOf, NextLoad, NextCpu, PriorityOf, LoadOk, MultiplyMixed, AddMixed;
  }

  lemma SecondIsSome(s: State, loadAvg: int)
    requires s.loadAvg == loadAvg && LoadAvgOf(loadAvg, 545) == NextLoad(loadAvg) && LoadOk(545, NextLoad(loadAvg))
    ensures AddMixed(MultiplyMixed(NextLoad(loadAvg), 2), 1) != 0
    ensures EverySecond(s, 545).Some? && EverySecond(s, 545).value.loadAvg == NextLoad(loadAvg)
  {
  }

  /** The two recurrences with 545 runnable threads and nice 0, in unbounded arithmetic. */
  function NextLoad(loadAvg: int): int { 16110 * loadAvg / 16384 + 148821 }

  function NextCpu(loadAvg: int, recentCpu: int): int
  {
    if 2 * loadAvg + 16384 <= 0 then 0 else 2 * loadAvg * 16384 / (2 * loadAvg + 16384) * recentCpu / 16384
  }

  lemma NextCpuIs(loadAvg: int, th: Thread)
    requires LoadOk(545, loadAvg) && th.nice == 0 && 0 <= th.recentCpu < 0x0201_0000
    ensures AddMixed(MultiplyMixed(loadAvg, 2), 1) != 0 && RecentCpuOf(loadAvg, th) == NextCpu(loadAvg, th.recentCpu)
  {
    var th1 := th.(priority := 0);
    RecentCpuStep(545, loadAvg, th1);
    DecayStep(545, loadAvg);
    assert RecentCpuOf(loadAvg, th) == RecentCpuOf(loadAvg, th1);
    NextCpuFrom(loadAvg, Decay(loadAvg), th.recentCpu);
    hide RecentCpuOf, Decay, NextCpu, AddMixed, MultiplyMixed;
  }

  lemma NextCpuFrom(loadAvg: int, c: int, recentCpu: nat)
    requires loadAvg >= 0 && c == 2 * loadAvg * 16384 / (2 * loadAvg + 16384) && c >= 0
    ensures NextCpu(loadAvg, recentCpu) == TruncDiv(c * recentCpu, 16384)
  {
    var x := c * recentCpu;
    assert x >= 0;
    assert NextCpu(loadAvg, recentCpu) == x / 16384;
    TruncDivExact(x, 16384);
  }

  lemma {:induction false} TicksBefore(s0: State, ticks: int, loadAvg: int, recentCpu: int, k: nat)
    requires Reached(s0, ticks, loadAvg, recentCpu) && ticks % 100 == 0 && k < 100 && 0 <= recentCpu < 0x0180_0000
    ensures Reached(s0, ticks + k, loadAvg, recentCpu + 16384 * k)
  {
    hide Reached;
    if k > 0 {
      TicksBefore(s0, ticks, loadAvg, recentCpu, k - 1);
      assert (ticks + (k - 1) + 1) % 100 != 0;
      OneTick(s0, ticks + (k - 1), loadAvg, recentCpu + 16384 * (k - 1));
    }
  }

  lemma OneSecond(s0: State, ticks: int, loadAvg: int, recentCpu: int)
    requires Reached(s0, ticks, loadAvg, recentCpu) && ticks % 100 == 0 && 0 <= recentCpu < 0x0180_0000 && LoadOk(545, loadAvg)
    ensures LoadOk(545, NextLoad(loadAvg)) && Reached(s0, ticks + 100, NextLoad(loadAvg), NextCpu(NextLoad(loadAvg), recentCpu + 1638400))
  {
    hide Reached, NextLoad, NextCpu, LoadOk;
    TicksBefore(s0, ticks, loadAvg, recentCpu, 99);
    LastTick(s0, ticks + 99, loadAvg, recentCpu + 16384 * 99);
  }

  // The load average and recent_cpu after each second.
  const SECONDS: seq<(int, int)> := [(0, 0), (148821, 1552900), (295153, 3105011), (439037, 4656267), (580515, 6207070), (719627, 7756882), (856413, 9305824), (990911, 10854046),
    (1123160, 12401711), (1253197, 13948418), (1381059, 15494537), (1506783, 17039868), (1630405, 18584785), (1751959, 20128141), (1871480, 21670887)]

  predicate Follows(a: (int, int), b: (int, int)) {
    NextLoad(a.0) == b.0 && NextCpu(b.0, a.1 + 1638400) == b.1 && 0 <= a.1 < 0x0180_0000
  }

  /** One row of the table, with its decay factor. */
  lemma Row(a: (int, int), b: (int, int), c: int)
    requires 16110 * a.0 / 16384 + 148821 == b.0 >= 0 && c == 2 * b.0 * 16384 / (2 * b.0 + 16384)
    requires c * (a.1 + 1638400) / 16384 == b.1 && 0 <= a.1 < 0x0180_0000
    ensures Follows(a, b)
  {
  }

  lemma AllSeconds()
    ensures forall k: nat | k < 14 :: Follows(SECONDS[k], SECONDS[k + 1])
  {
    hide Follows;
    Row((0, 0), (148821, 1552900), 15529);
    Row((148821, 1552900), (295153, 3105011), 15941);
    Row((295153, 3105011), (439037, 4656267), 16083);
    Row((439037, 4656267), (580515, 6207070), 16156);
    Row((580515, 6207070), (719627, 7756882), 16199);
    Row((719627, 7756882), (856413, 9305824), 16228);
    Row((856413, 9305824), (990911, 10854046), 16249);
    Row((990911, 10854046), (1123160, 12401711), 16265);
    Row((1123160, 12401711), (1253197, 13948418), 16277);
    Row((1253197, 13948418), (1381059, 15494537), 16287);
    Row((1381059, 15494537), (1506783, 17039868), 16295);
    Row((1506783, 17039868), (1630405, 18584785), 16302);
    Row((1630405, 18584785), (1751959, 20128141), 16307);
    Row((1751959, 20128141), (1871480, 21670887), 16312);
  }

  lemma {:induction false} Seconds(s0: State, k: nat)
    requires At(s0, 0, 0, 0) && k <= 14 && forall j: nat | j < 14 :: Follows(SECONDS[j], SECONDS[j + 1])
    ensures LoadOk(545, SECONDS[k].0) && Reached(s0, 100 * k, SECONDS[k].0, SECONDS[k].1)
  {
    if k == 0 {
      assert RunsTo(545, s0, [], Some(s0));
    } else {
      Seconds(s0, k - 1);
      assert Follows(SECONDS[k - 1], SECONDS[k]);
      hide Reached, NextLoad, NextCpu, LoadOk, SECONDS;
      OneSecond(s0, 100 * (k - 1), SECONDS[k - 1].0, SECONDS[k - 1].1);
    }
  }

  /** A thread that has run for fourteen seconds since the start while 544 others were ready
      has a recent_cpu that is read wrongly. */
  lemma RecentCpuMayBeUnreadable(s0: State)
    requires At(s0, 0, 0, 0)
    ensures Reached(s0, 1400, 1871480, 21670887)
    ensures FloatToIntRound(MultiplyMixed(21670887, 100)) != HundredTimesRounded(21670887)
  {
    AllSeconds();
    hide Follows, Reached;
    Seconds(s0, 14);
  }
}
