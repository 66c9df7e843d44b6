/** The bit tricks with which Project 1a/src/lib/kernel/hash.c chooses a number of buckets and
    a bucket. */
module PowerOfTwo {
  import opened Nonlinear

  /** Bitwise and of unsigned integers. */
  function BitAnd(x: nat, y: nat): (z: nat)
    ensures z <= x && z <= y
    decreases x
  {
    if x == 0 then 0 else (x % 2) * (y % 2) + 2 * BitAnd(x / 2, y / 2)
  }

  predicate PowerOf2(x: nat) {
    x == 1 || (x > 1 && x % 2 == 0 && PowerOf2(x / 2))
  }

  /** turn_off_least_1bit */
  function TurnOffLeast1Bit(x: nat): nat
    requires x > 0
  {
    BitAnd(x, x - 1)
  }

  /** is_power_of_2 */
  predicate IsPowerOf2(x: nat) { x != 0 && TurnOffLeast1Bit(x) == 0 }

  /** The largest power of two that is at most x. */
  function Floor(x: nat): (p: nat)
    requires x > 0
    ensures p <= x < 2 * p && p >= 1
  {
    if x == 1 then 1 else 2 * Floor(x / 2)
  }

  lemma {:induction false} FloorIsPower(x: nat)
    requires x > 0
    ensures PowerOf2(Floor(x)) && (PowerOf2(x) <==> Floor(x) == x)
  {
    if x > 1 {
      FloorIsPower(x / 2);
      assert 2 * Floor(x / 2) / 2 == Floor(x / 2);
    }
  }

  lemma {:induction false} AndItself(x: nat)
    ensures BitAnd(x, x) == x
  {
    if x > 0 { AndItself(x / 2); }
  }

  /** Turning off the lowest bit, bit by bit. */
  lemma TurnOffStep(x: nat)
    requires x > 0
    ensures x % 2 == 1 ==> TurnOffLeast1Bit(x) == x - 1
    ensures x % 2 == 0 ==> TurnOffLeast1Bit(x) == 2 * TurnOffLeast1Bit(x / 2)
  {
    if x % 2 == 1 {
      AndItself(x / 2);
      assert (x - 1) / 2 == x / 2;
    } else {
      assert (x - 1) / 2 == x / 2 - 1;
    }
  }

  /** The test for powers of two is right, and turning off the lowest bit of any other number
      makes it smaller without going below the largest power of two in it. */
  lemma {:induction false} TurnOffKeepsFloor(x: nat)
    requires x > 0
    ensures IsPowerOf2(x) <==> PowerOf2(x)
    ensures TurnOffLeast1Bit(x) < x
    ensures !PowerOf2(x) ==> TurnOffLeast1Bit(x) > 0 && Floor(TurnOffLeast1Bit(x)) == Floor(x)
  {
    TurnOffStep(x);
    hide BitAnd, TurnOffLeast1Bit;
    if x % 2 == 0 {
      TurnOffKeepsFloor(x / 2);
      EvenStep(x, TurnOffLeast1Bit(x / 2));
    } else if x > 1 {
      OddFloor(x);
    }
  }

  lemma OddFloor(x: nat)
    requires x > 1 && x % 2 == 1
    ensures Floor(x - 1) == Floor(x) && !PowerOf2(x)
  {
    assert (x - 1) / 2 == x / 2;
  }

  lemma EvenStep(x: nat, y: nat)
    requires x > 0 && x % 2 == 0
    ensures PowerOf2(x) <==> PowerOf2(x / 2)
    ensures y > 0 && Floor(y) == Floor(x / 2) ==> Floor(2 * y) == Floor(x)
  {
    assert 2 * y / 2 == y;
  }

  /** Masking with a power of two less one is the remainder. */
  lemma {:induction false} MaskIsRemainder(x: nat, p: nat)
    requires PowerOf2(p)
    ensures BitAnd(x, p - 1) == x % p
    decreases p
  {
    if p == 1 {
      AndZero(x);
    } else {
      var q := p / 2;
      HalfOfMask(x, q);
      hide BitAnd;
      MaskIsRemainder(x / 2, q);
      RemainderOfDouble(x, q);
    }
  }

  lemma HalfOfMask(x: nat, q: nat)
    requires q > 0
    ensures BitAnd(x, 2 * q - 1) == x % 2 + 2 * BitAnd(x / 2, q - 1)
  {
    assert (2 * q - 1) % 2 == 1 && (2 * q - 1) / 2 == q - 1;
  }

  lemma AndZero(x: nat)
    ensures BitAnd(x, 0) == 0
  {
  }

  lemma RemainderOfDouble(x: nat, q: nat)
    requires q > 0
    ensures x % (2 * q) == x % 2 + 2 * ((x / 2) % q)
  {
    var h := x / 2;
    var k, r := h / q, h % q;
    assert h == k * q + r;
    var d := 2 * q;
    assert k * d == 2 * (k * q);
    DivUnique(x, d, k);
  }

  /** The loop of rehash: the number of buckets for n elements. */
  method BucketCount(elemCnt: nat) returns (cnt: nat)
    ensures PowerOf2(cnt) && cnt >= 4
    ensures elemCnt >= 8 ==> 2 * cnt <= elemCnt
    ensures elemCnt < 4 * cnt
    ensures elemCnt < 8 ==> cnt == 4
  {
    cnt := elemCnt / 2;
    if cnt < 4 { cnt := 4; }
    ghost var wanted := cnt;
    assert Floor(4) == 4;
    FourOrMore(wanted);
    while !IsPowerOf2(cnt)
      invariant 4 <= cnt <= wanted && Floor(cnt) == Floor(wanted)
      decreases cnt
    {
      TurnOffKeepsFloor(cnt);
      cnt := TurnOffLeast1Bit(cnt);
      FourOrMore(wanted);
    }
    TurnOffKeepsFloor(cnt);
    FloorIsPower(cnt);
  }

  lemma FourOrMore(x: nat)
    requires x >= 4
    ensures Floor(x) >= 4
  {
    assert Floor(x / 2 / 2) >= 1;
  }
}
