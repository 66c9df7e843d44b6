/** 64-bit division built from the x86 instruction that divides 64 bits by 32 bits
    (Project 2/src/lib/arithmetic.c). */
module Division64 {
  import opened Machine
  import opened Nonlinear

  /** x shifted left by k bits in unbounded arithmetic. */
  function Shl(x: int, k: nat): int {
    if k == 0 then x else 2 * Shl(x, k - 1)
  }

  lemma {:induction false} ShlAdd(x: int, a: nat, b: nat)
    ensures Shl(x, a + b) == Shl(Shl(x, a), b)
  {
    if b > 0 {
      ShlAdd(x, a, b - 1);
      assert Shl(x, a + b) == 2 * Shl(x, a + b - 1);
    }
  }

  lemma {:induction false} ShlMono(x: int, y: int, k: nat)
    requires x < y
    ensures Shl(x, k) < Shl(y, k)
  {
    if k > 0 { ShlMono(x, y, k - 1); }
  }

  /** A shift is a product with a power of two. */
  lemma {:induction false} ShlIsProduct(x: int, k: nat)
    ensures Shl(x, k) == x * Shl(1, k) && Shl(1, k) >= 1
  {
    if k > 0 {
      ShlIsProduct(x, k - 1);
      assert x * (2 * Shl(1, k - 1)) == 2 * (x * Shl(1, k - 1));
    }
  }

  lemma ShlTable(x: int)
    ensures Shl(x, 1) == x * 2 && Shl(x, 2) == x * 4 && Shl(x, 4) == x * 0x10
    ensures Shl(x, 8) == x * 0x100 && Shl(x, 16) == x * 0x1_0000
  {
    forall y {:trigger Shl(y, 2)} ensures Shl(y, 2) == y * 4 { assert Shl(y, 1) == 2 * y; }
    forall y {:trigger Shl(y, 4)} ensures Shl(y, 4) == y * 0x10 { ShlAdd(y, 2, 2); }
    forall y {:trigger Shl(y, 8)} ensures Shl(y, 8) == y * 0x100 { ShlAdd(y, 4, 4); }
    ShlAdd(x, 8, 8);
  }

  lemma Shl31(x: int)
    ensures Shl(x, 31) == x * B31
  {
    ShlTable(x);
    ShlAdd(x, 16, 16);
    ShlTable(Shl(x, 16));
    ShlAdd(x, 31, 1);
  }

  /** The DIVL instruction. None is the divide error: a zero divisor, or a quotient
      that does not fit in 32 bits. */
  function DivL(n: u64, d: u32): Option<u32> {
    if d == 0 || n / d >= B32 then None else Some(n / d)
  }

  /** Counts the leading zero bits of a nonzero word: bit 31 - n is its highest set bit. */
  method Nlz(x0: u32) returns (n: int)
    requires x0 != 0
    ensures 0 <= n <= 31
    ensures Shl(1, 31 - n) <= x0 < 2 * Shl(1, 31 - n)
  {
    ShlTable(1);
    var x := x0;
    n := 0;
    if x <= 0x0000FFFF { ShiftStep(x0, n, x, 16, 0x10000); n, x := n + 16, U32(x * 0x10000); }
    assert Shifted(x0, n, x) && n <= 16 && 0x10000 <= x;
    if x <= 0x00FFFFFF { ShiftStep(x0, n, x, 8, 0x100); n, x := n + 8, U32(x * 0x100); }
    assert Shifted(x0, n, x) && n <= 24 && 0x1000000 <= x;
    if x <= 0x0FFFFFFF { ShiftStep(x0, n, x, 4, 0x10); n, x := n + 4, U32(x * 0x10); }
    assert Shifted(x0, n, x) && n <= 28 && 0x10000000 <= x;
    if x <= 0x3FFFFFFF { ShiftStep(x0, n, x, 2, 4); n, x := n + 2, U32(x * 4); }
    assert Shifted(x0, n, x) && n <= 30 && 0x40000000 <= x;
    ghost var y := x;
    if x <= 0x7FFFFFFF { ShiftStep(x0, n, x, 1, 2); n, y := n + 1, x * 2; }
    HighestBit(x0, n, y);
  }

  predicate Shifted(x0: int, n: nat, x: int) { x == Shl(x0, n) }

  /** One step of Nlz: shifting a word that has k leading zeros loses no bits. */
  lemma ShiftStep(x0: int, n: nat, x: u32, k: nat, f: int)
    requires Shifted(x0, n, x) && x * f < B32
    requires k in {1, 2, 4, 8, 16} && f == Shl(1, k)
    ensures U32(x * f) == x * f && Shifted(x0, n + k, x * f)
  {
    ShlAdd(x0, n, k);
    ShlIsProduct(x, k);
  }

  lemma HighestBit(x0: int, n: nat, x: int)
    requires n <= 31 && Shifted(x0, n, x) && B31 <= x < B32
    ensures Shl(1, 31 - n) <= x0 < 2 * Shl(1, 31 - n)
  {
    var a := Shl(1, 31 - n);
    ShlAdd(1, 31 - n, n);
    Shl31(1);
    assert Shl(a, n) == B31;
    if x0 < a { ShlMono(x0, a, n); }
    ShlAdd(a, 1, n);
    ShlAdd(a, n, 1);
    if 2 * a < x0 { ShlMono(2 * a, x0, n); }
  }

  /** The small-divisor case: long division in base 2^32, high word first. Dividing the
      high word by zero traps too. */
  function DivideBySmall(n: u64, d: u32): Option<u64> {
    if d == 0 then None else
      var n1, n0 := n / 0x1_0000_0000, n % 0x1_0000_0000;
      SecondDigit(n1 / d, n1 % d, n0, d)
  }

  function SecondDigit(h: u32, r: u32, n0: u32, d: u32): Option<u64> {
    match DivL(U64(0x1_0000_0000 * r + n0), d)
    case None => None
    case Some(low) => Some(U64(low + 0x1_0000_0000 * h))
  }

  lemma DivideBySmallIsFloor(n: u64, d: u32)
    requires d != 0
    ensures DivideBySmall(n, d) == Some(n / d)
  {
    var n1 := n / 0x1_0000_0000;
    QuotientAndRemainder(n1, d);
    SecondDigitIsFloor(n, d, n1, n % 0x1_0000_0000, n1 / d, n1 % d);
  }

  lemma QuotientAndRemainder(n: int, d: int)
    requires n >= 0 && d > 0
    ensures n == d * (n / d) + n % d && 0 <= n / d <= n && 0 <= n % d < d
  {
    QuotientShrinks(n, d);
  }

  lemma SecondDigitIsFloor(n: u64, d: u32, n1: u32, n0: u32, h: u32, r: u32)
    requires d != 0 && n == 0x1_0000_0000 * n1 + n0
    requires n1 == d * h + r && r < d
    ensures SecondDigit(h, r, n0, d) == Some(n / d)
  {
    LowWordFits(r, n0, d);
    LongDivision(n, d, n1, n0, h, r, (0x1_0000_0000 * r + n0) / d);
  }

  lemma LowWordFits(r: int, n0: u32, d: u32)
    requires 0 <= r < d
    ensures 0 <= 0x1_0000_0000 * r + n0 < B64 && 0 <= (0x1_0000_0000 * r + n0) / d < B32
  {
    var m := 0x1_0000_0000 * r + n0;
    DivLess(m, d, 0x1_0000_0000);
    DivAtLeast(m, d, 0);
  }

  lemma LongDivision(n: int, d: int, n1: int, n0: int, h: int, r: int, q: int)
    requires d > 0 && 0 <= n < B64 && n == 0x1_0000_0000 * n1 + n0
    requires n1 == d * h + r && q == (0x1_0000_0000 * r + n0) / d && q >= 0 && h >= 0
    ensures n / d == q + 0x1_0000_0000 * h < B64
  {
    var m := 0x1_0000_0000 * r + n0;
    DivBounds(m, d);
    var p := q + 0x1_0000_0000 * h;
    assert p * d == q * d + 0x1_0000_0000 * (d * h);
    assert (q + 1) * d == q * d + d;
    DivUnique(n, d, p);
    MulMono(1, d, p);
    assert d * p == p * d;
  }

  /** The normalised divisor: v is the top word of d shifted left by s, f = 2^(31-s).
      2 f v approximates d from below, with an error less than 2 f. */
  lemma Normalise(d: u64, s: nat, v: int, f: int)
    requires s <= 31 && f == Shl(1, 31 - s)
    requires f <= d / 0x1_0000_0000 < 2 * f
    requires v == Shl(d, s) / 0x1_0000_0000
    ensures 0 <= Shl(d, s) < B64 && B31 <= v < B32
    ensures f >= 1 && 2 * (f * v) <= d < 2 * (f * v) + 2 * f
  {
    var k := Shl(1, s);
    ShlIsProduct(d, s);
    ShiftFactors(s);
    ScaledBounds(d, k, f);
    NormaliseError(d, k, f, v, d * k);
  }

  lemma ShiftFactors(s: nat)
    requires s <= 31
    ensures Shl(1, s) >= 1 && Shl(1, 31 - s) >= 1
    ensures Shl(1, 31 - s) * Shl(1, s) == 0x8000_0000
  {
    ShlIsProduct(1, s);
    ShlIsProduct(1, 31 - s);
    ShlAdd(1, 31 - s, s);
    ShlIsProduct(Shl(1, 31 - s), s);
    Shl31(1);
  }

  lemma ScaledBounds(d: int, k: int, f: int)
    requires k >= 1 && f >= 1 && f * k == 0x8000_0000
    requires f * 0x1_0000_0000 <= d < 2 * f * 0x1_0000_0000
    ensures 0x8000_0000_0000_0000 <= d * k < 0x1_0000_0000_0000_0000
  {
    var m := f * 0x1_0000_0000;
    MulMono(m, d, k);
    MulLess(d, 2 * m, k);
    assert m * k == 0x1_0000_0000 * (f * k);
    assert (2 * m) * k == 2 * (m * k);
  }

  lemma NormaliseError(d: int, k: int, f: int, v: int, dk: int)
    requires k >= 1 && f >= 1 && f * k == 0x8000_0000
    requires dk == d * k && v == dk / 0x1_0000_0000
    ensures 2 * (f * v) <= d < 2 * (f * v) + 2 * f
  {
    // k (d - 2 f v) is the remainder, and it is below 2^32 = 2 f k.
    var e := d - 2 * (f * v);
    assert e * k == dk % 0x1_0000_0000 by {
      assert (f * v) * k == v * (f * k);
      assert e * k == d * k - 2 * ((f * v) * k);
    }
    if e < 0 { MulLess(e, 0, k); }
    assert (2 * f) * k == 2 * (f * k);
    if e >= 2 * f { MulMono(2 * f, e, k); }
  }

  /** The estimate q = n div 2fv is the true quotient or one more, and
      (q - 1) d never exceeds n. */
  lemma Estimate(n: u64, d: u64, f: int, v: int, q: int)
    requires f >= 1 && B31 <= v
    requires 2 * (f * v) <= d < 2 * (f * v) + 2 * f && d <= n
    requires q == n / (2 * (f * v))
    ensures q >= 1 && n / d <= q <= n / d + 1
    ensures 0 <= (q - 1) * d <= n
  {
    var g := 2 * (f * v);
    MulMono(B31, v, f);
    assert g >= 0x1_0000_0000 * f by { assert B31 * f <= v * f; }
    DivBounds(n, g);
    DivBounds(n, d);
    DivAtLeast(n, g, 1);
    DivAtLeast(n, d, 1);
    MulMono(g, d, n / d);
    DivAtLeast(n, g, n / d) by { assert (n / d) * g == g * (n / d) && (n / d) * d == d * (n / d); }
    EstimateNotLarge(n, d, f, g, q);
    DivAtLeast(n, d, q - 1);
  }

  lemma EstimateNotLarge(n: u64, d: u64, f: int, g: int, q: int)
    requires f >= 1 && q >= 1 && g >= 0x1_0000_0000 * f
    requires g <= d < g + 2 * f && q * g <= n
    ensures 0 <= (q - 1) * d <= n
  {
    var p := q - 1;
    MulNonneg(p, d);
    EstimateExcess(f, g, q) by { MulMono(B32 * f, g, q); assert g * q == q * g; }
    MulMono(d, g + 2 * f - 1, p);
    assert d * p == p * d && (g + 2 * f - 1) * p == q * g - g + p * (2 * f - 1);
  }

  /** The excess (q - 1) (2f - 1) is at most g, because q f < 2^32. */
  lemma EstimateExcess(f: int, g: int, q: int)
    requires f >= 1 && q >= 1 && g >= 0x1_0000_0000 * f
    requires (0x1_0000_0000 * f) * q < B64
    ensures (q - 1) * (2 * f - 1) <= g
  {
    var qf := q * f;
    assert (0x1_0000_0000 * f) * q == 0x1_0000_0000 * qf;
    assert (q - 1) * (2 * f - 1) == 2 * qf - q - 2 * f + 1;
    if f == 1 { assert qf == q; }
  }

  /** The large-divisor case: with s = nlz (d >> 32), the instruction does not trap and
      its quotient shifted right by 31 - s is the estimate. */
  lemma LargeDivisor(n: u64, d: u64, s: nat)
    requires d <= n && s <= 31
    requires Shl(1, 31 - s) <= d / 0x1_0000_0000 < 2 * Shl(1, 31 - s)
    ensures 0 <= Shl(d, s) < B64
    ensures DivL(n / 2, Shl(d, s) / 0x1_0000_0000).Some?
    ensures Shl(1, 31 - s) > 0
    ensures var q := DivL(n / 2, Shl(d, s) / 0x1_0000_0000).value / Shl(1, 31 - s);
            q >= 1 && n / d <= q <= n / d + 1 && 0 <= (q - 1) * d <= n
  {
    var f, v := Shl(1, 31 - s), Shl(d, s) / 0x1_0000_0000;
    Normalise(d, s, v, f);
    DivLess(n / 2, v, 0x1_0000_0000);
    ShiftedQuotient(n, v, f);
    Estimate(n, d, f, v, n / 2 / v / f);
  }

  lemma ShiftedQuotient(n: int, v: int, f: int)
    requires n >= 0 && v >= 1 && f >= 1
    ensures f * v >= 1 && n / 2 / v / f == n / (2 * (f * v))
  {
    DivDiv(n / 2, v, f);
    assert v * f == f * v;
    DivDiv(n, 2, f * v);
  }

  /** The final correction picks the true quotient of the two candidates. */
  lemma Correction(n: u64, d: u64, q: int)
    requires d > 0 && q >= 1 && n / d <= q <= n / d + 1 && 0 <= (q - 1) * d <= n
    ensures n / d == if n - (q - 1) * d < d then q - 1 else q
  {
    if n - (q - 1) * d < d {
      DivUnique(n, d, q - 1);
    } else {
      assert q * d == (q - 1) * d + d;
      DivAtLeast(n, d, q);
    }
  }

  /** Unsigned 64-bit division: the floor of the quotient, or a divide error for a zero
      divisor. No other input makes the 32-bit instruction trap. */
  method UDiv64(n: u64, d: u64) returns (q: Option<u64>)
    ensures q == if d == 0 then None else Some(n / d)
  {
    if d / 0x1_0000_0000 == 0 {
      q := DivideBySmall(n, d);
      if d != 0 { DivideBySmallIsFloor(n, d); }
    } else if n < d {
      DivUnique(n, d, 0);
      q := Some(0);
    } else {
      var s := Nlz(d / 0x1_0000_0000);
      LargeDivisor(n, d, s);
      var top := DivL(n / 2, U64(Shl(d, s)) / 0x1_0000_0000);
      var est := top.value / Shl(1, 31 - s);
      Correction(n, d, est);
      q := Some(if U64(n - U64((est - 1) * d)) < d then est - 1 else est);
    }
  }

  /** The magnitude of a signed operand as an unsigned word; negation wraps. */
  function Magnitude(x: s64): (m: int)
    ensures 0 <= m < B64
    ensures m == if x < 0 then 0 - x else x
  {
    if x >= 0 then U64(x) else U64(0 - U64(x))
  }

  /** Signed division truncates toward zero. The one exception is the quotient that does
      not fit: INT64_MIN / -1 wraps to INT64_MIN. */
  method SDiv64(n: s64, d: s64) returns (q: Option<s64>)
    ensures q == if d == 0 then None
                 else if n == -B63 && d == -1 then Some(-B63)
                 else Some(TruncDiv(n, d))
  {
    var qAbs := UDiv64(Magnitude(n), Magnitude(d));
    if qAbs.None? { return None; }
    SignedQuotient(n, d);
    q := Some(if (n < 0) == (d < 0) then S64(qAbs.value) else S64(0 - S64(qAbs.value)));
  }

  lemma SignedQuotient(n: s64, d: s64)
    requires d != 0
    ensures Magnitude(d) > 0 && 0 <= Magnitude(n) / Magnitude(d) < B64
    ensures var m := Magnitude(n) / Magnitude(d);
            (if (n < 0) == (d < 0) then S64(m) else S64(0 - S64(m)))
            == if n == -B63 && d == -1 then -B63 else TruncDiv(n, d)
  {
    var a, b := Magnitude(n), Magnitude(d);
    TruncDivByMagnitude(n, d, a, b);
    QuotientShrinks(a, b);
    if b == 1 { DivUnique(a, 1, a); }
  }

  lemma TruncDivByMagnitude(n: int, d: int, a: int, b: int)
    requires d != 0 && a == (if n < 0 then 0 - n else n) && b == (if d < 0 then 0 - d else d)
    ensures TruncDiv(n, d) == if (n < 0) == (d < 0) then a / b else -(a / b)
  {
    NegativeDivisor(a, b);
  }

  /** Euclidean division by a negative divisor negates the quotient. */
  lemma NegativeDivisor(a: int, b: int)
    requires a >= 0 && b > 0
    ensures a / (0 - b) == -(a / b)
  {
  }

  lemma QuotientShrinks(a: int, b: int)
    requires a >= 0 && b > 0
    ensures 0 <= a / b <= a
    ensures b > 1 ==> 2 * (a / b) <= a
  {
    DivAtLeast(a, b, 0);
    DivBounds(a, b);
    var q := a / b;
    assert b * q == q * b && 1 * q == q;
    MulMono(1, b, q);
    if b > 1 { MulMono(2, b, q); }
  }

  /** The remainder has the sign of the dividend and is smaller than the divisor. */
  lemma TruncModRange(n: int, d: int, b: int)
    requires d != 0 && b == (if d < 0 then 0 - d else d)
    ensures n >= 0 ==> 0 <= TruncMod(n, d) < b && TruncMod(n, d) <= n
    ensures n < 0 ==> -b < TruncMod(n, d) <= 0 && n <= TruncMod(n, d)
  {
    var a := if n < 0 then 0 - n else n;
    TruncDivByMagnitude(n, d, a, b);
    DivBounds(a, b);
    DivAtLeast(a, b, 0);
    var q := a / b;
    assert (q + 1) * b == q * b + b;
    MulNonneg(q, b);
    assert d * q == (if d < 0 then -(q * b) else q * b);
    assert d * -q == -(d * q);
  }

  /** The 32-bit remainder routines return the low 32 bits of the true remainder. */
  method UMod64(n: u64, d: u64) returns (r: Option<u32>)
    ensures r == if d == 0 then None else Some(U32(n % d))
  {
    var q := UDiv64(n, d);
    if q.None? { return None; }
    Remainder(n, d);
    r := Some(U32(U64(n - U64(d * q.value))));
  }

  lemma Remainder(n: int, d: int)
    requires n >= 0 && d > 0
    ensures 0 <= d * (n / d) <= n && n - d * (n / d) == n % d
  {
    QuotientShrinks(n, d);
    MulNonneg(d, n / d);
  }

  method SMod64(n: s64, d: s64) returns (r: Option<s32>)
    ensures r == if d == 0 then None else Some(S32(TruncMod(n, d)))
  {
    var q := SDiv64(n, d);
    if q.None? { return None; }
    TruncModRange(n, d, Magnitude(d));
    if n == -B63 && d == -1 { assert TruncMod(n, d) == 0; }
    r := Some(S32(S64(n - S64(d * q.value))));
  }

  /** For a given divisor, umod64 is the true remainder on every dividend exactly when the
      divisor is at most 2^32. */
  lemma UModExact(d: u64)
    requires d != 0
    ensures (forall n: u64 :: U32(n % d) == n % d) <==> d <= B32
  {
    if d > B32 {
      DivUnique(B32, d, 0);
      assert U32(B32 % d) != B32 % d;
    }
  }

  /** smod64 is exact on every dividend exactly when the divisor is within 2^31 of zero. */
  lemma SModExact(d: s64)
    requires d != 0
    ensures (forall n: s64 :: S32(TruncMod(n, d)) == TruncMod(n, d)) <==> -B31 <= d <= B31
  {
    if -B31 <= d <= B31 {
      forall n: s64 ensures S32(TruncMod(n, d)) == TruncMod(n, d) {
        TruncModRange(n, d, Magnitude(d));
      }
    } else {
      TruncDivByMagnitude(B31, d, B31, Magnitude(d));
      DivUnique(B31, Magnitude(d), 0);
      assert TruncMod(B31, d) == B31;
      assert S32(TruncMod(B31, d)) != TruncMod(B31, d);
    }
  }
}
