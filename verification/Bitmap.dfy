/** Bitmaps (Project 1a/src/lib/kernel/bitmap.c): a sequence of bits, and its packed form in
    32-bit elements. */
module Bitmaps {
  import opened Machine

  // ----- bitmaps as sequences of bits -----

  ghost predicate AllMarked(m: seq<bool>, x: nat, cnt: nat) {
    x + cnt <= |m| && forall i | x <= i < x + cnt :: m[i]
  }

  ghost predicate AllFree(m: seq<bool>, x: nat, cnt: nat) {
    x + cnt <= |m| && forall i | x <= i < x + cnt :: !m[i]
  }

  ghost predicate AllEqual(m: seq<bool>, x: nat, cnt: nat, v: bool) {
    x + cnt <= |m| && forall i | x <= i < x + cnt :: m[i] == v
  }

  function SetRange(m: seq<bool>, x: nat, cnt: nat, v: bool): (r: seq<bool>)
    ensures |r| == |m|
    ensures forall i | 0 <= i < |m| :: r[i] == if x <= i < x + cnt then v else m[i]
  {
    seq(|m|, i requires 0 <= i < |m| => if x <= i < x + cnt then v else m[i])
  }

  /** The first group of cnt bits from start on that are all clear. */
  ghost predicate FirstFree(m: seq<bool>, x: nat, cnt: nat) {
    AllFree(m, x, cnt) && forall y: nat | y < x :: !AllFree(m, y, cnt)
  }

  /** bitmap_scan for clear bits from the beginning. */
  method ScanFree(m: seq<bool>, cnt: nat) returns (r: Option<nat>)
    ensures r.None? ==> forall x: nat :: !AllFree(m, x, cnt)
    ensures r.Some? ==> FirstFree(m, r.value, cnt)
  {
    if cnt > |m| { return None; }
    var i := 0;
    while i <= |m| - cnt
      invariant 0 <= i <= |m| - cnt + 1
      invariant forall x: nat | x < i :: !AllFree(m, x, cnt)
    {
      var j := 0;
      while j < cnt && !m[i + j]
        invariant 0 <= j <= cnt && forall k | i <= k < i + j :: !m[k]
      {
        j := j + 1;
      }
      if j == cnt { return Some(i); }
      i := i + 1;
    }
    return None;
  }

  // ----- bits in an element -----

  // The operations on elements have names so that the proofs below can treat them as
  // uninterpreted: each law of Boolean algebra is established once, for whole elements.

  function Or(a: bv32, b: bv32): bv32 { a | b }

  function And(a: bv32, b: bv32): bv32 { a & b }

  function Xor(a: bv32, b: bv32): bv32 { a ^ b }

  function AndNot(a: bv32, b: bv32): bv32 { a & !b }

  /** bit_mask of a bit whose number modulo the element size is i. */
  function Mask(i: nat): bv32
    requires i < 32
  {
    1 << (i as bv32)
  }

  predicate BitAt(w: bv32, i: nat)
    requires i < 32
  {
    And(w, Mask(i)) != 0
  }

  lemma ShiftReturns(a: nat)
    requires a < 32
    ensures (a as bv32) as int == a && (a as bv32) < 32
  {
  }

  lemma ShiftedMeet(i: bv32, j: bv32)
    requires i < 32 && j < 32
    ensures ((1 as bv32) << i) & (1 << j) == if i == j then 1 << j else 0
    ensures (1 as bv32) << j != 0
  {
  }

  lemma MasksMeet(i: nat, j: nat)
    requires i < 32 && j < 32
    ensures And(Mask(i), Mask(j)) == if i == j then Mask(j) else 0
    ensures Mask(j) != 0
  {
    ShiftReturns(i);
    ShiftReturns(j);
    ShiftedMeet(i as bv32, j as bv32);
  }

  lemma OneShifted(w: bv32, j: bv32)
    requires j < 32
    ensures w & (1 << j) == 0 || w & (1 << j) == 1 << j
  {
  }

  lemma OneBit(w: bv32, j: nat)
    requires j < 32
    ensures And(w, Mask(j)) == 0 || And(w, Mask(j)) == Mask(j)
  {
    ShiftReturns(j);
    OneShifted(w, j as bv32);
  }

  lemma OrDistributes(w: bv32, x: bv32, y: bv32)
    ensures And(Or(w, x), y) == Or(And(w, y), And(x, y))
  {
  }

  lemma XorDistributes(w: bv32, x: bv32, y: bv32)
    ensures And(Xor(w, x), y) == Xor(And(w, y), And(x, y))
  {
  }

  lemma AndNotDistributes(w: bv32, x: bv32, y: bv32)
    ensures And(AndNot(w, x), y) == AndNot(And(w, y), And(x, y))
  {
  }

  lemma OrUnits(y: bv32)
    ensures Or(y, 0) == y && Or(0, y) == y && Or(y, y) == y
  {
  }

  lemma XorUnits(y: bv32)
    ensures Xor(y, 0) == y && Xor(0, y) == y && Xor(y, y) == 0
  {
  }

  lemma AndNotUnits(y: bv32)
    ensures AndNot(y, 0) == y && AndNot(0, y) == 0 && AndNot(y, y) == 0
  {
  }

  lemma SetBit(w: bv32, i: nat, j: nat)
    requires i < 32 && j < 32
    ensures BitAt(Or(w, Mask(i)), j) <==> i == j || BitAt(w, j)
  {
    hide Mask, And, Or;
    MasksMeet(i, j);
    OneBit(w, j);
    OrDistributes(w, Mask(i), Mask(j));
    OrUnits(Mask(j));
    OrUnits(0);
  }

  lemma ClearBit(w: bv32, i: nat, j: nat)
    requires i < 32 && j < 32
    ensures BitAt(AndNot(w, Mask(i)), j) <==> i != j && BitAt(w, j)
  {
    hide Mask, And, AndNot;
    MasksMeet(i, j);
    OneBit(w, j);
    AndNotDistributes(w, Mask(i), Mask(j));
    AndNotUnits(Mask(j));
    AndNotUnits(0);
  }

  lemma FlipBit(w: bv32, i: nat, j: nat)
    requires i < 32 && j < 32
    ensures BitAt(Xor(w, Mask(i)), j) <==> (i == j) != BitAt(w, j)
  {
    hide Mask, And, Xor;
    MasksMeet(i, j);
    OneBit(w, j);
    XorDistributes(w, Mask(i), Mask(j));
    XorUnits(Mask(j));
    XorUnits(0);
  }

  // ----- packed bitmaps -----

  predicate TestIn(words: seq<bv32>, k: nat)
    requires k < 32 * |words|
  {
    BitAt(words[k / 32], k % 32)
  }

  /** The bits of a packed bitmap in order. */
  function Unpacked(words: seq<bv32>, n: nat): (m: seq<bool>)
    requires n <= 32 * |words|
    ensures |m| == n
  {
    seq(n, k requires 0 <= k < n => TestIn(words, k))
  }

  /** Changing one bit of one element changes one bit of the bitmap. */
  lemma OneElement(words: seq<bv32>, n: nat, k: nat, w: bv32, v: bool)
    requires n <= 32 * |words| && k < n
    requires OnlyBit(words[k / 32], w, k % 32, v)
    ensures Unpacked(words[k / 32 := w], n) == Unpacked(words, n)[k := v]
  {
    hide BitAt;
    var l, r := Unpacked(words[k / 32 := w], n), Unpacked(words, n)[k := v];
    forall i: nat | i < n ensures l[i] == r[i] {
      assert i == 32 * (i / 32) + i % 32 && k == 32 * (k / 32) + k % 32;
    }
  }

  class Bitmap {
    const bitCnt: nat
    const bits: array<bv32>

    ghost predicate Valid()
      reads this, bits
    {
      bitCnt <= 32 * bits.Length
    }

    ghost function Contents(): seq<bool>
      reads this, bits
      requires Valid()
    {
      Unpacked(bits[..], bitCnt)
    }

    /** bitmap_create, when its two allocations succeed. */
    constructor (cnt: nat)
      ensures Valid() && bitCnt == cnt && fresh(bits)
      ensures Contents() == seq(cnt, _ => false)
    {
      bitCnt := cnt;
      bits := new bv32[(cnt + 31) / 32];
      new;
      SetAll(false);
    }

    /** bitmap_mark */
    method Mark(k: nat)
      requires Valid() && k < bitCnt
      modifies bits
      ensures Contents() == old(Contents())[k := true]
    {
      hide Mask, BitAt, And, Or, AndNot, Unpacked;
      MarkElement(bits[k / 32], k % 32);
      Store(k, Or(bits[k / 32], Mask(k % 32)), true);
    }

    /** bitmap_reset */
    method Reset(k: nat)
      requires Valid() && k < bitCnt
      modifies bits
      ensures Contents() == old(Contents())[k := false]
    {
      hide Mask, BitAt, And, Or, AndNot, Unpacked;
      ResetElement(bits[k / 32], k % 32);
      Store(k, AndNot(bits[k / 32], Mask(k % 32)), false);
    }

    /** bitmap_flip */
    method Flip(k: nat)
      requires Valid() && k < bitCnt
      modifies bits
      ensures Contents() == old(Contents())[k := !old(Contents())[k]]
    {
      hide Mask, BitAt, And, Xor;
      FlipElement(bits[k / 32], k % 32);
      Store(k, Xor(bits[k / 32], Mask(k % 32)), !BitAt(bits[k / 32], k % 32));
    }

    /** The one store that each of the three makes. */
    method Store(k: nat, w: bv32, ghost v: bool)
      requires Valid() && k < bitCnt && OnlyBit(bits[k / 32], w, k % 32, v)
      modifies bits
      ensures Contents() == old(Contents())[k := v]
    {
      hide BitAt, Unpacked;
      ghost var was := bits[..];
      OneElement(was, bitCnt, k, w, v);
      bits[k / 32] := w;
      assert bits[..] == was[k / 32 := w];
    }

    /** bitmap_test */
    method Test(k: nat) returns (b: bool)
      requires Valid() && k < bitCnt
      ensures b == Contents()[k]
    {
      hide Mask, And;
      b := And(bits[k / 32], Mask(k % 32)) != 0;
    }

    /** bitmap_set */
    method Set(k: nat, value: bool)
      requires Valid() && k < bitCnt
      modifies bits
      ensures Contents() == old(Contents())[k := value]
    {
      if value { Mark(k); } else { Reset(k); }
    }

    /** bitmap_set_multiple */
    method SetMultiple(start: nat, cnt: nat, value: bool)
      requires Valid() && start + cnt <= bitCnt
      modifies bits
      ensures Contents() == SetRange(old(Contents()), start, cnt, value)
    {
      hide Unpacked;
      for i := 0 to cnt
        invariant Contents() == SetRange(old(Contents()), start, i, value)
      {
        Set(start + i, value);
      }
    }

    /** bitmap_set_all */
    method SetAll(value: bool)
      requires Valid()
      modifies bits
      ensures Contents() == seq(bitCnt, _ => value)
    {
      SetMultiple(0, bitCnt, value);
    }

    /** bitmap_contains */
    method Contains(start: nat, cnt: nat, value: bool) returns (b: bool)
      requires Valid() && start + cnt <= bitCnt
      ensures b <==> !AllEqual(Contents(), start, cnt, !value)
    {
      hide Unpacked;
      for i := 0 to cnt
        invariant forall j | start <= j < start + i :: Contents()[j] == !value
      {
        var t := Test(start + i);
        if t == value { return true; }
      }
      return false;
    }

    /** bitmap_count */
    method Count(start: nat, cnt: nat, value: bool) returns (n: nat)
      requires Valid() && start + cnt <= bitCnt
      ensures n == |set j | start <= j < start + cnt && Contents()[j] == value|
    {
      hide Unpacked;
      n := 0;
      ghost var seen: set<int> := {};
      for i := 0 to cnt
        invariant seen == (set j | start <= j < start + i && Contents()[j] == value) && n == |seen|
      {
        var t := Test(start + i);
        if t == value {
          n := n + 1;
          seen := seen + {start + i};
        }
      }
    }

    /** bitmap_scan */
    method Scan(start: nat, cnt: nat, value: bool) returns (r: Option<nat>)
      requires Valid() && start <= bitCnt
      ensures r.None? ==> forall x: nat | x >= start :: !AllEqual(Contents(), x, cnt, value)
      ensures r.Some? ==> r.value >= start && AllEqual(Contents(), r.value, cnt, value)
      ensures r.Some? ==> forall x: nat | start <= x < r.value :: !AllEqual(Contents(), x, cnt, value)
    {
      hide Unpacked;
      if cnt <= bitCnt {
        var i := start;
        while i <= bitCnt - cnt
          invariant start <= i
          invariant forall x: nat | start <= x < i :: !AllEqual(Contents(), x, cnt, value)
        {
          var other := Contains(i, cnt, !value);
          if !other { return Some(i); }
          i := i + 1;
        }
      }
      return None;
    }

    /** bitmap_scan_and_flip */
    method ScanAndFlip(start: nat, cnt: nat, value: bool) returns (r: Option<nat>)
      requires Valid() && start <= bitCnt
      modifies bits
      ensures r.None? ==> Contents() == old(Contents()) && forall x: nat | x >= start :: !AllEqual(Contents(), x, cnt, value)
      ensures r.Some? ==> r.value >= start && AllEqual(old(Contents()), r.value, cnt, value)
      ensures r.Some? ==> forall x: nat | start <= x < r.value :: !AllEqual(old(Contents()), x, cnt, value)
      ensures r.Some? ==> Contents() == SetRange(old(Contents()), r.value, cnt, !value)
    {
      hide Unpacked;
      r := Scan(start, cnt, value);
      if r.Some? { SetMultiple(r.value, cnt, !value); }
    }
  }

  /** w' is w with bit j set to v. */
  predicate OnlyBit(w: bv32, w': bv32, j: nat, v: bool)
    requires j < 32
  {
    forall i: nat | i < 32 :: BitAt(w', i) == if i == j then v else BitAt(w, i)
  }

  lemma MarkElement(w: bv32, j: nat)
    requires j < 32
    ensures OnlyBit(w, Or(w, Mask(j)), j, true)
  {
    hide BitAt, Mask, Or;
    forall i: nat | i < 32 ensures BitAt(Or(w, Mask(j)), i) == (i == j || BitAt(w, i)) { SetBit(w, j, i); }
  }

  lemma ResetElement(w: bv32, j: nat)
    requires j < 32
    ensures OnlyBit(w, AndNot(w, Mask(j)), j, false)
  {
    hide BitAt, Mask, AndNot;
    forall i: nat | i < 32 ensures BitAt(AndNot(w, Mask(j)), i) == (i != j && BitAt(w, i)) { ClearBit(w, j, i); }
  }

  lemma FlipElement(w: bv32, j: nat)
    requires j < 32
    ensures OnlyBit(w, Xor(w, Mask(j)), j, !BitAt(w, j))
  {
    hide BitAt, Mask, Xor;
    forall i: nat | i < 32 ensures BitAt(Xor(w, Mask(j)), i) == ((i == j) != BitAt(w, i)) { FlipBit(w, j, i); }
  }
}
