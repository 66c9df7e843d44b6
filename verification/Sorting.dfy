/** Heap sort and binary search (Project 2/src/lib/stdlib.c). Elements are numbered from 1, as
    there. */
module Sorting {
  import opened Machine

  // ----- comparison -----

  predicate Le<E>(cmp: (E, E) -> int, a: E, b: E) { cmp(a, b) <= 0 }

  /** What a comparison function must be: a total preorder with strcmp()-type results. */
  ghost predicate Order<E(!new)>(cmp: (E, E) -> int) {
    && (forall a, b :: cmp(a, b) > 0 <==> cmp(b, a) < 0)
    && (forall a, b, c :: Le(cmp, a, b) && Le(cmp, b, c) ==> Le(cmp, a, c))
  }

  lemma Total<E(!new)>(cmp: (E, E) -> int, a: E, b: E)
    requires Order(cmp)
    ensures Le(cmp, a, b) || Le(cmp, b, a)
    ensures cmp(a, b) > 0 ==> Le(cmp, b, a)
    ensures Le(cmp, a, a)
  {
  }

  lemma Via<E(!new)>(cmp: (E, E) -> int, a: E, b: E, c: E)
    requires Order(cmp)
    ensures Le(cmp, a, b) && Le(cmp, b, c) ==> Le(cmp, a, c)
    ensures cmp(a, b) < 0 <==> cmp(b, a) > 0
    ensures cmp(a, c) < 0 <==> cmp(c, a) > 0
  {
  }

  function At<E>(s: seq<E>, i: int): E
    requires 1 <= i <= |s|
  {
    s[i - 1]
  }

  /** do_swap */
  function Swap<E>(s: seq<E>, i: int, j: int): (r: seq<E>)
    requires 1 <= i <= |s| && 1 <= j <= |s|
    ensures |r| == |s|
  {
    s[i - 1 := At(s, j)][j - 1 := At(s, i)]
  }

  lemma SwapAt<E>(s: seq<E>, i: int, j: int, k: int)
    requires 1 <= i <= |s| && 1 <= j <= |s| && 1 <= k <= |s|
    ensures At(Swap(s, i, j), k) == if k == i then At(s, j) else if k == j then At(s, i) else At(s, k)
  {
  }

  /** s' has the same elements as s among the first n, and the same others in the same places. */
  ghost predicate Rearranged<E>(s: seq<E>, s': seq<E>, n: nat) {
    |s'| == |s| && n <= |s| && multiset(s'[..n]) == multiset(s[..n]) && s'[n..] == s[n..]
  }

  lemma SwapRearranges<E>(s: seq<E>, i: int, j: int, n: nat)
    requires 1 <= i <= n && 1 <= j <= n && n <= |s|
    ensures Rearranged(s, Swap(s, i, j), n)
  {
    var p := s[..n];
    assert Swap(s, i, j)[..n] == p[i - 1 := p[j - 1]][j - 1 := p[i - 1]];
    assert Swap(s, i, j)[n..] == s[n..];
  }

  lemma RearrangedTrans<E>(a: seq<E>, b: seq<E>, c: seq<E>, n: nat)
    requires Rearranged(a, b, n) && Rearranged(b, c, n)
    ensures Rearranged(a, c, n)
  {
  }

  /** A rearrangement of a prefix is one of the whole. */
  lemma RearrangedAll<E>(s: seq<E>, s': seq<E>, n: nat)
    requires Rearranged(s, s', n)
    ensures multiset(s') == multiset(s)
  {
    assert s == s[..n] + s[n..] && s' == s'[..n] + s'[n..];
  }

  // ----- heaps -----

  /** The element with number c is not above its parent. */
  predicate Below<E>(cmp: (E, E) -> int, s: seq<E>, c: int, p: int)
    requires 1 <= c <= |s| && 1 <= p <= |s|
  {
    Le(cmp, At(s, c), At(s, p))
  }

  /** The first n elements form a heap as far as parents from lo on are concerned. */
  ghost predicate HeapFrom<E>(cmp: (E, E) -> int, s: seq<E>, lo: int, n: nat) {
    n <= |s| && lo >= 1 && forall c | lo <= c / 2 && c <= n :: Below(cmp, s, c, c / 2)
  }

  /** The same except that element i may be below its children; those are not above i's own
      parent. */
  ghost predicate Sifting<E>(cmp: (E, E) -> int, s: seq<E>, lo: int, n: nat, i: int) {
    && n <= |s| && 1 <= lo <= i
    && (forall c | lo <= c / 2 && c <= n && c / 2 != i :: Below(cmp, s, c, c / 2))
    && (forall c | lo <= i / 2 && c / 2 == i && c <= n :: Below(cmp, s, c, i / 2))
  }

  /** One step down: the largest child changes places with its parent. */
  lemma SiftDown<E(!new)>(cmp: (E, E) -> int, s: seq<E>, lo: int, n: nat, i: int, m: int)
    requires Order(cmp) && Sifting(cmp, s, lo, n, i) && m / 2 == i && m <= n && i <= n
    requires cmp(At(s, m), At(s, i)) > 0
    requires forall c | c / 2 == i && c <= n :: Below(cmp, s, c, m)
    ensures Sifting(cmp, Swap(s, i, m), lo, n, m)
  {
    var s' := Swap(s, i, m);
    forall c | lo <= c / 2 && c <= n && c / 2 != m ensures Below(cmp, s', c, c / 2) {
      SwapAt(s, i, m, c);
      SwapAt(s, i, m, c / 2);
      Total(cmp, At(s, m), At(s, i));
      if c == m {
      } else if c / 2 == i {
        assert Below(cmp, s, c, m);
      } else if c == i {
        assert Below(cmp, s, m, i / 2);
      } else {
        assert Below(cmp, s, c, c / 2);
      }
    }
    forall c | lo <= m / 2 && c / 2 == m && c <= n ensures Below(cmp, s', c, m / 2) {
      SwapAt(s, i, m, c);
      SwapAt(s, i, m, i);
      assert Below(cmp, s, c, m);
    }
  }

  lemma SiftDone<E(!new)>(cmp: (E, E) -> int, s: seq<E>, lo: int, n: nat, i: int)
    requires Sifting(cmp, s, lo, n, i) && forall c | c / 2 == i && c <= n :: Below(cmp, s, c, i)
    ensures HeapFrom(cmp, s, lo, n)
  {
    forall c | lo <= c / 2 && c <= n ensures Below(cmp, s, c, c / 2) { }
  }

  /** The root of a heap is the largest element. */
  lemma {:induction false} RootIsLargest<E(!new)>(cmp: (E, E) -> int, s: seq<E>, n: nat, c: int)
    requires Order(cmp) && HeapFrom(cmp, s, 1, n) && 1 <= c <= n
    ensures Le(cmp, At(s, c), At(s, 1))
    decreases c
  {
    if c == 1 {
      Total(cmp, At(s, 1), At(s, 1));
    } else {
      RootIsLargest(cmp, s, n, c / 2);
      assert Below(cmp, s, c, c / 2);
    }
  }

  /** heapify: restores the heap below element i0 and touches nothing outside the heap. */
  method Heapify<E(!new)>(a: array<E>, i0: nat, cnt: nat, cmp: (E, E) -> int)
    requires Order(cmp) && 1 <= i0 && cnt <= a.Length && (cnt > 0 ==> i0 <= cnt) && HeapFrom(cmp, a[..], i0 + 1, cnt)
    modifies a
    ensures HeapFrom(cmp, a[..], i0, cnt) && Rearranged(old(a[..]), a[..], cnt)
  {
    hide Order, Below, Rearranged, Sifting, HeapFrom;
    ghost var s0 := a[..];
    StartSifting(cmp, s0, i0, cnt);
    var i := i0;
    while true
      invariant 1 <= i && (cnt > 0 ==> i <= cnt)
      invariant Sifting(cmp, a[..], i0, cnt, i) && Rearranged(s0, a[..], cnt)
      decreases cnt - i
    {
      ghost var s := a[..];
      var left, right, max := 2 * i, 2 * i + 1, i;
      if left <= cnt && cmp(a[left - 1], a[max - 1]) > 0 { max := left; }
      if right <= cnt && cmp(a[right - 1], a[max - 1]) > 0 { max := right; }
      LargestOfThree(cmp, s, cnt, i, max);
      if max == i {
        SiftDone(cmp, s, i0, cnt, i);
        break;
      }
      SiftDown(cmp, s, i0, cnt, i, max);
      SwapRearranges(s, i, max, cnt);
      RearrangedTrans(s0, s, Swap(s, i, max), cnt);
      a[i - 1], a[max - 1] := a[max - 1], a[i - 1];
      assert a[..] == Swap(s, i, max);
      i := max;
    }
  }

  lemma StartSifting<E>(cmp: (E, E) -> int, s: seq<E>, i: nat, n: nat)
    requires HeapFrom(cmp, s, i + 1, n) && i >= 1
    ensures Sifting(cmp, s, i, n, i) && Rearranged(s, s, n)
  {
  }

  /** The choice of heapify among an element and its children. */
  ghost function Largest<E>(cmp: (E, E) -> int, s: seq<E>, n: nat, i: nat): nat
    requires 1 <= i && n <= |s| && (n > 0 ==> i <= n)
  {
    var m1 := if 2 * i <= n && cmp(At(s, 2 * i), At(s, i)) > 0 then 2 * i else i;
    if 2 * i + 1 <= n && cmp(At(s, 2 * i + 1), At(s, m1)) > 0 then 2 * i + 1 else m1
  }

  lemma AboveBoth<E(!new)>(cmp: (E, E) -> int, a: E, b: E, c: E)
    requires Order(cmp) && cmp(a, b) > 0 && Le(cmp, c, b)
    ensures cmp(a, c) > 0
  {
    Via(cmp, a, c, b);
  }

  lemma LargestOfThree<E(!new)>(cmp: (E, E) -> int, s: seq<E>, n: nat, i: nat, m: nat)
    requires Order(cmp) && 1 <= i && n <= |s| && (n > 0 ==> i <= n) && m == Largest(cmp, s, n, i)
    ensures m == i || (m / 2 == i && m <= n && i <= n && cmp(At(s, m), At(s, i)) > 0)
    ensures n > 0 ==> forall c | c / 2 == i && c <= n :: Below(cmp, s, c, m)
    ensures n == 0 ==> m == i
  {
    if n > 0 {
      var m1 := if 2 * i <= n && cmp(At(s, 2 * i), At(s, i)) > 0 then 2 * i else i;
      Total(cmp, At(s, m), At(s, m));
      Total(cmp, At(s, m1), At(s, m));
      Total(cmp, At(s, i), At(s, m1));
      if m == 2 * i + 1 { AboveBoth(cmp, At(s, m), At(s, m1), At(s, i)); }
      forall c | c / 2 == i && c <= n ensures Below(cmp, s, c, m) {
        assert c == 2 * i || c == 2 * i + 1;
      }
    }
  }

  // ----- sorting -----

  ghost predicate Sorted<E>(cmp: (E, E) -> int, s: seq<E>) {
    forall p, q | 1 <= p <= q <= |s| :: Le(cmp, At(s, p), At(s, q))
  }

  /** The elements from number i + 1 on are sorted, and no other element is above them. */
  ghost predicate Tail<E>(cmp: (E, E) -> int, s: seq<E>, i: nat) {
    && (forall p, q | i < p <= q <= |s| :: Le(cmp, At(s, p), At(s, q)))
    && (forall p, q | 1 <= p <= i < q <= |s| :: Le(cmp, At(s, p), At(s, q)))
  }

  lemma TailSorted<E(!new)>(cmp: (E, E) -> int, s: seq<E>, i: nat)
    requires Order(cmp) && Tail(cmp, s, i) && i <= 1
    ensures Sorted(cmp, s)
  {
    forall p, q | 1 <= p <= q <= |s| ensures Le(cmp, At(s, p), At(s, q)) { Total(cmp, At(s, p), At(s, p)); }
  }

  /** Moving the root to the end extends the sorted tail. */
  lemma TailGrows<E(!new)>(cmp: (E, E) -> int, s: seq<E>, i: nat)
    requires Order(cmp) && 1 < i <= |s| && Tail(cmp, s, i) && HeapFrom(cmp, s, 1, i)
    ensures Tail(cmp, Swap(s, 1, i), i - 1)
  {
    var s' := Swap(s, 1, i);
    forall p | 1 <= p <= i ensures Le(cmp, At(s, p), At(s, 1)) { RootIsLargest(cmp, s, i, p); }
    forall p | 1 <= p <= |s| ensures At(s', p) == if p == 1 then At(s, i) else if p == i then At(s, 1) else At(s, p) { SwapAt(s, 1, i, p); }
    hide Order, HeapFrom, Swap;
  }

  /** What is left below the old root is still a heap except for its own root. */
  lemma HeapShrinks<E>(cmp: (E, E) -> int, s: seq<E>, i: nat)
    requires 1 < i <= |s| && HeapFrom(cmp, s, 1, i)
    ensures HeapFrom(cmp, Swap(s, 1, i), 2, i - 1)
  {
    var s' := Swap(s, 1, i);
    forall c | 2 <= c / 2 && c <= i - 1 ensures Below(cmp, s', c, c / 2) {
      SwapAt(s, 1, i, c);
      SwapAt(s, 1, i, c / 2);
      assert Below(cmp, s, c, c / 2);
    }
  }

  lemma TailKept<E>(cmp: (E, E) -> int, s: seq<E>, s': seq<E>, i: nat)
    requires Tail(cmp, s, i) && Rearranged(s, s', i)
    ensures Tail(cmp, s', i)
  {
    forall q | i < q <= |s| ensures At(s', q) == At(s, q) { assert s'[i..][q - 1 - i] == s[i..][q - 1 - i]; }
    forall p | 1 <= p <= i ensures exists r :: 1 <= r <= i && At(s, r) == At(s', p) { FromPrefix(s, s', i, p); }
  }

  lemma FromPrefix<E>(s: seq<E>, s': seq<E>, i: nat, p: int)
    requires Rearranged(s, s', i) && 1 <= p <= i
    ensures exists r :: 1 <= r <= i && At(s, r) == At(s', p)
  {
    assert s'[..i][p - 1] in multiset(s'[..i]);
    assert At(s', p) in s[..i];
    var r :| 0 <= r < i && s[..i][r] == At(s', p);
    assert At(s, r + 1) == At(s', p);
  }

  lemma RearrangedMore<E>(s: seq<E>, s': seq<E>, n: nat, m: nat)
    requires Rearranged(s, s', n) && n <= m <= |s|
    ensures Rearranged(s, s', m)
  {
    assert s[..m] == s[..n] + s[n..][..m - n] && s'[..m] == s'[..n] + s'[n..][..m - n];
    assert s[m..] == s[n..][m - n..] && s'[m..] == s'[n..][m - n..];
  }

  /** The first loop of sort. */
  method BuildHeap<E(!new)>(a: array<E>, cmp: (E, E) -> int)
    requires Order(cmp)
    modifies a
    ensures HeapFrom(cmp, a[..], 1, a.Length) && Rearranged(old(a[..]), a[..], a.Length)
  {
    hide Order, Below, Rearranged;
    ghost var s0 := a[..];
    StartSame(s0);
    var i := a.Length / 2;
    while i > 0
      invariant i <= a.Length / 2 && HeapFrom(cmp, a[..], i + 1, a.Length) && Rearranged(s0, a[..], a.Length)
    {
      ghost var s := a[..];
      Heapify(a, i, a.Length, cmp);
      RearrangedTrans(s0, s, a[..], a.Length);
      i := i - 1;
    }
  }

  lemma StartSame<E>(s: seq<E>)
    ensures Rearranged(s, s, |s|)
  {
  }

  /** sort leaves a sorted permutation. */
  method Sort<E(!new)>(a: array<E>, cmp: (E, E) -> int)
    requires Order(cmp)
    modifies a
    ensures Sorted(cmp, a[..]) && multiset(a[..]) == multiset(old(a[..]))
  {
    hide Order, Below, Rearranged, HeapFrom, Tail, Sorted;
    ghost var s0 := a[..];
    BuildHeap(a, cmp);
    NoTail(cmp, a[..]);
    var i: nat := a.Length;
    while i > 1
      invariant i <= a.Length && HeapFrom(cmp, a[..], 1, i) && Tail(cmp, a[..], i) && Rearranged(s0, a[..], a.Length)
    {
      ghost var s := a[..];
      TailGrows(cmp, s, i);
      HeapShrinks(cmp, s, i);
      SwapRearranges(s, 1, i, a.Length);
      RearrangedTrans(s0, s, Swap(s, 1, i), a.Length);
      a[0], a[i - 1] := a[i - 1], a[0];
      assert a[..] == Swap(s, 1, i);
      ghost var s1 := a[..];
      Heapify(a, 1, i - 1, cmp);
      TailKept(cmp, s1, a[..], i - 1);
      RearrangedMore(s1, a[..], i - 1, a.Length);
      RearrangedTrans(s0, s1, a[..], a.Length);
      i := i - 1;
    }
    TailSorted(cmp, a[..], i);
    RearrangedAll(s0, a[..], a.Length);
  }

  lemma NoTail<E>(cmp: (E, E) -> int, s: seq<E>)
    ensures Tail(cmp, s, |s|)
  {
  }

  // ----- searching -----

  /** binary_search finds a match exactly when there is one. */
  method BinarySearch<E(!new)>(key: E, a: array<E>, cmp: (E, E) -> int) returns (r: Option<nat>)
    requires Order(cmp) && Sorted(cmp, a[..])
    ensures r.Some? ==> r.value < a.Length && cmp(key, a[r.value]) == 0
    ensures r.None? ==> forall k | 0 <= k < a.Length :: cmp(key, a[k]) != 0
  {
    hide Order, Sorted;
    var first, last := 0, a.Length;
    while first < last
      invariant 0 <= first <= last <= a.Length
      invariant forall k | 0 <= k < first :: cmp(key, a[k]) > 0
      invariant forall k | last <= k < a.Length :: cmp(key, a[k]) < 0
    {
      var range := last - first;
      var middle := first + range / 2;
      var c := cmp(key, a[middle]);
      if c < 0 {
        AllAbove(key, a[..], cmp, middle);
        last := middle;
      } else if c > 0 {
        AllBelow(key, a[..], cmp, middle);
        first := middle + 1;
      } else {
        return Some(middle);
      }
    }
    return None;
  }

  lemma AllAbove<E(!new)>(key: E, s: seq<E>, cmp: (E, E) -> int, m: nat)
    requires Order(cmp) && Sorted(cmp, s) && m < |s| && cmp(key, s[m]) < 0
    ensures forall k | m <= k < |s| :: cmp(key, s[k]) < 0
  {
    forall k | m <= k < |s| ensures cmp(key, s[k]) < 0 {
      assert Le(cmp, At(s, m + 1), At(s, k + 1));
      BelowBoth(cmp, key, s[m], s[k]);
    }
  }

  lemma BelowBoth<E(!new)>(cmp: (E, E) -> int, a: E, b: E, c: E)
    requires Order(cmp) && cmp(a, b) < 0 && Le(cmp, b, c)
    ensures cmp(a, c) < 0
  {
    Total(cmp, a, c);
    Via(cmp, b, c, a);
  }

  lemma AllBelow<E(!new)>(key: E, s: seq<E>, cmp: (E, E) -> int, m: nat)
    requires Order(cmp) && Sorted(cmp, s) && m < |s| && cmp(key, s[m]) > 0
    ensures forall k | 0 <= k <= m :: cmp(key, s[k]) > 0
  {
    forall k | 0 <= k <= m ensures cmp(key, s[k]) > 0 {
      assert Le(cmp, At(s, k + 1), At(s, m + 1));
      AboveBoth(cmp, key, s[m], s[k]);
    }
  }
}
