/** Project 1a/src/lib/kernel/hash.c: a table of buckets that stores at most one element of
    every class of equal elements. */
module HashTable {
  import opened Machine
  import opened PowerOfTwo

  // ----- equality of elements -----

  /** Two elements are equal when neither is less than the other. */
  predicate Same<E>(less: (E, E) -> bool, a: E, b: E) { !less(a, b) && !less(b, a) }

  /** What the callers promise: equality is an equivalence, and equal elements hash equal. */
  ghost predicate Sound<E(!new)>(hash: E -> nat, less: (E, E) -> bool) {
    && (forall a :: Same(less, a, a))
    && (forall a, b, c :: Same(less, a, b) && Same(less, b, c) ==> Same(less, a, c))
    && (forall a, b :: Same(less, a, b) ==> hash(a) == hash(b))
  }

  // ----- the elements of a table -----

  ghost function Bag<E>(bs: seq<seq<E>>): multiset<E> {
    if bs == [] then multiset{} else multiset(bs[0]) + Bag(bs[1..])
  }

  lemma {:induction false} BagUpdate<E>(bs: seq<seq<E>>, i: nat, b: seq<E>)
    requires i < |bs|
    ensures Bag(bs[i := b]) == Bag(bs) - multiset(bs[i]) + multiset(b)
    ensures multiset(bs[i]) <= Bag(bs)
  {
    if i == 0 {
      assert bs[i := b][1..] == bs[1..];
    } else {
      assert bs[i := b][1..] == bs[1..][i - 1 := b];
      BagUpdate(bs[1..], i - 1, b);
    }
  }

  lemma {:induction false} BagContents<E>(bs: seq<seq<E>>, e: E)
    ensures e in Bag(bs) <==> exists i: nat :: i < |bs| && e in bs[i]
  {
    if bs != [] {
      BagContents(bs[1..], e);
      if i: nat :| i < |bs| && e in bs[i] {
        if i > 0 { assert e in bs[1..][i - 1]; }
      }
      if i: nat :| i < |bs[1..]| && e in bs[1..][i] { assert e in bs[i + 1]; }
    }
  }

  lemma {:induction false} EmptyBag<E>(bs: seq<seq<E>>)
    requires forall i | 0 <= i < |bs| :: bs[i] == []
    ensures Bag(bs) == multiset{}
  {
    if bs != [] { EmptyBag(bs[1..]); }
  }

  /** The bucket of an element among n buckets. */
  function Bucket<E>(hash: E -> nat, e: E, n: nat): nat
    requires n > 0
  {
    BitAnd(hash(e), n - 1)
  }

  ghost predicate Placed<E>(hash: E -> nat, bs: seq<seq<E>>) {
    forall i, e | 0 <= i < |bs| && e in bs[i] :: i == Bucket(hash, e, |bs|)
  }

  /** No element is stored twice, and no two stored elements are equal. */
  ghost predicate Distinct<E>(less: (E, E) -> bool, m: multiset<E>) {
    && (forall a | a in m :: m[a] == 1)
    && (forall a, b | a in m && b in m && Same(less, a, b) :: a == b)
  }

  ghost predicate TableOk<E(!new)>(hash: E -> nat, less: (E, E) -> bool, bs: seq<seq<E>>, cnt: nat) {
    && Sound(hash, less) && PowerOf2(|bs|) && |bs| >= 4
    && Placed(hash, bs) && Distinct(less, Bag(bs)) && cnt == |Bag(bs)|
  }

  lemma BucketInRange<E>(hash: E -> nat, e: E, n: nat)
    requires PowerOf2(n)
    ensures n > 0 && Bucket(hash, e, n) == hash(e) % n < n
  {
    MaskIsRemainder(hash(e), n);
  }

  /** An element equal to e can only be in the bucket of e. */
  lemma OnlyInBucket<E(!new)>(hash: E -> nat, less: (E, E) -> bool, bs: seq<seq<E>>, cnt: nat, e: E)
    requires TableOk(hash, less, bs, cnt)
    ensures Bucket(hash, e, |bs|) < |bs|
    ensures forall a | a in Bag(bs) && Same(less, a, e) :: a in bs[Bucket(hash, e, |bs|)]
    ensures forall a | a in bs[Bucket(hash, e, |bs|)] :: a in Bag(bs)
  {
    BucketInRange(hash, e, |bs|);
    var k := Bucket(hash, e, |bs|);
    forall a | a in Bag(bs) && Same(less, a, e) ensures a in bs[k] {
      BagContents(bs, a);
      var i: nat :| i < |bs| && a in bs[i];
      assert i == Bucket(hash, a, |bs|);
    }
    BagUpdate(bs, k, bs[k]);
    hide Bag, Bucket;
    forall a | a in bs[k] ensures a in Bag(bs) { assert a in multiset(bs[k]); }
  }

  // ----- inserting and removing -----

  /** insert_elem */
  function Pushed<E>(bs: seq<seq<E>>, i: nat, e: E): seq<seq<E>>
    requires i < |bs|
  {
    bs[i := [e] + bs[i]]
  }

  lemma PushedBag<E>(bs: seq<seq<E>>, i: nat, e: E)
    requires i < |bs|
    ensures Bag(Pushed(bs, i, e)) == Bag(bs) + multiset{e}
  {
    BagUpdate(bs, i, [e] + bs[i]);
  }

  lemma PushedPlaced<E>(hash: E -> nat, bs: seq<seq<E>>, e: E)
    requires Placed(hash, bs) && |bs| > 0 && Bucket(hash, e, |bs|) < |bs|
    ensures Placed(hash, Pushed(bs, Bucket(hash, e, |bs|), e))
  {
    hide Bucket;
  }

  lemma InsertKeeps<E(!new)>(hash: E -> nat, less: (E, E) -> bool, bs: seq<seq<E>>, cnt: nat, e: E)
    requires TableOk(hash, less, bs, cnt) && forall a | a in Bag(bs) :: !Same(less, a, e)
    ensures Bucket(hash, e, |bs|) < |bs|
    ensures var bs' := Pushed(bs, Bucket(hash, e, |bs|), e);
            TableOk(hash, less, bs', cnt + 1) && Bag(bs') == Bag(bs) + multiset{e}
  {
    BucketInRange(hash, e, |bs|);
    PushedBag(bs, Bucket(hash, e, |bs|), e);
    PushedPlaced(hash, bs, e);
    hide Bag, Bucket, Placed;
    assert Same(less, e, e);
  }

  /** list_remove */
  function Without<E(==)>(b: seq<E>, e: E): seq<E> {
    if b == [] then [] else if b[0] == e then b[1..] else [b[0]] + Without(b[1..], e)
  }

  lemma {:induction false} WithoutBag<E>(b: seq<E>, e: E)
    requires e in b
    ensures multiset(Without(b, e)) == multiset(b) - multiset{e}
  {
    assert b == [b[0]] + b[1..];
    if b[0] != e { WithoutBag(b[1..], e); }
  }

  function Dropped<E(==)>(bs: seq<seq<E>>, i: nat, e: E): seq<seq<E>>
    requires i < |bs|
  {
    bs[i := Without(bs[i], e)]
  }

  lemma DroppedBag<E>(bs: seq<seq<E>>, i: nat, e: E)
    requires i < |bs| && e in bs[i]
    ensures Bag(Dropped(bs, i, e)) == Bag(bs) - multiset{e} && e in Bag(bs)
  {
    WithoutBag(bs[i], e);
    BagUpdate(bs, i, Without(bs[i], e));
    assert e in multiset(bs[i]);
  }

  lemma DroppedPlaced<E>(hash: E -> nat, bs: seq<seq<E>>, i: nat, e: E)
    requires Placed(hash, bs) && i < |bs| && e in bs[i]
    ensures Placed(hash, Dropped(bs, i, e))
  {
    WithoutBag(bs[i], e);
    hide Bucket, Without;
    forall j, a | 0 <= j < |bs| && a in Dropped(bs, i, e)[j] ensures j == Bucket(hash, a, |bs|) {
      if j == i { assert a in multiset(Without(bs[i], e)); }
    }
  }

  lemma DeleteKeeps<E(!new)>(hash: E -> nat, less: (E, E) -> bool, bs: seq<seq<E>>, cnt: nat, i: nat, e: E)
    requires TableOk(hash, less, bs, cnt) && i < |bs| && e in bs[i]
    ensures cnt > 0 && TableOk(hash, less, Dropped(bs, i, e), cnt - 1)
    ensures Bag(Dropped(bs, i, e)) == Bag(bs) - multiset{e} && e in Bag(bs)
    ensures e !in Bag(Dropped(bs, i, e))
  {
    DroppedBag(bs, i, e);
    DroppedPlaced(hash, bs, i, e);
    hide Bag, Bucket, Placed, Without;
    assert |Bag(bs) - multiset{e}| == |Bag(bs)| - 1;
  }

  // ----- moving to other buckets -----

  /** The state of the move: everything is either in a new bucket or still in an old one. */
  ghost predicate Moving<E(!new)>(hash: E -> nat, m: multiset<E>, from: seq<seq<E>>, to: seq<seq<E>>) {
    m == Bag(from) + Bag(to) && Placed(hash, to) && PowerOf2(|to|)
  }

  lemma MoveOne<E(!new)>(hash: E -> nat, m: multiset<E>, from: seq<seq<E>>, to: seq<seq<E>>, i: nat)
    requires Moving(hash, m, from, to) && i < |from| && from[i] != []
    ensures |to| > 0 && Bucket(hash, from[i][0], |to|) < |to|
    ensures Moving(hash, m, from[i := from[i][1..]], Pushed(to, Bucket(hash, from[i][0], |to|), from[i][0]))
  {
    var e := from[i][0];
    BucketInRange(hash, e, |to|);
    PushedBag(to, Bucket(hash, e, |to|), e);
    PushedPlaced(hash, to, e);
    assert from[i] == [e] + from[i][1..];
    BagUpdate(from, i, from[i][1..]);
    hide Bag, Bucket, Placed;
    assert multiset(from[i]) == multiset{e} + multiset(from[i][1..]);
  }

  // ----- iteration -----

  /** The elements in the order of iteration. */
  ghost function Flat<E>(bs: seq<seq<E>>): seq<E> {
    if bs == [] then [] else bs[0] + Flat(bs[1..])
  }

  lemma {:induction false} FlatBag<E>(bs: seq<seq<E>>)
    ensures multiset(Flat(bs)) == Bag(bs)
  {
    if bs != [] { FlatBag(bs[1..]); }
  }

  /** The place of bucket b in that order. */
  lemma {:induction false} FlatLength<E>(bs: seq<seq<E>>, b: nat)
    requires b < |bs|
    ensures |Flat(bs[..b + 1])| == |Flat(bs[..b])| + |bs[b]| <= |Flat(bs)|
  {
    if b == 0 {
      assert bs[..1][1..] == [] && bs[..1][0] == bs[0];
    } else {
      FlatLength(bs[1..], b - 1);
      assert bs[..b + 1][1..] == bs[1..][..b] && bs[..b][1..] == bs[1..][..b - 1];
    }
  }

  lemma {:induction false} FlatAt<E>(bs: seq<seq<E>>, b: nat, j: nat)
    requires b < |bs| && j < |bs[b]|
    ensures |Flat(bs[..b])| + j < |Flat(bs)| && Flat(bs)[|Flat(bs[..b])| + j] == bs[b][j]
  {
    FlatLength(bs, b);
    if b > 0 {
      FlatAt(bs[1..], b - 1, j);
      assert bs[..b][1..] == bs[1..][..b - 1];
    }
  }

  lemma FlatAll<E>(bs: seq<seq<E>>)
    ensures bs[..|bs|] == bs && Flat(bs[..0]) == []
  {
  }

  /** Iteration meets every element of the table exactly once and nothing else. */
  lemma EachOnce<E(!new)>(hash: E -> nat, less: (E, E) -> bool, bs: seq<seq<E>>, cnt: nat)
    requires TableOk(hash, less, bs, cnt)
    ensures |Flat(bs)| == cnt && (forall e :: e in Flat(bs) <==> e in Bag(bs))
    ensures forall i, j | 0 <= i < j < |Flat(bs)| :: Flat(bs)[i] != Flat(bs)[j]
  {
    FlatBag(bs);
    var q := Flat(bs);
    hide Bag, Flat, Placed;
    assert |multiset(q)| == |q|;
    forall e ensures e in q <==> e in Bag(bs) { assert e in q <==> e in multiset(q); }
    forall i, j | 0 <= i < j < |q| ensures q[i] != q[j] {
      TwiceCounted(q, i, j);
      assert q[i] in multiset(q);
    }
  }

  lemma TwiceCounted<E>(q: seq<E>, i: nat, j: nat)
    requires i < j < |q|
    ensures q[i] == q[j] ==> multiset(q)[q[i]] >= 2
  {
    assert q == q[..j] + q[j..];
    assert q[i] in multiset(q[..j]) by { assert q[..j][i] == q[i]; }
    assert q[j] in multiset(q[j..]) by { assert q[j..][0] == q[j]; }
  }

  class Table<E(==, !new)> {
    const hash: E -> nat
    const less: (E, E) -> bool
    var buckets: seq<seq<E>>
    var elemCnt: nat

    ghost predicate Valid()
      reads this
    {
      TableOk(hash, less, buckets, elemCnt)
    }

    /** The stored elements. */
    ghost function Elements(): multiset<E>
      reads this
    {
      Bag(buckets)
    }

    /** hash_init when its allocation succeeds. */
    constructor (hash: E -> nat, less: (E, E) -> bool)
      requires Sound(hash, less)
      ensures Valid() && Elements() == multiset{} && this.hash == hash && this.less == less
    {
      this.hash, this.less := hash, less;
      buckets, elemCnt := [[], [], [], []], 0;
      new;
      EmptyBag(buckets);
      assert PowerOf2(2) && PowerOf2(4);
    }

    /** hash_clear */
    method Clear()
      requires Valid()
      modifies this
      ensures Valid() && Elements() == multiset{} && |buckets| == |old(buckets)|
    {
      hide Bag, Bucket;
      for i := 0 to |buckets|
        invariant |buckets| == |old(buckets)| && forall k | 0 <= k < i :: buckets[k] == []
      {
        buckets := buckets[i := []];
      }
      elemCnt := 0;
      EmptyBag(buckets);
    }

    /** find_elem in bucket k. */
    method FindElem(k: nat, e: E) returns (r: Option<E>)
      requires k < |buckets|
      ensures r.Some? ==> r.value in buckets[k] && Same(less, r.value, e)
      ensures r.None? ==> forall a | a in buckets[k] :: !Same(less, a, e)
    {
      for j := 0 to |buckets[k]|
        invariant forall i | 0 <= i < j :: !Same(less, buckets[k][i], e)
      {
        if Same(less, buckets[k][j], e) { return Some(buckets[k][j]); }
      }
      return None;
    }

    /** The search that all operations begin with. */
    method Search(e: E) returns (k: nat, r: Option<E>)
      requires Valid()
      ensures k == Bucket(hash, e, |buckets|) < |buckets|
      ensures r.Some? ==> r.value in buckets[k] && r.value in Elements() && Same(less, r.value, e)
      ensures r.None? ==> forall a | a in Elements() :: !Same(less, a, e)
    {
      OnlyInBucket(hash, less, buckets, elemCnt, e);
      hide TableOk, Bag, Bucket, Same;
      k := Bucket(hash, e, |buckets|);
      r := FindElem(k, e);
    }

    /** hash_find */
    method Find(e: E) returns (r: Option<E>)
      requires Valid()
      ensures r.Some? ==> r.value in Elements() && Same(less, r.value, e)
      ensures r.None? ==> forall a | a in Elements() :: !Same(less, a, e)
    {
      hide TableOk, Bag, Bucket, Same;
      var k;
      k, r := Search(e);
    }

    /** hash_insert: an element is added exactly when no equal one is there. */
    method Insert(e: E, mallocOk: bool) returns (r: Option<E>)
      requires Valid()
      modifies this
      ensures Valid()
      ensures r.Some? ==> r.value in old(Elements()) && Same(less, r.value, e) && Elements() == old(Elements())
      ensures r.None? ==> (forall a | a in old(Elements()) :: !Same(less, a, e)) && Elements() == old(Elements()) + multiset{e}
      ensures mallocOk ==> elemCnt < 4 * |buckets|
    {
      hide TableOk, Bag, Bucket, Same;
      var k;
      k, r := Search(e);
      if r.None? {
        InsertKeeps(hash, less, buckets, elemCnt, e);
        elemCnt := elemCnt + 1;
        buckets := Pushed(buckets, k, e);
      }
      Rehash(mallocOk);
    }

    /** hash_replace: afterwards e is there and no other element equal to it. */
    method Replace(e: E, mallocOk: bool) returns (r: Option<E>)
      requires Valid()
      modifies this
      ensures Valid()
      ensures r.Some? ==> r.value in old(Elements()) && Same(less, r.value, e)
      ensures r.Some? ==> Elements() == old(Elements()) - multiset{r.value} + multiset{e}
      ensures r.None? ==> (forall a | a in old(Elements()) :: !Same(less, a, e)) && Elements() == old(Elements()) + multiset{e}
      ensures mallocOk ==> elemCnt < 4 * |buckets|
    {
      hide TableOk, Bag, Bucket, Same;
      var k;
      k, r := Search(e);
      if r.Some? {
        NoOtherSame(hash, less, buckets, elemCnt, r.value, e);
        DeleteKeeps(hash, less, buckets, elemCnt, k, r.value);
        elemCnt := elemCnt - 1;
        buckets := Dropped(buckets, k, r.value);
      }
      InsertKeeps(hash, less, buckets, elemCnt, e);
      elemCnt := elemCnt + 1;
      buckets := Pushed(buckets, k, e);
      Rehash(mallocOk);
    }

    /** hash_delete */
    method Delete(e: E, mallocOk: bool) returns (r: Option<E>)
      requires Valid()
      modifies this
      ensures Valid()
      ensures r.Some? ==> r.value in old(Elements()) && Same(less, r.value, e) && Elements() == old(Elements()) - multiset{r.value}
      ensures r.None? ==> (forall a | a in old(Elements()) :: !Same(less, a, e)) && Elements() == old(Elements())
      ensures mallocOk && r.Some? ==> elemCnt < 4 * |buckets|
      ensures r.None? ==> buckets == old(buckets)
    {
      hide TableOk, Bag, Bucket, Same;
      var k;
      k, r := Search(e);
      if r.Some? {
        DeleteKeeps(hash, less, buckets, elemCnt, k, r.value);
        elemCnt := elemCnt - 1;
        buckets := Dropped(buckets, k, r.value);
        Rehash(mallocOk);
      }
    }

    /** rehash. It keeps the elements whether or not there is memory for new buckets. */
    method Rehash(mallocOk: bool)
      requires Valid()
      modifies this
      ensures Valid() && Elements() == old(Elements()) && elemCnt == old(elemCnt)
      ensures mallocOk ==> elemCnt < 4 * |buckets|
      ensures !mallocOk ==> buckets == old(buckets)
    {
      var newCnt := BucketCount(elemCnt);
      if newCnt == |buckets| || !mallocOk { return; }
      ghost var was := buckets;
      var moved := MoveAll(buckets, newCnt);
      hide Bag, Bucket;
      buckets := moved;
    }

    /** The loops of rehash that move every element to its new bucket. */
    method MoveAll(old_: seq<seq<E>>, newCnt: nat) returns (to: seq<seq<E>>)
      requires PowerOf2(newCnt)
      ensures |to| == newCnt && Placed(hash, to) && Bag(to) == Bag(old_)
    {
      hide Bag, Bucket, Placed;
      to := seq(newCnt, _ => []);
      StartMoving(hash, old_, to);
      var from := old_;
      for i := 0 to |from|
        invariant |from| == |old_| && |to| == newCnt && Moving(hash, Bag(old_), from, to)
        invariant forall k | 0 <= k < i :: from[k] == []
      {
        while from[i] != []
          invariant |from| == |old_| && |to| == newCnt && Moving(hash, Bag(old_), from, to)
          invariant forall k | 0 <= k < i :: from[k] == []
          decreases |from[i]|
        {
          MoveOne(hash, Bag(old_), from, to, i);
          var e := from[i][0];
          from := from[i := from[i][1..]];
          to := Pushed(to, Bucket(hash, e, |to|), e);
        }
      }
      EmptyBag(from);
    }

    /** hash_apply: visited is the sequence of elements that the action is called on. */
    method Apply() returns (visited: seq<E>)
      ensures visited == Flat(buckets)
    {
      visited := [];
      FlatAll(buckets);
      for i := 0 to |buckets|
        invariant visited == Flat(buckets[..i])
      {
        FlatPrefix(buckets, i);
        hide Flat;
        ghost var before := visited;
        for j := 0 to |buckets[i]|
          invariant visited == before + buckets[i][..j]
        {
          visited := visited + [buckets[i][j]];
        }
        assert buckets[i][..|buckets[i]|] == buckets[i];
      }
    }
  }

  lemma {:induction false} FlatPrefix<E>(bs: seq<seq<E>>, i: nat)
    requires i < |bs|
    ensures Flat(bs[..i + 1]) == Flat(bs[..i]) + bs[i]
  {
    if i == 0 {
      assert bs[..1][1..] == [] && bs[..1][0] == bs[0];
    } else {
      FlatPrefix(bs[1..], i - 1);
      assert bs[..i + 1][1..] == bs[1..][..i] && bs[..i][1..] == bs[1..][..i - 1];
    }
  }

  lemma StartMoving<E(!new)>(hash: E -> nat, from: seq<seq<E>>, to: seq<seq<E>>)
    requires PowerOf2(|to|) && forall i | 0 <= i < |to| :: to[i] == []
    ensures Moving(hash, Bag(from), from, to)
  {
    EmptyBag(to);
    hide Bag, Bucket;
  }

  lemma NoOtherSame<E(!new)>(hash: E -> nat, less: (E, E) -> bool, bs: seq<seq<E>>, cnt: nat, a: E, e: E)
    requires TableOk(hash, less, bs, cnt) && a in Bag(bs) && Same(less, a, e)
    ensures forall b | b in Bag(bs) - multiset{a} :: !Same(less, b, e)
  {
    hide Bag, Placed, Bucket;
    forall b | b in Bag(bs) - multiset{a} ensures !Same(less, b, e) { SameVia(hash, less, a, b, e); }
  }

  lemma SameVia<E(!new)>(hash: E -> nat, less: (E, E) -> bool, a: E, b: E, e: E)
    requires Sound(hash, less) && Same(less, a, e)
    ensures Same(less, b, e) ==> Same(less, b, a)
  {
    assert Same(less, e, a);
  }

  /** struct hash_iterator */
  class Cursor<E(==, !new)> {
    const table: Table<E>
    var bucket: nat
    var pos: int          // -1 before the first element of the bucket

    ghost predicate Valid()
      reads this, table
    {
      bucket < |table.buckets| && -1 <= pos < |table.buckets[bucket]|
    }

    /** How many elements come before the current one. */
    ghost function Rank(): int
      reads this, table
      requires Valid()
    {
      |Flat(table.buckets[..bucket])| + pos
    }

    /** hash_first */
    constructor (t: Table<E>)
      requires |t.buckets| > 0
      ensures table == t && Valid() && Rank() == -1
    {
      table, bucket, pos := t, 0, -1;
    }

    /** hash_next: the next element in the order of iteration, or none at its end. */
    method Next() returns (r: Option<E>)
      requires Valid()
      modifies this
      ensures old(Rank()) + 1 < |Flat(table.buckets)| ==> r == Some(Flat(table.buckets)[old(Rank()) + 1]) && Valid() && Rank() == old(Rank()) + 1
      ensures old(Rank()) + 1 >= |Flat(table.buckets)| ==> r.None?
    {
      ghost var want := Rank() + 1;
      FlatLength(table.buckets, bucket);
      hide Flat;
      pos := pos + 1;
      while pos == |table.buckets[bucket]|
        invariant bucket < |table.buckets| && 0 <= pos <= |table.buckets[bucket]|
        invariant |Flat(table.buckets[..bucket])| + pos == want
        decreases |table.buckets| - bucket
      {
        FlatLength(table.buckets, bucket);
        bucket := bucket + 1;
        if bucket >= |table.buckets| {
          FlatAll(table.buckets);
          return None;
        }
        pos := 0;
      }
      FlatAt(table.buckets, bucket, pos);
      r := Some(table.buckets[bucket][pos]);
    }
  }
}
