/** The expiry queue of a cache shard: a binary min-heap in a slice, ordered by expiresAt
    (cache/eviction_heap.go over container/heap). */
module EvictionHeap {
  import opened Bytes

  datatype Item<E> = Item(key: CacheKey, entry: E, expiresAt: int)

  datatype CacheKey = CacheKey(name: Text, qtype: u16, class_: u16, ecsPrefix: Text)

  function Parent(k: nat): nat
    requires k > 0
  {
    (k - 1) / 2
  }

  predicate AtMost<E>(q: seq<Item<E>>, i: nat, j: nat)
    requires i < |q| && j < |q|
  {
    q[i].expiresAt <= q[j].expiresAt
  }

  /** Item k is not below its parent. */
  predicate InOrder<E>(q: seq<Item<E>>, k: nat)
    requires 0 < k < |q|
  {
    AtMost(q, Parent(k), k)
  }

  predicate IsHeap<E>(q: seq<Item<E>>) {
    forall k :: 0 < k < |q| ==> InOrder(q, k)
  }

  /** The first item expires no later than any other. */
  lemma {:induction false} RootIsLeast<E>(q: seq<Item<E>>, j: nat)
    requires IsHeap(q) && j < |q|
    ensures q[0].expiresAt <= q[j].expiresAt
    decreases j
  {
    if j > 0 {
      assert InOrder(q, j);
      RootIsLeast(q, Parent(j));
    }
  }

  function Swap<E>(q: seq<Item<E>>, i: nat, j: nat): (r: seq<Item<E>>)
    requires i < |q| && j < |q|
    ensures |r| == |q| && multiset(r) == multiset(q)
    ensures r[i] == q[j] && r[j] == q[i]
    ensures forall k :: 0 <= k < |q| && k != i && k != j ==> r[k] == q[k]
  {
    q[i := q[j]][j := q[i]]
  }

  /** A heap but for item j, which may be smaller than its parent. */
  predicate HeapButUp<E>(q: seq<Item<E>>, j: nat)
    requires j < |q|
  {
    && (forall k :: 0 < k < |q| && k != j ==> InOrder(q, k))
    && (j > 0 ==> forall k :: 0 < k < |q| && Parent(k) == j ==> AtMost(q, Parent(j), k))
  }

  /** A heap but for item i, which may be larger than its children. */
  predicate HeapButDown<E>(q: seq<Item<E>>, i: nat) {
    && (forall k :: 0 < k < |q| && Parent(k) != i ==> InOrder(q, k))
    && (0 < i < |q| ==> forall k :: 0 < k < |q| && Parent(k) == i ==> AtMost(q, Parent(i), k))
  }

  lemma SwapUp<E>(q: seq<Item<E>>, j: nat)
    requires 0 < j < |q| && HeapButUp(q, j) && q[j].expiresAt < q[Parent(j)].expiresAt
    ensures HeapButUp(Swap(q, Parent(j), j), Parent(j))
  {
    var i := Parent(j);
    var r := Swap(q, i, j);
    if i > 0 { assert InOrder(q, i); }
    forall k | 0 < k < |r| && k != i ensures InOrder(r, k) {
      if k != j {
        assert InOrder(q, k);
        if Parent(k) == j { assert AtMost(q, i, k); }
      }
    }
    forall k | i > 0 && 0 < k < |r| && Parent(k) == i ensures AtMost(r, Parent(i), k) {
      if k != j { assert InOrder(q, k); }
    }
  }

  lemma SwapDown<E>(q: seq<Item<E>>, i: nat, c: nat)
    requires 0 < c < |q| && Parent(c) == i && HeapButDown(q, i)
    requires forall k :: 0 < k < |q| && Parent(k) == i ==> AtMost(q, c, k)
    requires q[c].expiresAt < q[i].expiresAt
    ensures HeapButDown(Swap(q, i, c), c)
  {
    var r := Swap(q, i, c);
    forall k | 0 < k < |r| && Parent(k) != c ensures InOrder(r, k) {
      if Parent(k) == i {
        assert AtMost(q, c, k);
      } else {
        assert InOrder(q, k);
        if k == i { assert AtMost(q, Parent(i), c); }
      }
    }
    forall k | 0 < k < |r| && Parent(k) == c ensures AtMost(r, Parent(c), k) {
      assert InOrder(q, k);
    }
  }

  /** heap.Push: append and sift up. */
  method Push<E>(q: seq<Item<E>>, item: Item<E>) returns (r: seq<Item<E>>)
    requires IsHeap(q)
    ensures IsHeap(r) && multiset(r) == multiset(q) + multiset{item}
  {
    hide Swap;
    r := q + [item];
    var j := |r| - 1;
    assert HeapButUp(r, j) by { AppendIsButUp(q, item); }
    while j > 0 && r[j].expiresAt < r[Parent(j)].expiresAt
      invariant 0 <= j < |r|
      invariant HeapButUp(r, j)
      invariant multiset(r) == multiset(q) + multiset{item}
    {
      SwapUp(r, j);
      r := Swap(r, Parent(j), j);
      j := Parent(j);
    }
  }

  lemma AppendIsButUp<E>(q: seq<Item<E>>, item: Item<E>)
    requires IsHeap(q)
    ensures HeapButUp(q + [item], |q|)
  {
    forall k | 0 < k < |q| ensures InOrder(q + [item], k) { assert InOrder(q, k); }
  }

  /** heap.Pop: move the last item to the root and sift it down. */
  method Pop<E>(q: seq<Item<E>>) returns (item: Item<E>, r: seq<Item<E>>)
    requires IsHeap(q) && q != []
    ensures item == q[0] && IsHeap(r)
    ensures multiset(q) == multiset(r) + multiset{item}
  {
    hide IsHeap, HeapButDown;
    var n := |q| - 1;
    item := q[0];
    var swapped := Swap(q, 0, n);
    r := swapped[..n];
    assert swapped == r + [item];
    MovedIsButDown(q);
    r := SiftDown(r);
  }

  lemma MovedIsButDown<E>(q: seq<Item<E>>)
    requires IsHeap(q) && q != []
    ensures HeapButDown(Swap(q, 0, |q| - 1)[..|q| - 1], 0)
  {
    var r := Swap(q, 0, |q| - 1)[..|q| - 1];
    forall k | 0 < k < |r| && Parent(k) != 0 ensures InOrder(r, k) { assert InOrder(q, k); }
  }

  method SiftDown<E>(q: seq<Item<E>>) returns (r: seq<Item<E>>)
    requires HeapButDown(q, 0)
    ensures IsHeap(r) && multiset(r) == multiset(q)
  {
    hide Swap;
    r := q;
    var i: nat := 0;
    while 2 * i + 1 < |r|
      invariant |r| == |q| && multiset(r) == multiset(q)
      invariant HeapButDown(r, i)
      decreases |r| - i
    {
      var c: nat := 2 * i + 1;
      if c + 1 < |r| && r[c + 1].expiresAt < r[c].expiresAt {
        c := c + 1;
      }
      forall k | 0 < k < |r| && Parent(k) == i ensures AtMost(r, c, k) {
        assert k == 2 * i + 1 || k == 2 * i + 2;
      }
      if r[i].expiresAt <= r[c].expiresAt {
        forall k | 0 < k < |r| ensures InOrder(r, k) {
          if Parent(k) == i { assert AtMost(r, c, k); }
        }
        return;
      }
      SwapDown(r, i, c);
      r := Swap(r, i, c);
      i := c;
    }
  }
}
