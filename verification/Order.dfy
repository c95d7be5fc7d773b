/** Lexicographic orders and cyclic chains of intervals, the order theory behind RFC 4034
    section 6.1 and the NSEC and NSEC3 chains. */
module Order {
  import opened Bytes

  /** A strict total order. */
  ghost predicate StrictTotal<T(!new)>(lt: (T, T) -> bool) {
    && (forall a :: !lt(a, a))
    && (forall a, b, c :: lt(a, b) && lt(b, c) ==> lt(a, c))
    && (forall a, b :: a == b || lt(a, b) || lt(b, a))
  }

  /** Lexicographic order: a proper prefix comes first. */
  predicate LexLess<T(==)>(lt: (T, T) -> bool, a: seq<T>, b: seq<T>) {
    b != [] && (a == [] || lt(a[0], b[0]) || (a[0] == b[0] && LexLess(lt, a[1..], b[1..])))
  }

  lemma {:induction false} LexIrreflexive<T(!new)>(lt: (T, T) -> bool, a: seq<T>)
    requires StrictTotal(lt)
    ensures !LexLess(lt, a, a)
  {
    if a != [] { LexIrreflexive(lt, a[1..]); }
  }

  lemma {:induction false} LexTransitive<T(!new)>(lt: (T, T) -> bool, a: seq<T>, b: seq<T>, c: seq<T>)
    requires StrictTotal(lt) && LexLess(lt, a, b) && LexLess(lt, b, c)
    ensures LexLess(lt, a, c)
  {
    if a != [] && a[0] == b[0] == c[0] && !lt(a[0], c[0]) { LexTransitive(lt, a[1..], b[1..], c[1..]); }
  }

  lemma {:induction false} LexConnected<T(!new)>(lt: (T, T) -> bool, a: seq<T>, b: seq<T>)
    requires StrictTotal(lt)
    ensures a == b || LexLess(lt, a, b) || LexLess(lt, b, a)
  {
    if a != [] && b != [] && a[0] == b[0] {
      LexConnected(lt, a[1..], b[1..]);
      assert a == [a[0]] + a[1..] && b == [b[0]] + b[1..];
    }
  }

  predicate ByteLess(a: byte, b: byte) { a < b }

  /** Labels, and hashes, as octet strings. */
  predicate OctetsLess(a: Text, b: Text) { LexLess(ByteLess, a, b) }

  /** Canonical name order on names written from the root down. */
  predicate NameLess(a: seq<Text>, b: seq<Text>) { LexLess(OctetsLess, a, b) }

  /** The comparisons of nsec.go and nsec3.go are strict total orders. */
  lemma OrdersAreTotal()
    ensures StrictTotal(OctetsLess)
    ensures StrictTotal(NameLess)
  {
    assert StrictTotal(ByteLess);
    LexIsTotal(ByteLess, OctetsLess);
    LexIsTotal(OctetsLess, NameLess);
  }

  lemma LexIsTotal<T(!new)>(lt: (T, T) -> bool, less: (seq<T>, seq<T>) -> bool)
    requires StrictTotal(lt)
    requires forall a, b :: less(a, b) == LexLess(lt, a, b)
    ensures StrictTotal(less)
  {
    forall a ensures !less(a, a) { LexIrreflexive(lt, a); }
    forall a, b, c | less(a, b) && less(b, c) ensures less(a, c) { LexTransitive(lt, a, b, c); }
    forall a, b ensures a == b || less(a, b) || less(b, a) { LexConnected(lt, a, b); }
  }

  /** A shared beginning does not matter. */
  lemma {:induction false} LexCancel<T(!new)>(lt: (T, T) -> bool, p: seq<T>, a: seq<T>, b: seq<T>)
    requires StrictTotal(lt)
    ensures LexLess(lt, p + a, p + b) == LexLess(lt, a, b)
  {
    if p == [] {
      assert p + a == a && p + b == b;
    } else {
      assert (p + a)[1..] == p[1..] + a && (p + b)[1..] == p[1..] + b;
      LexCancel(lt, p[1..], a, b);
    }
  }

  // ---- common prefixes ----

  /** The number of leading elements that a and b share. */
  function Common<T(==)>(a: seq<T>, b: seq<T>): (n: nat)
    ensures n <= |a| && n <= |b| && a[..n] == b[..n]
    ensures n < |a| && n < |b| ==> a[n] != b[n]
  {
    if a == [] || b == [] || a[0] != b[0] then 0 else 1 + Common(a[1..], b[1..])
  }

  lemma {:induction false} CommonSymmetric<T>(a: seq<T>, b: seq<T>)
    ensures Common(a, b) == Common(b, a)
  {
    if Common(a, b) > 0 { CommonSymmetric(a[1..], b[1..]); }
  }

  /** A shared prefix is a prefix of the common part. */
  lemma {:induction false} CommonIsLongest<T>(a: seq<T>, b: seq<T>, p: seq<T>)
    requires p <= a && p <= b
    ensures |p| <= Common(a, b)
  {
    if p != [] { CommonIsLongest(a[1..], b[1..], p[1..]); }
  }

  /** Between two sequences, the ones in the middle share at least as much with either end. */
  lemma {:induction false} CommonBetween<T(!new)>(lt: (T, T) -> bool, a: seq<T>, b: seq<T>, c: seq<T>)
    requires StrictTotal(lt)
    requires a == b || LexLess(lt, a, b)
    requires b == c || LexLess(lt, b, c)
    ensures Common(a, c) <= Common(b, c)
    ensures Common(a, c) <= Common(a, b)
  {
    if Common(a, c) > 0 {
      assert b != [] && a[0] == b[0];
      CommonBetween(lt, a[1..], b[1..], c[1..]);
    }
  }

  // ---- cyclic chains ----

  ghost predicate Ascending<K>(lt: (K, K) -> bool, owners: seq<K>) {
    forall i, j :: 0 <= i < j < |owners| ==> lt(owners[i], owners[j])
  }

  function Next<K>(owners: seq<K>, i: nat): K
    requires i < |owners|
  {
    owners[(i + 1) % |owners|]
  }

  /** nsecCoversName and coversHashFull: the open interval, wrapping when owner is not below next. */
  predicate Covers<K>(lt: (K, K) -> bool, owner: K, next: K, key: K) {
    if lt(owner, next) then lt(owner, key) && lt(key, next) else lt(owner, key) || lt(key, next)
  }

  predicate LinkCovers<K>(lt: (K, K) -> bool, owners: seq<K>, i: nat, key: K)
    requires i < |owners|
  {
    Covers(lt, owners[i], Next(owners, i), key)
  }

  lemma OwnerIsNotCovered<K(!new)>(lt: (K, K) -> bool, owners: seq<K>, i: nat, j: nat)
    requires StrictTotal(lt) && Ascending(lt, owners) && i < |owners| && j < |owners|
    ensures !LinkCovers(lt, owners, i, owners[j])
  {}

  lemma AroundKey<K(!new)>(lt: (K, K) -> bool, owners: seq<K>, i: nat, j: nat, key: K)
    requires StrictTotal(lt) && Ascending(lt, owners) && i < j < |owners|
    requires lt(owners[i], key) && lt(key, owners[i + 1])
    ensures lt(owners[0], key) && lt(key, owners[j])
  {
    assert owners[0] == owners[i] || lt(owners[0], owners[i]);
    assert owners[i + 1] == owners[j] || lt(owners[i + 1], owners[j]);
  }

  lemma NextIs<K>(owners: seq<K>, i: nat)
    requires i < |owners|
    ensures Next(owners, i) == if i + 1 < |owners| then owners[i + 1] else owners[0]
  {}

  lemma BelowIsNotCovered<K(!new)>(lt: (K, K) -> bool, owner: K, next: K, key: K)
    requires StrictTotal(lt) && lt(key, owner) && (lt(owner, next) || lt(next, key))
    ensures !Covers(lt, owner, next, key)
  {}

  lemma LaterLinkDoesNot<K(!new)>(lt: (K, K) -> bool, owners: seq<K>, i: nat, j: nat, key: K)
    requires StrictTotal(lt) && Ascending(lt, owners) && i < j < |owners|
    requires LinkCovers(lt, owners, i, key)
    ensures !LinkCovers(lt, owners, j, key)
  {
    NextIs(owners, i);
    NextIs(owners, j);
    assert lt(owners[i], owners[i + 1]);
    assert j + 1 < |owners| ==> lt(owners[j], owners[j + 1]);
    AroundKey(lt, owners, i, j, key);
    hide Ascending, Next, Covers;
    BelowIsNotCovered(lt, owners[j], Next(owners, j), key);
  }

  lemma SomeLinkCovers<K(!new)>(lt: (K, K) -> bool, owners: seq<K>, key: K) returns (i: nat)
    requires StrictTotal(lt) && Ascending(lt, owners) && |owners| >= 1
    requires key !in owners
    ensures i < |owners| && LinkCovers(lt, owners, i, key)
  {
    if lt(key, owners[0]) {
      i := |owners| - 1;
    } else {
      i := 0;
      while i + 1 < |owners| && lt(owners[i + 1], key)
        invariant i < |owners| && lt(owners[i], key)
      {
        i := i + 1;
      }
    }
  }

  /** The chain partitions all keys: each is an owner and covered by no link, or is covered by
      exactly one link; a single owner linked to itself covers every other key. */
  lemma ChainPartition<K(!new)>(lt: (K, K) -> bool, owners: seq<K>, key: K)
    requires StrictTotal(lt) && Ascending(lt, owners) && |owners| >= 1
    ensures key in owners <==> forall i :: 0 <= i < |owners| ==> !LinkCovers(lt, owners, i, key)
    ensures forall i, j :: 0 <= i < j < |owners| && LinkCovers(lt, owners, i, key) ==> !LinkCovers(lt, owners, j, key)
  {
    if key in owners {
      var j :| 0 <= j < |owners| && owners[j] == key;
      forall i | 0 <= i < |owners| ensures !LinkCovers(lt, owners, i, key) {
        OwnerIsNotCovered(lt, owners, i, j);
      }
    } else {
      var i := SomeLinkCovers(lt, owners, key);
    }
    forall i, j | 0 <= i < j < |owners| && LinkCovers(lt, owners, i, key) ensures !LinkCovers(lt, owners, j, key) {
      LaterLinkDoesNot(lt, owners, i, j, key);
    }
  }

  /** Longest common prefix over the whole chain is attained at one end of the covering link,
      the wrap-around link included. */
  lemma NeighboursShareMost<T(!new)>(lt: (T, T) -> bool, less: (seq<T>, seq<T>) -> bool,
                                     owners: seq<seq<T>>, i: nat, key: seq<T>, k: nat)
    requires StrictTotal(lt) && StrictTotal(less)
    requires forall a, b :: less(a, b) == LexLess(lt, a, b)
    requires Ascending(less, owners) && i < |owners| && k < |owners|
    requires LinkCovers(less, owners, i, key)
    ensures Common(key, owners[k]) <= Common(key, owners[i]) || Common(key, owners[k]) <= Common(key, Next(owners, i))
  {
    var o, owner, next := owners[k], owners[i], Next(owners, i);
    NextIs(owners, i);
    CommonSymmetric(key, o);
    CommonSymmetric(key, owner);
    if less(owner, key) && (k <= i || i + 1 == |owners|) {
      assert o == owner || less(o, owner);
      CommonBetween(lt, o, owner, key);
    } else {
      assert less(key, next) && (next == o || less(next, o));
      CommonBetween(lt, key, next, o);
    }
  }
}
