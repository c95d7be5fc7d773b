/** The signed octets of the source (dnssec/verify.go) against those of section 6.3 of RFC 4034,
    which sorts a record set by canonical RDATA and keeps one of equal records. */
module RfcOrder {
  import opened Bytes
  import opened Order
  import opened Records
  import opened SignedData

  function Data(rr: RR, sig: Rrsig): Text {
    CanonicalRData(rr.rdata, sig.typeCovered)
  }

  /** The canonical RDATA of the records of the covered type. */
  function Datas(rrs: seq<RR>, sig: Rrsig): seq<Text> {
    if rrs == [] then []
    else (if rrs[0].rtype == sig.typeCovered then [Data(rrs[0], sig)] else []) + Datas(rrs[1..], sig)
  }

  function InsertRR(rr: RR, rrs: seq<RR>, sig: Rrsig): seq<RR> {
    if rrs == [] || OctetsLess(Data(rr, sig), Data(rrs[0], sig)) then [rr] + rrs
    else if Data(rr, sig) == Data(rrs[0], sig) then rrs
    else [rrs[0]] + InsertRR(rr, rrs[1..], sig)
  }

  /** The records of the covered type in ascending order of RDATA, each RDATA once. */
  function ByRData(rrs: seq<RR>, sig: Rrsig): seq<RR> {
    if rrs == [] then []
    else if rrs[0].rtype == sig.typeCovered then InsertRR(rrs[0], ByRData(rrs[1..], sig), sig)
    else ByRData(rrs[1..], sig)
  }

  /** The octets that section 6.3 of RFC 4034 has signed. */
  function RfcSignedData(rrset: seq<RR>, sig: Rrsig): Text {
    SigFields(sig) + NameBytes(sig.signer) + Concat(Wires(ByRData(rrset, sig), sig))
  }

  /** The owner, type, class and TTL that all records of a set start with. */
  function Head(rr: RR, sig: Rrsig): Text {
    NameBytes(WildcardOwner(rr.name, sig.labels)) + (PutU16(rr.rtype) + PutU16(rr.class_) + PutU32(sig.origTtl))
  }

  /** The records of the covered type share owner and class, and their RDATA fits its length field. */
  ghost predicate OneSet(rrs: seq<RR>, sig: Rrsig, head: Text) {
    forall rr :: rr in rrs && rr.rtype == sig.typeCovered ==> Head(rr, sig) == head && |rr.rdata| < 0x1_0000
  }

  // ---- the sorted set ----

  ghost predicate Covered(rrs: seq<RR>, sig: Rrsig) {
    forall rr :: rr in rrs ==> rr.rtype == sig.typeCovered
  }

  ghost predicate Rising(rrs: seq<RR>, sig: Rrsig) {
    forall i, j :: 0 <= i < j < |rrs| ==> OctetsLess(Data(rrs[i], sig), Data(rrs[j], sig))
  }

  ghost predicate Distinct(ds: seq<Text>) {
    forall i, j :: 0 <= i < j < |ds| ==> ds[i] != ds[j]
  }

  lemma {:induction false} DatasIn(rrs: seq<RR>, sig: Rrsig, d: Text)
    ensures d in Datas(rrs, sig) <==>
              exists i :: 0 <= i < |rrs| && rrs[i].rtype == sig.typeCovered && Data(rrs[i], sig) == d
  {
    hide Data;
    if rrs != [] {
      var rest := rrs[1..];
      DatasIn(rest, sig, d);
      assert forall i :: 0 < i < |rrs| ==> rrs[i] == rest[i - 1];
      assert forall i :: 0 <= i < |rest| ==> rest[i] == rrs[i + 1];
    }
  }

  lemma {:induction false} InsertedIn(rr: RR, rrs: seq<RR>, sig: Rrsig, x: RR)
    requires x in InsertRR(rr, rrs, sig)
    ensures x == rr || x in rrs
  {
    hide Data, OctetsLess;
    if rrs != [] && x in InsertRR(rr, rrs[1..], sig) { InsertedIn(rr, rrs[1..], sig, x); }
  }

  /** The sorted set has the records of the set, those of the covered type. */
  lemma {:induction false} ByRDataIn(rrs: seq<RR>, sig: Rrsig, x: RR)
    requires x in ByRData(rrs, sig)
    ensures x in rrs && x.rtype == sig.typeCovered
  {
    hide InsertRR;
    if rrs[0].rtype == sig.typeCovered {
      InsertedIn(rrs[0], ByRData(rrs[1..], sig), sig, x);
    }
    if x in ByRData(rrs[1..], sig) { ByRDataIn(rrs[1..], sig, x); }
  }

  /** Insertion keeps the order. */
  lemma {:induction false} InsertRises(rr: RR, rrs: seq<RR>, sig: Rrsig)
    requires Rising(rrs, sig)
    ensures Rising(InsertRR(rr, rrs, sig), sig)
  {
    hide Data, OctetsLess, Rising;
    OrdersAreTotal();
    if rrs == [] {
      assert [rr] + rrs == [rr];
      OneRises(rr, sig);
    } else if OctetsLess(Data(rr, sig), Data(rrs[0], sig)) {
      FrontRises(rr, rrs, sig);
    } else if Data(rr, sig) != Data(rrs[0], sig) {
      var rest := rrs[1..];
      TailRises(rrs, sig);
      InsertRises(rr, rest, sig);
      forall x | x in InsertRR(rr, rest, sig) ensures OctetsLess(Data(rrs[0], sig), Data(x, sig)) {
        InsertedIn(rr, rest, sig, x);
      }
      FrontRisesOver(rrs[0], InsertRR(rr, rest, sig), sig);
    }
  }

  lemma OneRises(rr: RR, sig: Rrsig)
    ensures Rising([rr], sig)
  {}

  lemma TailRises(rrs: seq<RR>, sig: Rrsig)
    requires Rising(rrs, sig) && rrs != []
    ensures Rising(rrs[1..], sig) && forall x :: x in rrs[1..] ==> OctetsLess(Data(rrs[0], sig), Data(x, sig))
  {
    hide Data, OctetsLess;
    var rest := rrs[1..];
    assert forall i :: 0 <= i < |rest| ==> rest[i] == rrs[i + 1];
  }

  /** The record is left out exactly if its RDATA is there already, and is added otherwise. */
  lemma {:induction false} InsertAddsIff(rr: RR, rrs: seq<RR>, sig: Rrsig)
    requires Rising(rrs, sig)
    ensures if exists x :: x in rrs && Data(x, sig) == Data(rr, sig) then InsertRR(rr, rrs, sig) == rrs
            else multiset(InsertRR(rr, rrs, sig)) == multiset(rrs) + multiset{rr}
  {
    hide Data, OctetsLess, Rising;
    OrdersAreTotal();
    if rrs == [] {
    } else if OctetsLess(Data(rr, sig), Data(rrs[0], sig)) {
      FrontRises(rr, rrs, sig);
    } else if Data(rr, sig) == Data(rrs[0], sig) {
      assert rrs[0] in rrs;
    } else {
      var rest := rrs[1..];
      assert rrs == [rrs[0]] + rest;
      TailRises(rrs, sig);
      InsertAddsIff(rr, rest, sig);
      assert forall x :: x in rrs <==> x == rrs[0] || x in rest;
    }
  }

  lemma FrontRises(rr: RR, rrs: seq<RR>, sig: Rrsig)
    requires Rising(rrs, sig) && rrs != [] && OctetsLess(Data(rr, sig), Data(rrs[0], sig))
    ensures Rising([rr] + rrs, sig)
    ensures forall x :: x in rrs ==> OctetsLess(Data(rr, sig), Data(x, sig))
  {
    hide Data, OctetsLess;
    OrdersAreTotal();
    forall x | x in rrs ensures OctetsLess(Data(rr, sig), Data(x, sig)) {
      var i :| 0 <= i < |rrs| && rrs[i] == x;
      assert i > 0 ==> OctetsLess(Data(rrs[0], sig), Data(rrs[i], sig));
    }
    FrontRisesOver(rr, rrs, sig);
  }

  lemma FrontRisesOver(rr: RR, rrs: seq<RR>, sig: Rrsig)
    requires Rising(rrs, sig) && forall x :: x in rrs ==> OctetsLess(Data(rr, sig), Data(x, sig))
    ensures Rising([rr] + rrs, sig)
  {
    hide Data, OctetsLess;
    var all := [rr] + rrs;
    forall i, j | 0 <= i < j < |all| ensures OctetsLess(Data(all[i], sig), Data(all[j], sig)) {
      assert all[j] == rrs[j - 1];
      if i > 0 { assert all[i] == rrs[i - 1]; }
    }
  }

  lemma {:induction false} ByRDataRises(rrs: seq<RR>, sig: Rrsig)
    ensures Rising(ByRData(rrs, sig), sig)
  {
    hide Rising, InsertRR;
    if rrs == [] {
      NothingRises(sig);
    } else {
      ByRDataRises(rrs[1..], sig);
      InsertRises(rrs[0], ByRData(rrs[1..], sig), sig);
    }
  }

  lemma NothingRises(sig: Rrsig)
    ensures Rising([], sig)
  {}

  /** Every RDATA of the set is in the sorted set. */
  lemma {:induction false} ByRDataHas(rrs: seq<RR>, sig: Rrsig, d: Text)
    ensures d in Datas(rrs, sig) <==> exists x :: x in ByRData(rrs, sig) && Data(x, sig) == d
  {
    hide Data, InsertRR, Rising;
    if rrs != [] && rrs[0].rtype == sig.typeCovered {
      var rest := ByRData(rrs[1..], sig);
      ByRDataHas(rrs[1..], sig, d);
      ByRDataRises(rrs[1..], sig);
      InsertHas(rrs[0], rest, sig, d);
    } else if rrs != [] {
      ByRDataHas(rrs[1..], sig, d);
    }
  }

  lemma InsertHas(rr: RR, rrs: seq<RR>, sig: Rrsig, d: Text)
    requires Rising(rrs, sig)
    ensures (exists x :: x in InsertRR(rr, rrs, sig) && Data(x, sig) == d) <==>
              d == Data(rr, sig) || exists x :: x in rrs && Data(x, sig) == d
  {
    hide Data, InsertRR, Rising;
    InsertAddsIff(rr, rrs, sig);
    var more := InsertRR(rr, rrs, sig);
    if !exists x :: x in rrs && Data(x, sig) == Data(rr, sig) {
      assert forall x :: x in more <==> x in multiset(more);
      assert forall x :: x in rrs <==> x in multiset(rrs);
      assert rr in multiset(more);
    }
  }

  /** The sorted set is as long as the set exactly if no RDATA occurs twice. */
  lemma {:induction false} ByRDataLength(rrs: seq<RR>, sig: Rrsig)
    ensures |ByRData(rrs, sig)| <= |Datas(rrs, sig)|
    ensures |ByRData(rrs, sig)| == |Datas(rrs, sig)| <==> Distinct(Datas(rrs, sig))
    ensures Distinct(Datas(rrs, sig)) ==> multiset(Wires(ByRData(rrs, sig), sig)) == multiset(Wires(rrs, sig))
  {
    hide Data, InsertRR, Rising, RecordBytes, Distinct;
    if rrs == [] {
      NothingTwice();
    } else {
      var tail := rrs[1..];
      ByRDataLength(tail, sig);
      if rrs[0].rtype == sig.typeCovered {
        var d := Data(rrs[0], sig);
        ByRDataHas(tail, sig, d);
        ByRDataRises(tail, sig);
        DistinctCons(d, Datas(tail, sig));
        InsertCounts(rrs[0], ByRData(tail, sig), sig);
      } else {
        assert Datas(rrs, sig) == Datas(tail, sig) && Wires(rrs, sig) == Wires(tail, sig);
      }
    }
  }

  lemma NothingTwice()
    ensures Distinct([])
  {}

  lemma InsertCounts(rr: RR, rrs: seq<RR>, sig: Rrsig)
    requires Rising(rrs, sig) && rr.rtype == sig.typeCovered
    ensures if exists x :: x in rrs && Data(x, sig) == Data(rr, sig) then InsertRR(rr, rrs, sig) == rrs
            else && |InsertRR(rr, rrs, sig)| == |rrs| + 1
                 && multiset(Wires(InsertRR(rr, rrs, sig), sig))
                   == multiset{RecordBytes(rr, sig)} + multiset(Wires(rrs, sig))
  {
    hide Data, InsertRR, Rising, RecordBytes;
    InsertAddsIff(rr, rrs, sig);
    if !exists x :: x in rrs && Data(x, sig) == Data(rr, sig) {
      var more, other := InsertRR(rr, rrs, sig), [rr] + rrs;
      assert multiset(other) == multiset(more);
      assert |multiset(more)| == |more| && |multiset(rrs)| == |rrs|;
      WiresOfPermutation(more, other, sig);
      assert other[0] == rr && other[1..] == rrs;
    }
  }

  lemma DistinctCons(d: Text, ds: seq<Text>)
    ensures Distinct([d] + ds) <==> d !in ds && Distinct(ds)
  {
    var all := [d] + ds;
    assert forall i :: 0 <= i < |ds| ==> all[i + 1] == ds[i];
    if Distinct(all) {
      forall i | 0 <= i < |ds| ensures ds[i] != d { assert all[0] != all[i + 1]; }
      forall i, j | 0 <= i < j < |ds| ensures ds[i] != ds[j] { assert all[i + 1] != all[j + 1]; }
    }
  }

  // ---- the octets of a set can be taken apart again ----

  ghost predicate IsWire(head: Text, w: Text) {
    |head| + 2 <= |w| && w[..|head|] == head && |w| == |head| + 2 + GetU16(w, |head|)
  }

  lemma RecordIsWire(rr: RR, sig: Rrsig, head: Text)
    requires Head(rr, sig) == head && |rr.rdata| < 0x1_0000
    ensures IsWire(head, RecordBytes(rr, sig))
  {
    hide CanonicalRData, NameBytes, WildcardOwner, PutU32;
    CanonicalRDataTwice(rr.rdata, sig.typeCovered);
    var d := Data(rr, sig);
    var w := RecordBytes(rr, sig);
    assert w == head + (PutU16(|d|) + d);
    assert w[|head|] == PutU16(|d|)[0] && w[|head| + 1] == PutU16(|d|)[1];
  }

  lemma {:induction false} WiresAreWires(rrs: seq<RR>, sig: Rrsig, head: Text)
    requires OneSet(rrs, sig, head)
    ensures forall w :: w in Wires(rrs, sig) ==> IsWire(head, w)
  {
    hide IsWire, RecordBytes, Head;
    if rrs != [] {
      assert rrs[0] in rrs;
      assert forall x :: x in rrs[1..] ==> x in rrs;
      WiresAreWires(rrs[1..], sig, head);
      if rrs[0].rtype == sig.typeCovered { RecordIsWire(rrs[0], sig, head); }
    }
  }

  lemma {:induction false} ConcatInjective(head: Text, a: seq<Text>, b: seq<Text>)
    requires forall w :: w in a || w in b ==> IsWire(head, w)
    requires Concat(a) == Concat(b)
    ensures a == b
    decreases |a|
  {
    if a != [] && b != [] {
      assert a[0] in a && b[0] in b;
      FirstWire(head, a, b);
      var s := Concat(a);
      assert Concat(a[1..]) == s[|a[0]|..] && Concat(b[1..]) == s[|b[0]|..];
      assert forall w :: w in a[1..] || w in b[1..] ==> w in a || w in b;
      ConcatInjective(head, a[1..], b[1..]);
      assert a == [a[0]] + a[1..] && b == [b[0]] + b[1..];
    } else {
      ConcatEmptyIff(head, a);
      ConcatEmptyIff(head, b);
    }
  }

  lemma ConcatEmptyIff(head: Text, ws: seq<Text>)
    requires forall w :: w in ws ==> IsWire(head, w)
    ensures Concat(ws) == [] <==> ws == []
  {
    if ws != [] { assert ws[0] in ws; }
  }

  lemma FirstWire(head: Text, a: seq<Text>, b: seq<Text>)
    requires a != [] && b != [] && IsWire(head, a[0]) && IsWire(head, b[0]) && Concat(a) == Concat(b)
    ensures a[0] == b[0]
  {
    var s, n := Concat(a), |head|;
    assert s[..|a[0]|] == a[0] && s[..|b[0]|] == b[0];
    assert a[0][n] == s[n] == b[0][n] && a[0][n + 1] == s[n + 1] == b[0][n + 1];
    assert |a[0]| == |b[0]|;
  }

  // ---- the two orders ----

  /** Of two records of unequal RDATA length, the shorter also comes first by RDATA. */
  ghost predicate ShorterFirst(ds: seq<Text>) {
    forall d, e :: d in ds && e in ds && |d| < |e| ==> OctetsLess(d, e)
  }

  lemma U16Order(x: u16, y: u16, a: Text, b: Text)
    ensures OctetsLess(PutU16(x) + a, PutU16(y) + b) <==> x < y || (x == y && OctetsLess(a, b))
  {
    var s, t := PutU16(x) + a, PutU16(y) + b;
    var s1, t1 := s[1..], t[1..];
    assert s1[1..] == a && t1[1..] == b;
    assert OctetsLess(s1, t1) <==> x % 256 < y % 256 || (x % 256 == y % 256 && OctetsLess(a, b));
    assert OctetsLess(s, t) <==> x / 256 < y / 256 || (x / 256 == y / 256 && OctetsLess(s1, t1));
  }

  lemma OctetsCancel(p: Text, a: Text, b: Text)
    ensures OctetsLess(p + a, p + b) == OctetsLess(a, b)
  {
    LexCancel(ByteLess, p, a, b);
  }

  /** Two records of one set are ordered by RDLENGTH first and by RDATA only then. */
  lemma SignedOrder(r: RR, r': RR, sig: Rrsig, head: Text)
    requires Head(r, sig) == head == Head(r', sig) && |r.rdata| < 0x1_0000 && |r'.rdata| < 0x1_0000
    ensures OctetsLess(RecordBytes(r, sig), RecordBytes(r', sig)) <==>
              || |Data(r, sig)| < |Data(r', sig)|
              || (|Data(r, sig)| == |Data(r', sig)| && OctetsLess(Data(r, sig), Data(r', sig)))
  {
    hide OctetsLess, CanonicalRData, NameBytes, WildcardOwner, PutU16, PutU32;
    CanonicalRDataTwice(r.rdata, sig.typeCovered);
    CanonicalRDataTwice(r'.rdata, sig.typeCovered);
    var d, d' := Data(r, sig), Data(r', sig);
    assert |d| % 0x1_0000 == |d| && |d'| % 0x1_0000 == |d'|;
    assert RecordBytes(r, sig) == head + (PutU16(|d|) + d);
    assert RecordBytes(r', sig) == head + (PutU16(|d'|) + d');
    OctetsCancel(head, PutU16(|d|) + d, PutU16(|d'|) + d');
    U16Order(|d|, |d'|, d, d');
  }

  lemma {:induction false} WiresOfCovered(rrs: seq<RR>, sig: Rrsig)
    requires Covered(rrs, sig)
    ensures |Wires(rrs, sig)| == |rrs| == |Datas(rrs, sig)|
    ensures forall i :: 0 <= i < |rrs| ==> Wires(rrs, sig)[i] == RecordBytes(rrs[i], sig)
  {
    hide RecordBytes, Data;
    if rrs != [] {
      assert rrs[0] in rrs && forall x :: x in rrs[1..] ==> x in rrs;
      WiresOfCovered(rrs[1..], sig);
    }
  }

  /** The standard's order of the set is also the order of the source exactly if shorter RDATA
      come first. */
  lemma SortedIff(rrs: seq<RR>, sig: Rrsig, head: Text)
    requires Covered(rrs, sig) && OneSet(rrs, sig, head) && Rising(rrs, sig)
    ensures IsSorted(Wires(rrs, sig)) <==>
              forall i, j :: 0 <= i < j < |rrs| ==> |Data(rrs[i], sig)| <= |Data(rrs[j], sig)|
  {
    hide OctetsLess, RecordBytes, Data, Head, Wires;
    OrdersAreTotal();
    WiresOfCovered(rrs, sig);
    forall i, j | 0 <= i < j < |rrs|
      ensures OctetsLess(Wires(rrs, sig)[j], Wires(rrs, sig)[i]) <==> |Data(rrs[j], sig)| < |Data(rrs[i], sig)|
    {
      assert rrs[i] in rrs && rrs[j] in rrs;
      SignedOrder(rrs[j], rrs[i], sig, head);
      assert OctetsLess(Data(rrs[i], sig), Data(rrs[j], sig));
    }
  }

  lemma ShorterFirstIff(rrs: seq<RR>, sorted: seq<RR>, sig: Rrsig)
    requires Rising(sorted, sig)
    requires forall d :: d in Datas(rrs, sig) <==> exists x :: x in sorted && Data(x, sig) == d
    ensures ShorterFirst(Datas(rrs, sig)) <==>
              forall i, j :: 0 <= i < j < |sorted| ==> |Data(sorted[i], sig)| <= |Data(sorted[j], sig)|
  {
    hide OctetsLess, Data, Datas;
    OrdersAreTotal();
    var ds := Datas(rrs, sig);
    if ShorterFirst(ds) {
      forall i, j | 0 <= i < j < |sorted| ensures |Data(sorted[i], sig)| <= |Data(sorted[j], sig)| {
        assert sorted[i] in sorted && sorted[j] in sorted;
        assert Data(sorted[i], sig) in ds && Data(sorted[j], sig) in ds;
        assert OctetsLess(Data(sorted[i], sig), Data(sorted[j], sig));
      }
    }
    if forall i, j :: 0 <= i < j < |sorted| ==> |Data(sorted[i], sig)| <= |Data(sorted[j], sig)| {
      forall d, e | d in ds && e in ds && |d| < |e| ensures OctetsLess(d, e) { InOrder(sorted, sig, d, e); }
    }
  }

  lemma InOrder(sorted: seq<RR>, sig: Rrsig, d: Text, e: Text)
    requires Rising(sorted, sig) && |d| < |e|
    requires forall i, j :: 0 <= i < j < |sorted| ==> |Data(sorted[i], sig)| <= |Data(sorted[j], sig)|
    requires exists x :: x in sorted && Data(x, sig) == d
    requires exists x :: x in sorted && Data(x, sig) == e
    ensures OctetsLess(d, e)
  {
    hide OctetsLess, Data;
    var i :| 0 <= i < |sorted| && Data(sorted[i], sig) == d;
    var j :| 0 <= j < |sorted| && Data(sorted[j], sig) == e;
    assert i < j;
  }

  /** The source signs the octets of the standard if and only if no two records of the set have
      equal canonical RDATA and, of any two of unequal length, the shorter comes first by RDATA. */
  lemma RfcOrderIff(rrset: seq<RR>, sig: Rrsig, head: Text)
    requires OneSet(rrset, sig, head)
    ensures BuildSignedData(rrset, sig) == RfcSignedData(rrset, sig)
       <==> Distinct(Datas(rrset, sig)) && ShorterFirst(Datas(rrset, sig))
  {
    hide Wires, Sort, Concat, ByRData, Datas, Distinct, ShorterFirst, OneSet, IsSorted, Rising, Covered, SigFields,
      NameBytes;
    var sorted := ByRData(rrset, sig);
    var ours, theirs := Sort(Wires(rrset, sig)), Wires(sorted, sig);
    SameOctetsIff(rrset, sig, head);
    ByRDataLength(rrset, sig);
    SortedSetFacts(rrset, sig, head);
    SortedIff(sorted, sig, head);
    ShorterFirstIff(rrset, sorted, sig);
    SortSorts(Wires(rrset, sig));
    if ours == theirs {
      SameLength(rrset, sig);
    }
    if Distinct(Datas(rrset, sig)) && ShorterFirst(Datas(rrset, sig)) {
      SortedUnique(ours, theirs);
    }
  }

  lemma SortedSetFacts(rrset: seq<RR>, sig: Rrsig, head: Text)
    requires OneSet(rrset, sig, head)
    ensures var sorted := ByRData(rrset, sig);
            && Covered(sorted, sig) && OneSet(sorted, sig, head) && Rising(sorted, sig)
            && forall d :: d in Datas(rrset, sig) <==> exists x :: x in sorted && Data(x, sig) == d
  {
    hide ByRData, Head, Rising, Data, Datas;
    forall x | x in ByRData(rrset, sig) ensures x in rrset && x.rtype == sig.typeCovered { ByRDataIn(rrset, sig, x); }
    ByRDataRises(rrset, sig);
    forall d ensures d in Datas(rrset, sig) <==> exists x :: x in ByRData(rrset, sig) && Data(x, sig) == d {
      ByRDataHas(rrset, sig, d);
    }
  }

  /** Equal octets are equal lists of records. */
  lemma SameOctetsIff(rrset: seq<RR>, sig: Rrsig, head: Text)
    requires OneSet(rrset, sig, head)
    ensures BuildSignedData(rrset, sig) == RfcSignedData(rrset, sig)
       <==> Sort(Wires(rrset, sig)) == Wires(ByRData(rrset, sig), sig)
  {
    hide Wires, Sort, Concat, ByRData, OneSet, IsWire, SigFields, NameBytes, IsSorted;
    var ours, theirs := Sort(Wires(rrset, sig)), Wires(ByRData(rrset, sig), sig);
    var front := SigFields(sig) + NameBytes(sig.signer);
    if front + Concat(ours) == front + Concat(theirs) {
      assert (front + Concat(ours))[|front|..] == Concat(ours);
      assert (front + Concat(theirs))[|front|..] == Concat(theirs);
      SortedSetFacts(rrset, sig, head);
      WiresAreWires(rrset, sig, head);
      WiresAreWires(ByRData(rrset, sig), sig, head);
      SortSorts(Wires(rrset, sig));
      assert forall w :: w in ours <==> w in multiset(ours);
      assert forall w :: w in multiset(ours) <==> w in Wires(rrset, sig);
      ConcatInjective(head, ours, theirs);
    }
  }

  lemma SameLength(rrset: seq<RR>, sig: Rrsig)
    requires Sort(Wires(rrset, sig)) == Wires(ByRData(rrset, sig), sig)
    ensures |ByRData(rrset, sig)| == |Datas(rrset, sig)|
  {
    hide Sort, ByRData, IsSorted;
    var ws := Wires(rrset, sig);
    SortSorts(ws);
    assert |multiset(Sort(ws))| == |Sort(ws)| && |multiset(ws)| == |ws|;
    forall x | x in ByRData(rrset, sig) ensures x.rtype == sig.typeCovered { ByRDataIn(rrset, sig, x); }
    WiresOfCovered(ByRData(rrset, sig), sig);
    WiresLength(rrset, sig);
  }

  lemma {:induction false} WiresLength(rrs: seq<RR>, sig: Rrsig)
    ensures |Wires(rrs, sig)| == |Datas(rrs, sig)|
  {
    hide RecordBytes, Data;
    if rrs != [] { WiresLength(rrs[1..], sig); }
  }

  /** In particular sets of equally long, different RDATA are signed as the standard says. */
  lemma EqualLengthsAgree(rrset: seq<RR>, sig: Rrsig, head: Text, n: nat)
    requires OneSet(rrset, sig, head) && Distinct(Datas(rrset, sig))
    requires forall d :: d in Datas(rrset, sig) ==> |d| == n
    ensures BuildSignedData(rrset, sig) == RfcSignedData(rrset, sig)
  {
    hide Datas, BuildSignedData, RfcSignedData;
    RfcOrderIff(rrset, sig, head);
  }

  // ---- two records ----

  const SHORT: RR := RR([97], 16, 1, 0, 1, [2])
  const LONG: RR := RR([97], 16, 1, 0, 2, [1, 1])
  const SIG: Rrsig := Rrsig(16, 13, 1, 0, 0, 0, 0, [], [])

  lemma SameHead()
    ensures Head(LONG, SIG) == Head(SHORT, SIG)
  {}

  /** Two TXT records whose signed octets are not those of the standard. */
  lemma RfcOrderCounterexample()
    ensures BuildSignedData([SHORT, LONG], SIG) != RfcSignedData([SHORT, LONG], SIG)
  {
    hide BuildSignedData, RfcSignedData, Head, Datas;
    var rrset := [SHORT, LONG];
    SampleDatas();
    SameHead();
    var ds := Datas(rrset, SIG);
    assert ds[0] in ds && ds[1] in ds && !OctetsLess(ds[0], ds[1]);
    RfcOrderIff(rrset, SIG, Head(SHORT, SIG));
  }

  lemma SampleDatas()
    ensures Datas([SHORT, LONG], SIG) == [[2], [1, 1]]
  {
    var rrset := [SHORT, LONG];
    var rest: seq<RR> := rrset[1..];
    assert rest == [LONG] && rest[1..] == [];
    assert Data(SHORT, SIG) == [2] && Data(LONG, SIG) == [1, 1];
    hide Data;
    assert Datas(rest[1..], SIG) == [];
    assert Datas(rest, SIG) == [Data(LONG, SIG)];
  }
}
