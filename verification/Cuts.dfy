/** NSEC denial of names below a delegation or a DNAME (section 4.1 of RFC 6840). */
module Cuts {
  import opened Bytes
  import opened Order
  import opened Records
  import opened Nsec
  import opened Denial

  /** A bitmap below which the zone has nothing of its own: a DNAME or a delegation. */
  predicate CutTypes(types: set<u16>) {
    TYPE_DNAME in types || ChildSide(types)
  }

  predicate IsCut(z: Zone, p: seq<Text>) {
    p in z.types && CutTypes(z.types[p])
  }

  /** A name the zone neither has nor denies: it redirects it or refers it to the child. */
  ghost predicate BelowCut(z: Zone, k: seq<Text>) {
    exists p :: IsCut(z, p) && p < k
  }

  /** No owner is below a cut, as in every zone that is signed by the rules. */
  ghost predicate CutsAreBare(z: Zone) {
    forall o :: o in z.owners ==> !BelowCut(z, o)
  }

  /** The record is of a proper ancestor of the name, with the bitmap of a cut. */
  predicate CutAbove(n: NsecRecord, name: Text) {
    Key(n.owner) < Key(name) && (TYPE_DNAME in n.types || (TYPE_NS in n.types && TYPE_SOA !in n.types))
  }

  lemma {:induction false} PrefixIsLess(a: seq<Text>, b: seq<Text>)
    requires a < b
    ensures NameLess(a, b)
  {
    hide OctetsLess;
    if a != [] { PrefixIsLess(a[1..], b[1..]); }
  }

  /** What comes between a name and one below it is below it too. */
  lemma BetweenIsBelow(p: seq<Text>, x: seq<Text>, k: seq<Text>)
    requires p < k && NameLess(p, x) && NameLess(x, k)
    ensures p < x
  {
    hide OctetsLess;
    OrdersAreTotal();
    CommonBetween(OctetsLess, p, x, k);
    CommonIsLongest(p, k, p);
    assert p != x && p == x[..|p|];
  }

  /** The link of a cut covers everything below the cut. */
  lemma CutLinkCovers(z: Zone, i: nat, k: seq<Text>)
    requires ValidZone(z) && CutsAreBare(z) && i < |z.owners| && IsCut(z, z.owners[i]) && z.owners[i] < k
    ensures LinkCovers(NameLess, z.owners, i, k)
  {
    hide NameLess;
    OrdersAreTotal();
    var p, next := z.owners[i], Next(z.owners, i);
    PrefixIsLess(p, k);
    NextIs(z.owners, i);
    if i + 1 < |z.owners| {
      assert NameLess(p, next) && next in z.owners;
      assert !(p < next);
      assert next != k;
      if NameLess(next, k) { BetweenIsBelow(p, next, k); }
    } else {
      assert i == 0 || NameLess(z.owners[0], p);
    }
  }

  /** A name below a cut is no owner, and only the link of the cut covers it. */
  lemma BelowIsCovered(z: Zone, p: seq<Text>, k: seq<Text>) returns (i: nat)
    requires ValidZone(z) && CutsAreBare(z) && IsCut(z, p) && p < k
    ensures k !in z.types
    ensures i < |z.owners| && z.owners[i] == p && LinkCovers(NameLess, z.owners, i, k)
    ensures forall j: nat :: j < |z.owners| && LinkCovers(NameLess, z.owners, j, k) ==> j == i
  {
    hide NameLess, LinkCovers;
    OrdersAreTotal();
    assert p in z.owners;
    i :| 0 <= i < |z.owners| && z.owners[i] == p;
    CutLinkCovers(z, i, k);
    ChainPartition(NameLess, z.owners, k);
    assert k in z.types ==> BelowCut(z, k);
  }

  /** Its closest encloser is the cut. */
  lemma CutEncloses(z: Zone, p: seq<Text>, k: seq<Text>)
    requires ValidZone(z) && CutsAreBare(z) && IsCut(z, p) && p < k
    ensures IsClosestEncloser(z, k, p)
  {
    OwnerIsThere(z, p);
    forall q | q <= k && Exists(z, q) ensures |q| <= |p| {
      var o :| o in z.owners && q <= o;
      LongerIsBelow(p, q, k, o);
      assert !(p < o);
    }
  }

  lemma LongerIsBelow(p: seq<Text>, q: seq<Text>, k: seq<Text>, o: seq<Text>)
    requires p <= k && q <= k && q <= o
    ensures |q| > |p| ==> p < o
  {
    assert |q| > |p| ==> p == k[..|p|] == q[..|p|] == o[..|p|];
  }

  lemma CutRecord(z: Zone, n: NsecRecord, name: Text, i: nat)
    requires ValidZone(z) && IsLink(z, n, i)
    ensures CutAbove(n, name) <==> IsCut(z, z.owners[i]) && z.owners[i] < Key(name)
  {
    hide Key;
  }

  /** The link of the cut is among the records exactly if one of them is a cut above the name. */
  lemma ShownBelow(z: Zone, name: Text, records: seq<NsecRecord>, p: seq<Text>)
    requires ValidZone(z) && CutsAreBare(z) && TrueRecords(z, records) && IsCut(z, p) && p < Key(name)
    ensures Shown(z, records, Key(name)) <==> exists n :: n in records && CutAbove(n, name)
    ensures Shown(z, records, Key(name)) ==> Shown(z, records, p + [[STAR]])
  {
    hide Key, NameLess, LinkCovers, CutAbove, IsCut, CutsAreBare;
    var k := Key(name);
    var i := BelowIsCovered(z, p, k);
    var star := BelowIsCovered(z, p, p + [[STAR]]);
    assert star == i by { SameIndex(z, i, star); }
    if Shown(z, records, k) {
      var n, j: nat :| n in records && IsLink(z, n, j) && (z.owners[j] == k || LinkCovers(NameLess, z.owners, j, k));
      assert z.owners[j] in z.owners by { LinkOwner(z, n, j); }
      assert j == i;
      CutRecord(z, n, name, i);
    }
    if n :| n in records && CutAbove(n, name) {
      assert TrueRecord(z, n);
      var j: nat :| IsLink(z, n, j);
      LinkOwner(z, n, j);
      CutRecord(z, n, name, j);
      var own := BelowIsCovered(z, z.owners[j], k);
      SameIndex(z, own, j);
    }
  }

  lemma LinkOwner(z: Zone, n: NsecRecord, j: nat)
    requires IsLink(z, n, j)
    ensures j < |z.owners| && z.owners[j] in z.owners && z.owners[j] in z.types
  {}

  lemma SameIndex(z: Zone, i: nat, j: nat)
    requires ValidZone(z) && i < |z.owners| && j < |z.owners| && z.owners[i] == z.owners[j]
    ensures i == j
  {
    hide NameLess;
    OrdersAreTotal();
    assert forall a, b :: 0 <= a < b < |z.owners| ==> z.owners[a] != z.owners[b];
  }

  /** The checker never looks at the bitmap of a covering record, so it accepts a denial below a
      cut, exactly, if the response is NXDOMAIN and some record is of a cut above the name. That
      one record covers both the name and the wildcard. */
  lemma BelowCutAcceptedIff(z: Zone, qname: Text, qtype: u16, rcode: byte, records: seq<NsecRecord>)
    requires ValidZone(z) && CutsAreBare(z) && TrueRecords(z, records) && WellFormed(qname)
    ensures VerifyNSECDenial(qname, qtype, rcode, records) == Some(true) && BelowCut(z, Key(qname))
       <==> rcode == RCODE_NXDOMAIN && exists n :: n in records && CutAbove(n, qname)
  {
    hide Key, WellFormed, VerifyNSECDenial, Shown, TrueRecord, ValidZone, IsCut, CutsAreBare, CutAbove,
      IsClosestEncloser;
    var k := Key(qname);
    DenialAcceptsIff(z, qname, qtype, rcode, records);
    if p :| IsCut(z, p) && p < k {
      ShownBelow(z, qname, records, p);
      var i := BelowIsCovered(z, p, k);
      var star := BelowIsCovered(z, p, p + [[STAR]]);
      CutEncloses(z, p, k);
      forall e | IsClosestEncloser(z, k, e) ensures e == p { ClosestEncloserUnique(z, k, e, p); }
    }
    if n :| n in records && CutAbove(n, qname) { RecordShowsCut(z, n, qname); }
  }

  lemma RecordShowsCut(z: Zone, n: NsecRecord, name: Text)
    requires ValidZone(z) && TrueRecord(z, n) && CutAbove(n, name)
    ensures BelowCut(z, Key(name))
  {
    hide Key;
    var i: nat :| IsLink(z, n, i);
    CutRecord(z, n, name, i);
  }

  /** All that the checker accepts and should not: the zone answers for the type, or the name is
      below a cut. */
  lemma DenialFalseIff(z: Zone, qname: Text, qtype: u16, rcode: byte, records: seq<NsecRecord>)
    requires ValidZone(z) && CutsAreBare(z) && TrueRecords(z, records) && WellFormed(qname)
    ensures && VerifyNSECDenial(qname, qtype, rcode, records) == Some(true)
            && (Answers(z, Key(qname), qtype) || BelowCut(z, Key(qname)))
       <==> && rcode == RCODE_NXDOMAIN
            && exists n :: n in records
                 && (CutAbove(n, qname) || (Compact(n, CanonicalName(qname)) && qtype in n.types))
  {
    hide Key, WellFormed, VerifyNSECDenial, ValidZone, CutsAreBare, TrueRecords, Answers, BelowCut, Compact, CutAbove,
      CanonicalName;
    DenialWrongIff(z, qname, qtype, rcode, records);
    BelowCutAcceptedIff(z, qname, qtype, rcode, records);
  }

  /** "b" is delegated, or has a DNAME: its record alone is accepted as NXDOMAIN for "a.b". */
  lemma BelowCutCounterexample(t: u16)
    requires t == TYPE_NS || t == TYPE_DNAME
    ensures var z, n := Denial.TwoNames([98], [t]), NsecRecord([98], [], [t]);
            && ValidZone(z) && CutsAreBare(z) && TrueRecords(z, [n]) && BelowCut(z, Key([97, DOT, 98]))
            && VerifyNSECDenial([97, DOT, 98], TYPE_A, RCODE_NXDOMAIN, [n]) == Some(true)
  {
    hide Key, WellFormed, VerifyNSECDenial, NameLess;
    var z, n, name := Denial.TwoNames([98], [t]), NsecRecord([98], [], [t]), [97, DOT, 98];
    assert name == [97] + [DOT] + [98];
    KeyOfTwoLabels([97], [98]);
    KeyOfOneLabel([98]);
    TwoNamesChain([98], [t]);
    assert n == TwoRecords([98], [t])[1];
    assert TrueRecord(z, n);
    TwoNamesBare(z);
    assert Key(n.owner) < Key(name);
    assert n in [n] && CutAbove(n, name);
    BelowCutAcceptedIff(z, name, TYPE_A, RCODE_NXDOMAIN, [n]);
  }

  lemma TwoNamesBare(z: Zone)
    requires z.owners == [[], [[98]]] && z.types.Keys == {[], [[98]]} && z.types[[]] == {TYPE_SOA, TYPE_NS}
    ensures CutsAreBare(z)
  {
    assert !IsCut(z, []);
    forall o | o in z.owners ensures !BelowCut(z, o) { assert o == [] || o == [[98]]; }
  }
}
