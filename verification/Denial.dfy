/** Soundness of NSEC denial against a zone with wildcards (RFC 4592 section 3.3.1). */
module Denial {
  import opened Bytes
  import opened Labels
  import opened Order
  import opened Records
  import opened Nsec
  import Compression

  /** A zone: the owners of record sets in canonical order and the types present at each. */
  datatype Zone = Zone(owners: seq<seq<Text>>, types: map<seq<Text>, set<u16>>)

  ghost predicate ValidZone(z: Zone) {
    && |z.owners| >= 1
    && Ascending(NameLess, z.owners)
    && (forall o :: o in z.owners <==> o in z.types)
  }

  /** The name is an owner or an ancestor of one (an empty non-terminal exists too). */
  ghost predicate Exists(z: Zone, k: seq<Text>) {
    exists o :: o in z.owners && k <= o
  }

  /** The longest ancestor-or-self of k that exists. */
  ghost predicate IsClosestEncloser(z: Zone, k: seq<Text>, ce: seq<Text>) {
    && ce <= k && Exists(z, ce)
    && forall p :: p <= k && Exists(z, p) ==> |p| <= |ce|
  }

  predicate HasType(z: Zone, k: seq<Text>, t: u16) {
    k in z.types && t in z.types[k]
  }

  /** The zone has a record set of type t for the name, its own or synthesised from the
      wildcard below its closest encloser. */
  ghost predicate Answers(z: Zone, k: seq<Text>, t: u16) {
    if Exists(z, k) then HasType(z, k, t)
    else exists ce :: IsClosestEncloser(z, k, ce) && HasType(z, ce + [[STAR]], t)
  }

  /** Names as the rest of the program holds them: no empty label. */
  predicate WellFormed(name: Text) {
    AllNonEmpty(CanonicalLabels(name))
  }

  /** The record is link i of the zone's chain, with the types of its owner. */
  ghost predicate IsLink(z: Zone, n: NsecRecord, i: nat) {
    && i < |z.owners|
    && Key(n.owner) == z.owners[i] && Key(n.next) == Next(z.owners, i)
    && z.owners[i] in z.types && (forall t :: t in n.types <==> t in z.types[z.owners[i]])
  }

  ghost predicate TrueRecord(z: Zone, n: NsecRecord) {
    WellFormed(n.owner) && WellFormed(n.next) && exists i: nat :: IsLink(z, n, i)
  }

  ghost predicate TrueRecords(z: Zone, records: seq<NsecRecord>) {
    forall n :: n in records ==> TrueRecord(z, n)
  }

  // ---- texts and keys ----

  lemma LowerIdempotent(s: Text)
    ensures Lower(Lower(s)) == Lower(s)
  {}

  lemma KeyDeterminesName(a: Text, b: Text)
    ensures CanonicalName(a) == CanonicalName(b) <==> Key(a) == Key(b)
  {
    hide Split, Join, CanonicalName;
    JoinSplit(CanonicalName(a));
    JoinSplit(CanonicalName(b));
    if Key(a) == Key(b) {
      assert CanonicalLabels(a) == Reverse(Key(a)) && CanonicalLabels(b) == Reverse(Key(b));
    }
  }

  /** Canonicalising twice changes nothing. */
  lemma CanonicalTwice(name: Text)
    requires WellFormed(name)
    ensures CanonicalName(CanonicalName(name)) == CanonicalName(name)
    ensures Key(CanonicalName(name)) == Key(name)
    ensures WellFormed(CanonicalName(name))
  {
    hide Split;
    var t := CanonicalName(name);
    if t != [] && t[|t| - 1] == DOT { Compression.TrailingDot(t); }
    LowerIdempotent(TrimDot(name));
  }

  lemma {:induction false} CountDotsOfJoin(ls: seq<Text>)
    requires |ls| >= 1 && AllDotFree(ls)
    ensures CountDots(Join(ls)) == |ls| - 1
  {
    if |ls| == 1 {
      NoDots(ls[0]);
    } else {
      CountDotsOfJoin(ls[1..]);
      NoDots(ls[0]);
      CountDotsConcat(ls[0], [DOT] + Join(ls[1..]));
      assert ls[0] + ([DOT] + Join(ls[1..])) == Join(ls);
      assert ([DOT] + Join(ls[1..]))[1..] == Join(ls[1..]);
    }
  }

  lemma {:induction false} NoDots(l: Text)
    requires DotFree(l)
    ensures CountDots(l) == 0
  {
    if l != [] { NoDots(l[1..]); }
  }

  lemma {:induction false} CountDotsConcat(a: Text, b: Text)
    ensures CountDots(a + b) == CountDots(a) + CountDots(b)
  {
    if a == [] {
      assert a + b == b;
    } else {
      assert (a + b)[1..] == a[1..] + b;
      CountDotsConcat(a[1..], b);
    }
  }

  /** The last n labels of a canonical name, as a name of their own. */
  lemma SuffixName(name: Text, n: nat)
    requires WellFormed(name) && n <= |CanonicalLabels(name)|
    ensures var ls := CanonicalLabels(name);
            var t := Join(ls[|ls| - n..]);
            && CanonicalName(t) == t && CanonicalLabels(t) == ls[|ls| - n..]
            && WellFormed(t) && LabelCount(t) == n && Key(t) == Key(name)[..n]
  {
    hide Split, Join, CountDots;
    var ls := CanonicalLabels(name);
    var s := ls[|ls| - n..];
    var t := Join(s);
    if n == 0 {
      JoinNothing(s);
      assert Key(t) == [] && Key(name)[..0] == [];
    } else {
      JoinSplit(CanonicalName(name));
      assert AllDotFree(s) && AllNonEmpty(s);
      SplitJoin(s);
      JoinLength(s);
      CountDotsOfJoin(s);
      if t[|t| - 1] == DOT { Compression.TrailingDot(t); }
      SuffixIsLower(ls, n);
      assert CanonicalLabels(t) == s;
      assert Key(t) == Key(name)[..n];
    }
  }

  lemma JoinNothing(s: seq<Text>)
    requires s == []
    ensures Join(s) == []
  {}

  lemma SuffixIsLower(ls: seq<Text>, n: nat)
    requires 0 < n <= |ls| && Lower(Join(ls)) == Join(ls)
    ensures Lower(Join(ls[|ls| - n..])) == Join(ls[|ls| - n..])
  {
    hide Join;
    var p, s := ls[..|ls| - n], ls[|ls| - n..];
    assert ls == p + s;
    if p == [] {
      assert ls == s;
    } else {
      JoinConcat(p, s);
      TailIsLower(Join(p) + [DOT], Join(s));
    }
  }

  lemma TailIsLower(a: Text, b: Text)
    requires Lower(a + b) == a + b
    ensures Lower(b) == b
  {
    forall i | 0 <= i < |b| ensures LowerByte(b[i]) == b[i] {
      assert (a + b)[|a| + i] == b[i];
    }
  }

  lemma ClosestEncloserKey(q: Text, owner: Text, next: Text)
    requires WellFormed(q)
    ensures var a, b := Common(Key(q), Key(owner)), Common(Key(q), Key(next));
            var ce := ClosestEncloser(q, owner, next);
            && Key(ce) == Key(q)[..if a >= b then a else b]
            && WellFormed(ce) && CanonicalName(ce) == ce
  {
    hide CanonicalName, CanonicalLabels, LabelCount, WellFormed, Common, Join, Reverse;
    SuffixName(q, Common(Key(q), Key(owner)));
    SuffixName(q, Common(Key(q), Key(next)));
  }

  lemma WildcardKey(ce: Text)
    requires WellFormed(ce) && CanonicalName(ce) == ce
    ensures Key(WildcardOf(ce)) == Key(ce) + [[STAR]]
    ensures CanonicalName(WildcardOf(ce)) == WildcardOf(ce) && WellFormed(WildcardOf(ce))
  {
    hide Split;
    var w := WildcardOf(ce);
    SplitOfDotFree([STAR]);
    if ce == [] {
      assert Lower(w) == w && TrimDot(w) == w;
      assert CanonicalLabels(w) == [[STAR]];
    } else {
      assert w == [STAR] + [DOT] + ce;
      SplitConcat([STAR], ce);
      if ce[|ce| - 1] == DOT { Compression.TrailingDot(ce); }
      assert TrimDot(w) == w && Lower(w) == w by {
        forall i | 0 <= i < |w| ensures LowerByte(w[i]) == w[i] {
          if i >= 2 { assert w[i] == ce[i - 2]; }
        }
      }
      assert CanonicalLabels(w) == [[STAR]] + CanonicalLabels(ce);
    }
  }

  // ---- the closest encloser ----

  /** For every chain and every covered name, closestEncloser computed from the two ends of the
      covering link is the longest ancestor of the name that exists anywhere in the zone. */
  lemma ClosestEncloserIsLongest(z: Zone, q: Text, n: NsecRecord, i: nat)
    requires ValidZone(z) && WellFormed(q) && IsLink(z, n, i)
    requires LinkCovers(NameLess, z.owners, i, Key(q))
    ensures IsClosestEncloser(z, Key(q), Key(ClosestEncloser(q, n.owner, n.next)))
  {
    hide Key, ClosestEncloser, WellFormed, LinkCovers, NameLess;
    OrdersAreTotal();
    var k, owner, next := Key(q), z.owners[i], Next(z.owners, i);
    ClosestEncloserKey(q, n.owner, n.next);
    var a, b := Common(k, owner), Common(k, next);
    var ce := Key(ClosestEncloser(q, n.owner, n.next));
    assert Exists(z, ce) by {
      if a >= b {
        assert ce == owner[..a] && owner in z.owners;
      } else {
        assert ce == next[..b] && next in z.owners;
      }
    }
    forall p | p <= k && Exists(z, p) ensures |p| <= |ce| {
      var o :| o in z.owners && p <= o;
      var j :| 0 <= j < |z.owners| && z.owners[j] == o;
      CommonIsLongest(k, o, p);
      LexShareMost(z, i, k, j);
    }
  }

  lemma LexShareMost(z: Zone, i: nat, k: seq<Text>, j: nat)
    requires ValidZone(z) && i < |z.owners| && j < |z.owners|
    requires LinkCovers(NameLess, z.owners, i, k)
    ensures Common(k, z.owners[j]) <= Common(k, z.owners[i]) || Common(k, z.owners[j]) <= Common(k, Next(z.owners, i))
  {
    OrdersAreTotal();
    NeighboursShareMost(OctetsLess, NameLess, z.owners, i, k, j);
  }

  lemma ClosestEncloserUnique(z: Zone, k: seq<Text>, a: seq<Text>, b: seq<Text>)
    requires IsClosestEncloser(z, k, a) && IsClosestEncloser(z, k, b)
    ensures a == b
  {
    assert |a| == |b|;
    assert a == k[..|a|] && b == k[..|b|];
  }

  // ---- soundness of the checker ----

  /** A covering record of the true chain denies that the name is an owner. */
  lemma CoveredIsNoOwner(z: Zone, n: NsecRecord, name: Text)
    requires ValidZone(z) && TrueRecord(z, n) && WellFormed(name)
    requires RecordCovers(n, CanonicalName(name))
    ensures Key(name) !in z.types
    ensures exists i: nat :: IsLink(z, n, i) && LinkCovers(NameLess, z.owners, i, Key(name))
  {
    hide Key, CanonicalName, WellFormed, NameLess;
    CanonicalTwice(n.owner);
    CanonicalTwice(n.next);
    CanonicalTwice(name);
    var i: nat :| IsLink(z, n, i);
    assert LinkCovers(NameLess, z.owners, i, Key(name));
    OrdersAreTotal();
    ChainPartition(NameLess, z.owners, Key(name));
  }

  /** Branch 1: a record at the name itself. */
  lemma DeniesTypeSound(z: Zone, n: NsecRecord, qname: Text, qtype: u16)
    requires ValidZone(z) && TrueRecord(z, n)
    requires DeniesType(n, CanonicalName(qname), qtype)
    ensures !Answers(z, Key(qname), qtype) && !Answers(z, Key(qname), TYPE_CNAME)
  {
    hide Key, CanonicalName, WellFormed;
    KeyDeterminesName(n.owner, qname);
    var i: nat :| IsLink(z, n, i);
    assert z.owners[i] in z.owners && Key(qname) <= z.owners[i];
  }

  /** Branch 3: a covering record for the name and a denial of its wildcard. */
  lemma CoveredSound(z: Zone, qname: Text, qtype: u16, c: NsecRecord, w: NsecRecord)
    requires ValidZone(z) && TrueRecord(z, c) && TrueRecord(z, w) && WellFormed(qname)
    requires RecordCovers(c, CanonicalName(qname))
    requires var q := CanonicalName(qname);
             DeniesWildcard(w, WildcardOf(ClosestEncloser(q, CanonicalName(c.owner), CanonicalName(c.next))), qtype)
    ensures !Answers(z, Key(qname), qtype) && !Answers(z, Key(qname), TYPE_CNAME)
  {
    hide Key, CanonicalName, WellFormed, ClosestEncloser, LinkCovers, RecordCovers, WildcardOf;
    CoveredIsNoOwner(z, c, qname);
    var wildcard := WildcardBelow(z, qname, c);
    WildcardDenied(z, w, wildcard, qtype);
    var ce :| IsClosestEncloser(z, Key(qname), ce) && Key(wildcard) == ce + [[STAR]];
    if !Exists(z, Key(qname)) {
      forall e | IsClosestEncloser(z, Key(qname), e) ensures e == ce {
        ClosestEncloserUnique(z, Key(qname), e, ce);
      }
    }
  }

  lemma WildcardDenied(z: Zone, w: NsecRecord, wildcard: Text, qtype: u16)
    requires ValidZone(z) && TrueRecord(z, w) && DeniesWildcard(w, wildcard, qtype)
    requires WellFormed(wildcard) && CanonicalName(wildcard) == wildcard
    ensures !HasType(z, Key(wildcard), qtype) && !HasType(z, Key(wildcard), TYPE_CNAME)
  {
    hide Key, CanonicalName, WellFormed, RecordCovers, LinkCovers;
    if RecordCovers(w, wildcard) {
      CoveredIsNoOwner(z, w, wildcard);
    } else {
      KeyDeterminesName(w.owner, wildcard);
    }
  }

  lemma {:induction false} FirstCoveringCovers(records: seq<NsecRecord>, q: Text)
    requires FirstCovering(records, q).Some?
    ensures FirstCovering(records, q).value in records && RecordCovers(FirstCovering(records, q).value, q)
  {
    hide RecordCovers;
    if !RecordCovers(records[0], q) { FirstCoveringCovers(records[1..], q); }
  }

  /** What acceptance means when every record is from the true chain. */
  lemma AcceptedMeans(z: Zone, qname: Text, qtype: u16, rcode: byte, records: seq<NsecRecord>)
    requires ValidZone(z) && TrueRecords(z, records) && WellFormed(qname)
    requires VerifyNSECDenial(qname, qtype, rcode, records) == Some(true)
    ensures || (!Answers(z, Key(qname), qtype) && !Answers(z, Key(qname), TYPE_CNAME))
            || (rcode == RCODE_NXDOMAIN && exists n :: n in records && Compact(n, CanonicalName(qname)))
  {
    hide Key, CanonicalName, WellFormed, Answers, RecordCovers, ClosestEncloser, DeniesWildcard, TrueRecord, ValidZone;
    var q := CanonicalName(qname);
    if n :| n in records && DeniesType(n, q, qtype) {
      DeniesTypeSound(z, n, qname, qtype);
    } else if !exists n :: n in records && Compact(n, q) {
      FirstCoveringCovers(records, q);
      var c := FirstCovering(records, q).value;
      var wildcard := WildcardOf(ClosestEncloser(q, CanonicalName(c.owner), CanonicalName(c.next)));
      var w :| w in records && DeniesWildcard(w, wildcard, qtype);
      CoveredSound(z, qname, qtype, c, w);
    }
  }

  /** Denial soundness: records of the zone's true chain are accepted only when the zone has
      neither the type nor an alias for the name, directly or by wildcard synthesis. The
      compact-denial branch never looks at the type, so it must not be the one that accepts. */
  lemma DenialSound(z: Zone, qname: Text, qtype: u16, rcode: byte, records: seq<NsecRecord>)
    requires ValidZone(z) && TrueRecords(z, records) && WellFormed(qname)
    requires rcode != RCODE_NXDOMAIN || forall n :: n in records ==> CanonicalName(n.owner) != CanonicalName(qname)
    requires VerifyNSECDenial(qname, qtype, rcode, records) == Some(true)
    ensures !Answers(z, Key(qname), qtype) && !Answers(z, Key(qname), TYPE_CNAME)
  {
    hide Key, CanonicalName, WellFormed, Answers, VerifyNSECDenial, ValidZone, TrueRecords;
    AcceptedMeans(z, qname, qtype, rcode, records);
  }

  lemma OwnedAnswers(z: Zone, n: NsecRecord, qname: Text, qtype: u16)
    requires ValidZone(z) && TrueRecord(z, n) && CanonicalName(n.owner) == CanonicalName(qname)
    ensures Answers(z, Key(qname), qtype) <==> qtype in n.types
  {
    hide Key, CanonicalName, WellFormed;
    KeyDeterminesName(n.owner, qname);
    var i: nat :| IsLink(z, n, i);
    assert z.owners[i] in z.owners && Key(qname) <= z.owners[i];
  }

  /** Exactly when the checker is wrong: it accepts although the zone answers for the type if
      and only if the response is NXDOMAIN and some record at the name shows the type in a
      bitmap without CNAME, DNAME or a delegation. */
  lemma DenialWrongIff(z: Zone, qname: Text, qtype: u16, rcode: byte, records: seq<NsecRecord>)
    requires ValidZone(z) && TrueRecords(z, records) && WellFormed(qname)
    ensures VerifyNSECDenial(qname, qtype, rcode, records) == Some(true) && Answers(z, Key(qname), qtype)
       <==> rcode == RCODE_NXDOMAIN
            && exists n :: n in records && Compact(n, CanonicalName(qname)) && qtype in n.types
  {
    hide Key, CanonicalName, WellFormed, Answers, RecordCovers, ClosestEncloser, DeniesWildcard, TrueRecord, ValidZone;
    var q := CanonicalName(qname);
    if VerifyNSECDenial(qname, qtype, rcode, records) == Some(true) && Answers(z, Key(qname), qtype) {
      AcceptedMeans(z, qname, qtype, rcode, records);
    }
    forall n | n in records && Compact(n, q) ensures Answers(z, Key(qname), qtype) <==> qtype in n.types {
      OwnedAnswers(z, n, qname, qtype);
    }
  }

  /** A zone with an address record at "a" and nothing else, for which the compact-denial branch
      denies that address. */
  lemma CompactDenialCounterexample()
    ensures var z, n := Zone([[[97]]], map[[[97]] := {TYPE_A}]), NsecRecord([97], [97], [TYPE_A]);
            && ValidZone(z) && TrueRecords(z, [n]) && WellFormed([97])
            && VerifyNSECDenial([97], TYPE_A, RCODE_NXDOMAIN, [n]) == Some(true)
            && Answers(z, Key([97]), TYPE_A)
  {
    var z, n := Zone([[[97]]], map[[[97]] := {TYPE_A}]), NsecRecord([97], [97], [TYPE_A]);
    KeyOfOneLabel([97]);
    assert ValidZone(z);
    assert Next(z.owners, 0) == z.owners[0];
    assert IsLink(z, n, 0);
    assert Compact(n, CanonicalName([97])) && n in [n];
    DenialWrongIff(z, [97], TYPE_A, RCODE_NXDOMAIN, [n]);
  }

  lemma KeyOfOneLabel(l: Text)
    requires l != [] && DotFree(l) && Lower(l) == l
    ensures CanonicalName(l) == l && Key(l) == [l] && WellFormed(l)
  {
    SplitOfDotFree(l);
    assert l[|l| - 1] in l;
  }

  // ---- the exact meaning of acceptance ----

  /** The records contain the one link of the chain that owns or covers the key. */
  ghost predicate Shown(z: Zone, records: seq<NsecRecord>, k: seq<Text>) {
    exists n, i: nat :: n in records && IsLink(z, n, i) && (z.owners[i] == k || LinkCovers(NameLess, z.owners, i, k))
  }

  /** What a bitmap at the name itself must lack; an NXDOMAIN response may even list the type. */
  predicate TypesDenied(types: set<u16>, qtype: u16, rcode: byte) {
    && TYPE_CNAME !in types && !ChildSide(types)
    && (qtype !in types || (rcode == RCODE_NXDOMAIN && TYPE_DNAME !in types))
  }

  /** The bitmap of a delegation point. */
  predicate ChildSide(types: set<u16>) {
    TYPE_NS in types && TYPE_SOA !in types
  }

  /** The wildcard below the closest encloser is shown to own neither the type nor an alias. */
  ghost predicate WildcardShownAbsent(z: Zone, records: seq<NsecRecord>, k: seq<Text>, qtype: u16) {
    exists ce :: IsClosestEncloser(z, k, ce) && Shown(z, records, ce + [[STAR]])
                 && !HasType(z, ce + [[STAR]], qtype) && !HasType(z, ce + [[STAR]], TYPE_CNAME)
  }

  /** A true record against a name: it is at the name or covers it exactly as its link does. */
  lemma RecordIsLink(z: Zone, n: NsecRecord, name: Text, i: nat)
    requires TrueRecord(z, n) && IsLink(z, n, i) && WellFormed(name)
    ensures CanonicalName(n.owner) == CanonicalName(name) <==> z.owners[i] == Key(name)
    ensures RecordCovers(n, CanonicalName(name)) <==> LinkCovers(NameLess, z.owners, i, Key(name))
  {
    hide Key, CanonicalName, WellFormed, NameLess;
    KeyDeterminesName(n.owner, name);
    CanonicalTwice(n.owner);
    CanonicalTwice(n.next);
    CanonicalTwice(name);
  }

  /** So a key is shown exactly if some record is at the name or covers it. */
  lemma ShownByRecord(z: Zone, records: seq<NsecRecord>, name: Text)
    requires TrueRecords(z, records) && WellFormed(name)
    ensures Shown(z, records, Key(name)) <==>
              exists n :: n in records
                && (CanonicalName(n.owner) == CanonicalName(name) || RecordCovers(n, CanonicalName(name)))
  {
    hide Key, CanonicalName, WellFormed, LinkCovers, RecordCovers;
    var q := CanonicalName(name);
    if Shown(z, records, Key(name)) {
      var n, i: nat :| n in records && IsLink(z, n, i)
          && (z.owners[i] == Key(name) || LinkCovers(NameLess, z.owners, i, Key(name)));
      RecordIsLink(z, n, name, i);
    }
    if n :| n in records && (CanonicalName(n.owner) == q || RecordCovers(n, q)) {
      assert TrueRecord(z, n);
      var i: nat :| IsLink(z, n, i);
      RecordIsLink(z, n, name, i);
    }
  }

  /** Records at an owner carry its types; no record covers an owner, and none is at another name. */
  lemma RecordSides(z: Zone, n: NsecRecord, name: Text)
    requires ValidZone(z) && TrueRecord(z, n) && WellFormed(name)
    ensures CanonicalName(n.owner) == CanonicalName(name) ==>
              Key(name) in z.types && forall t :: t in n.types <==> t in z.types[Key(name)]
    ensures RecordCovers(n, CanonicalName(name)) ==> Key(name) !in z.types
  {
    hide Key, CanonicalName, WellFormed, LinkCovers, RecordCovers;
    var i: nat :| IsLink(z, n, i);
    RecordIsLink(z, n, name, i);
    if RecordCovers(n, CanonicalName(name)) { CoveredIsNoOwner(z, n, name); }
  }

  lemma {:induction false} FirstCoveringFound(records: seq<NsecRecord>, q: Text, n: NsecRecord)
    requires n in records && RecordCovers(n, q)
    ensures FirstCovering(records, q).Some?
  {
    hide RecordCovers;
    if !RecordCovers(records[0], q) { FirstCoveringFound(records[1..], q, n); }
  }

  lemma OwnerAcceptsIff(z: Zone, qname: Text, qtype: u16, rcode: byte, records: seq<NsecRecord>)
    requires ValidZone(z) && TrueRecords(z, records) && WellFormed(qname) && Key(qname) in z.types
    ensures VerifyNSECDenial(qname, qtype, rcode, records) == Some(true)
       <==> Shown(z, records, Key(qname)) && TypesDenied(z.types[Key(qname)], qtype, rcode)
  {
    hide Key, CanonicalName, WellFormed, RecordCovers, ClosestEncloser, DeniesWildcard, ValidZone, Shown, WildcardOf;
    var q := CanonicalName(qname);
    ShownByRecord(z, records, qname);
    forall n | n in records
      ensures !RecordCovers(n, q)
      ensures CanonicalName(n.owner) == q ==> forall t :: t in n.types <==> t in z.types[Key(qname)]
    {
      RecordSides(z, n, qname);
    }
    if FirstCovering(records, q).Some? { FirstCoveringCovers(records, q); }
  }

  /** A wildcard name is denied by some record exactly if it is shown and owns neither. */
  lemma WildcardDeniedIff(z: Zone, records: seq<NsecRecord>, wildcard: Text, qtype: u16)
    requires ValidZone(z) && TrueRecords(z, records) && WellFormed(wildcard) && CanonicalName(wildcard) == wildcard
    ensures (exists n :: n in records && DeniesWildcard(n, wildcard, qtype))
       <==> && Shown(z, records, Key(wildcard))
            && !HasType(z, Key(wildcard), qtype) && !HasType(z, Key(wildcard), TYPE_CNAME)
  {
    hide Key, CanonicalName, WellFormed, RecordCovers, ValidZone, Shown;
    ShownByRecord(z, records, wildcard);
    forall n | n in records
      ensures RecordCovers(n, wildcard) ==> Key(wildcard) !in z.types
      ensures CanonicalName(n.owner) == wildcard ==>
                Key(wildcard) in z.types && forall t :: t in n.types <==> t in z.types[Key(wildcard)]
    {
      RecordSides(z, n, wildcard);
    }
  }

  lemma OtherAcceptsIff(z: Zone, qname: Text, qtype: u16, rcode: byte, records: seq<NsecRecord>)
    requires ValidZone(z) && TrueRecords(z, records) && WellFormed(qname) && Key(qname) !in z.types
    ensures VerifyNSECDenial(qname, qtype, rcode, records) == Some(true)
       <==> && Shown(z, records, Key(qname))
            && rcode == RCODE_NXDOMAIN && WildcardShownAbsent(z, records, Key(qname), qtype)
  {
    hide Key, CanonicalName, WellFormed, RecordCovers, ClosestEncloser, DeniesWildcard, ValidZone, Shown, WildcardOf,
      IsClosestEncloser;
    var q := CanonicalName(qname);
    ShownByRecord(z, records, qname);
    forall n | n in records ensures CanonicalName(n.owner) != q { RecordSides(z, n, qname); }
    if Shown(z, records, Key(qname)) {
      var n :| n in records && RecordCovers(n, q);
      FirstCoveringFound(records, q, n);
      FirstCoveringCovers(records, q);
      var wildcard := WildcardBelow(z, qname, FirstCovering(records, q).value);
      WildcardDeniedIff(z, records, wildcard, qtype);
      var ce :| IsClosestEncloser(z, Key(qname), ce) && Key(wildcard) == ce + [[STAR]];
      forall e | IsClosestEncloser(z, Key(qname), e) ensures e == ce { ClosestEncloserUnique(z, Key(qname), e, ce); }
    } else if FirstCovering(records, q).Some? {
      FirstCoveringCovers(records, q);
    }
  }

  /** Acceptance, exactly, for every response made of links of the zone's chain: the link of the
      name must be there, and at an owner its bitmap decides; at any other name the response
      must be NXDOMAIN and the link of the wildcard below the closest encloser must be there and
      show neither the type nor an alias. */
  lemma DenialAcceptsIff(z: Zone, qname: Text, qtype: u16, rcode: byte, records: seq<NsecRecord>)
    requires ValidZone(z) && TrueRecords(z, records) && WellFormed(qname)
    ensures VerifyNSECDenial(qname, qtype, rcode, records) == Some(true)
       <==> && Shown(z, records, Key(qname))
            && if Key(qname) in z.types then TypesDenied(z.types[Key(qname)], qtype, rcode)
               else rcode == RCODE_NXDOMAIN && WildcardShownAbsent(z, records, Key(qname), qtype)
  {
    hide Key, WellFormed, ValidZone, Shown, TrueRecords, VerifyNSECDenial, WildcardShownAbsent;
    if Key(qname) in z.types {
      OwnerAcceptsIff(z, qname, qtype, rcode, records);
    } else {
      OtherAcceptsIff(z, qname, qtype, rcode, records);
    }
  }

  // ---- true denials that are refused ----

  /** All links of the zone's chain, and nothing that is not one. */
  ghost predicate WholeChain(z: Zone, records: seq<NsecRecord>) {
    TrueRecords(z, records) && forall i: nat :: i < |z.owners| ==> HasLink(z, records, i)
  }

  ghost predicate HasLink(z: Zone, records: seq<NsecRecord>, i: nat) {
    exists n :: n in records && IsLink(z, n, i)
  }

  /** The whole chain shows every key. */
  lemma WholeChainShows(z: Zone, records: seq<NsecRecord>, k: seq<Text>)
    requires ValidZone(z) && WholeChain(z, records)
    ensures Shown(z, records, k)
  {
    hide NameLess, LinkCovers, IsLink;
    OrdersAreTotal();
    ChainPartition(NameLess, z.owners, k);
    var i: nat :| i < |z.owners| && (z.owners[i] == k || LinkCovers(NameLess, z.owners, i, k));
    assert HasLink(z, records, i);
  }

  lemma {:induction false} EncloserExists(z: Zone, k: seq<Text>) returns (ce: seq<Text>)
    requires |z.owners| >= 1
    ensures IsClosestEncloser(z, k, ce)
    decreases |k|
  {
    RootExists(z);
    if Exists(z, k) {
      ce := k;
    } else {
      var up := k[..|k| - 1];
      ce := EncloserExists(z, up);
      forall p | p <= k && Exists(z, p) ensures p <= up {
        assert p != k;
        assert |p| == |k| ==> p == k;
        assert p == k[..|p|];
      }
    }
  }

  lemma RootExists(z: Zone)
    requires |z.owners| >= 1
    ensures Exists(z, [])
  {
    assert [] <= z.owners[0] && z.owners[0] in z.owners;
  }

  predicate WildcardHas(z: Zone, k: seq<Text>, qtype: u16) {
    HasType(z, k + [[STAR]], qtype) || HasType(z, k + [[STAR]], TYPE_CNAME)
  }

  /** Completeness fails, exactly here. Given the whole chain and a name for which the zone has
      neither the type nor an alias, the denial is refused if and only if the name is a
      delegation point; or owns nothing and the response is not NXDOMAIN, which is every NODATA
      answer for an empty non-terminal or from a wildcard; or is an empty non-terminal with a
      wildcard below it that owns the type or an alias. */
  lemma TrueDenialRefusedIff(z: Zone, qname: Text, qtype: u16, rcode: byte, records: seq<NsecRecord>)
    requires ValidZone(z) && WholeChain(z, records) && WellFormed(qname)
    requires !Answers(z, Key(qname), qtype) && !Answers(z, Key(qname), TYPE_CNAME)
    ensures VerifyNSECDenial(qname, qtype, rcode, records) != Some(true)
       <==> if Key(qname) in z.types then ChildSide(z.types[Key(qname)])
            else rcode != RCODE_NXDOMAIN || (Exists(z, Key(qname)) && WildcardHas(z, Key(qname), qtype))
  {
    hide Key, WellFormed, Shown, TrueRecords, VerifyNSECDenial, IsClosestEncloser, NameLess;
    var k := Key(qname);
    DenialAcceptsIff(z, qname, qtype, rcode, records);
    WholeChainShows(z, records, k);
    if k in z.types {
      OwnerIsThere(z, k);
    } else {
      var ce := EncloserExists(z, k);
      WholeChainShows(z, records, ce + [[STAR]]);
      forall e | IsClosestEncloser(z, k, e) ensures e == ce { ClosestEncloserUnique(z, k, e, ce); }
      if Exists(z, k) { SelfEncloses(z, k, ce); }
    }
  }

  lemma OwnerIsThere(z: Zone, k: seq<Text>)
    requires ValidZone(z) && k in z.types
    ensures Exists(z, k)
  {
    assert k in z.owners && k <= k;
  }

  lemma SelfEncloses(z: Zone, k: seq<Text>, ce: seq<Text>)
    requires Exists(z, k) && IsClosestEncloser(z, k, ce)
    ensures ce == k
  {
    assert k <= k;
  }

  lemma WildcardBelow(z: Zone, qname: Text, c: NsecRecord) returns (wildcard: Text)
    requires ValidZone(z) && TrueRecord(z, c) && WellFormed(qname) && RecordCovers(c, CanonicalName(qname))
    ensures wildcard == WildcardOf(ClosestEncloser(CanonicalName(qname), CanonicalName(c.owner), CanonicalName(c.next)))
    ensures WellFormed(wildcard) && CanonicalName(wildcard) == wildcard
    ensures exists ce :: IsClosestEncloser(z, Key(qname), ce) && Key(wildcard) == ce + [[STAR]]
  {
    hide Key, CanonicalName, WellFormed, ClosestEncloser, LinkCovers, RecordCovers, WildcardOf;
    var q := CanonicalName(qname);
    CoveredIsNoOwner(z, c, qname);
    var i: nat :| IsLink(z, c, i) && LinkCovers(NameLess, z.owners, i, Key(qname));
    CanonicalTwice(qname);
    CanonicalTwice(c.owner);
    CanonicalTwice(c.next);
    var c' := NsecRecord(CanonicalName(c.owner), CanonicalName(c.next), c.types);
    ClosestEncloserIsLongest(z, q, c', i);
    var ce := ClosestEncloser(q, c'.owner, c'.next);
    ClosestEncloserKey(q, c'.owner, c'.next);
    WildcardKey(ce);
    wildcard := WildcardOf(ce);
  }

  // ---- zones of two names ----

  /** The root with SOA and NS, and one more name with the given types. */
  function TwoNames(name: Text, types: seq<u16>): Zone {
    Zone([[], Key(name)], map[[] := {TYPE_SOA, TYPE_NS}, Key(name) := set t | t in types])
  }

  function TwoRecords(name: Text, types: seq<u16>): seq<NsecRecord> {
    [NsecRecord([], name, [TYPE_SOA, TYPE_NS]), NsecRecord(name, [], types)]
  }

  lemma TwoNamesChain(name: Text, types: seq<u16>)
    requires WellFormed(name) && Key(name) != []
    ensures ValidZone(TwoNames(name, types)) && WholeChain(TwoNames(name, types), TwoRecords(name, types))
  {
    hide Key, WellFormed;
    var z, rs := TwoNames(name, types), TwoRecords(name, types);
    RootKey();
    assert NameLess([], Key(name));
    assert z.owners[0] == [] && z.owners[1] == Key(name);
    assert Next(z.owners, 0) == Key(name) && Next(z.owners, 1) == [];
    assert IsLink(z, rs[0], 0) && IsLink(z, rs[1], 1);
    assert rs[0] in rs && rs[1] in rs;
    assert HasLink(z, rs, 0) && HasLink(z, rs, 1);
  }

  lemma RootKey()
    ensures Key([]) == [] && WellFormed([])
  {}

  lemma KeyOfTwoLabels(a: Text, b: Text)
    requires a != [] && DotFree(a) && Lower(a) == a && b != [] && DotFree(b) && Lower(b) == b
    ensures Key(a + [DOT] + b) == [b, a] && WellFormed(a + [DOT] + b)
  {
    var t := a + [DOT] + b;
    CanonicalPair(a, b);
    hide Split, CanonicalName;
    SplitConcat(a, b);
    SplitOfDotFree(a);
    SplitOfDotFree(b);
    var ls := CanonicalLabels(t);
    assert |ls| == 2 && ls[0] == a && ls[1] == b;
    var r := Reverse(ls);
    assert |r| == 2 && r[0] == b && r[1] == a;
  }

  lemma CanonicalPair(a: Text, b: Text)
    requires Lower(a) == a && b != [] && DotFree(b) && Lower(b) == b
    ensures CanonicalName(a + [DOT] + b) == a + [DOT] + b
  {
    var t := a + [DOT] + b;
    assert t[|t| - 1] == b[|b| - 1] && b[|b| - 1] in b;
    forall i | 0 <= i < |t| ensures LowerByte(t[i]) == t[i] {
      if i < |a| { assert t[i] == a[i] && Lower(a)[i] == LowerByte(a[i]); }
      if i > |a| { assert t[i] == b[i - |a| - 1] && Lower(b)[i - |a| - 1] == LowerByte(b[i - |a| - 1]); }
    }
    assert Lower(t) == t;
  }

  /** "b" is an empty non-terminal above "a.b": its true NODATA is refused. */
  lemma EmptyNonTerminalRefused()
    ensures var z, records := TwoNames([97, DOT, 98], [TYPE_A]), TwoRecords([97, DOT, 98], [TYPE_A]);
            && ValidZone(z) && WholeChain(z, records) && Exists(z, Key([98])) && Key([98]) !in z.types
            && !Answers(z, Key([98]), TYPE_A) && !Answers(z, Key([98]), TYPE_CNAME)
            && VerifyNSECDenial([98], TYPE_A, 0, records) != Some(true)
  {
    hide Key, WellFormed, VerifyNSECDenial, NameLess;
    var name: Text := [97, DOT, 98];
    var z := TwoNames(name, [TYPE_A]);
    assert name == [97] + [DOT] + [98];
    KeyOfTwoLabels([97], [98]);
    KeyOfOneLabel([98]);
    TwoNamesChain(name, [TYPE_A]);
    assert z.owners[1] in z.owners && [[98]] <= z.owners[1];
    TrueDenialRefusedIff(z, [98], TYPE_A, 0, TwoRecords(name, [TYPE_A]));
  }

  /** The wildcard owns an address: the true NODATA for another type at "b" is refused. */
  lemma WildcardNodataRefused()
    ensures var z, records := TwoNames([STAR], [TYPE_A]), TwoRecords([STAR], [TYPE_A]);
            && ValidZone(z) && WholeChain(z, records)
            && Answers(z, Key([98]), TYPE_A) && !Answers(z, Key([98]), TYPE_MX) && !Answers(z, Key([98]), TYPE_CNAME)
            && VerifyNSECDenial([98], TYPE_MX, 0, records) != Some(true)
  {
    hide Key, WellFormed, VerifyNSECDenial, NameLess;
    var z := TwoNames([STAR], [TYPE_A]);
    KeyOfOneLabel([STAR]);
    KeyOfOneLabel([98]);
    TwoNamesChain([STAR], [TYPE_A]);
    StarEncloses(z);
    assert IsClosestEncloser(z, [[98]], []) && [] + [[STAR]] == [[STAR]];
    assert HasType(z, [[STAR]], TYPE_A) && !HasType(z, [[STAR]], TYPE_MX) && !HasType(z, [[STAR]], TYPE_CNAME);
    TrueDenialRefusedIff(z, [98], TYPE_MX, 0, TwoRecords([STAR], [TYPE_A]));
  }

  lemma StarEncloses(z: Zone)
    requires z.owners == [[], [[STAR]]]
    ensures !Exists(z, [[98]])
    ensures forall ce :: IsClosestEncloser(z, [[98]], ce) <==> ce == []
  {
    assert z.owners[0] == [] && z.owners[1] == [[STAR]];
    var b: seq<Text> := [[98]];
    assert b[0] != z.owners[1][0];
    assert forall o :: o in z.owners ==> o == [] || o == [[STAR]];
    assert !Exists(z, b);
    RootExists(z);
    forall p | p <= b && Exists(z, p) ensures p == [] {
      assert |p| == 1 ==> p == b;
    }
    assert IsClosestEncloser(z, b, []);
    forall ce | IsClosestEncloser(z, b, ce) ensures ce == [] { ClosestEncloserUnique(z, b, ce, []); }
  }

  /** "b" is delegated without DS: the true denial of DS, which makes the child insecure, is
      refused. */
  lemma UnsignedDelegationRefused()
    ensures var z, records := TwoNames([98], [TYPE_NS]), TwoRecords([98], [TYPE_NS]);
            && ValidZone(z) && WholeChain(z, records)
            && !Answers(z, Key([98]), TYPE_DS) && !Answers(z, Key([98]), TYPE_CNAME)
            && VerifyNSECDenial([98], TYPE_DS, 0, records) != Some(true)
  {
    hide Key, WellFormed, VerifyNSECDenial, NameLess;
    var z := TwoNames([98], [TYPE_NS]);
    KeyOfOneLabel([98]);
    TwoNamesChain([98], [TYPE_NS]);
    OwnerIsThere(z, [[98]]);
    TrueDenialRefusedIff(z, [98], TYPE_DS, 0, TwoRecords([98], [TYPE_NS]));
  }

  /** "b" is an empty non-terminal whose wildcard child owns the type: even NXDOMAIN is refused. */
  lemma WildcardChildRefused()
    ensures var z, records := TwoNames([STAR, DOT, 98], [TYPE_A]), TwoRecords([STAR, DOT, 98], [TYPE_A]);
            && ValidZone(z) && WholeChain(z, records)
            && !Answers(z, Key([98]), TYPE_A) && !Answers(z, Key([98]), TYPE_CNAME)
            && VerifyNSECDenial([98], TYPE_A, RCODE_NXDOMAIN, records) != Some(true)
  {
    hide Key, WellFormed, VerifyNSECDenial, NameLess;
    var name: Text := [STAR, DOT, 98];
    var z := TwoNames(name, [TYPE_A]);
    assert name == [STAR] + [DOT] + [98];
    KeyOfTwoLabels([STAR], [98]);
    KeyOfOneLabel([98]);
    TwoNamesChain(name, [TYPE_A]);
    assert z.owners[1] in z.owners && [[98]] <= z.owners[1];
    assert [[98]] + [[STAR]] == [[98], [STAR]];
    TrueDenialRefusedIff(z, [98], TYPE_A, RCODE_NXDOMAIN, TwoRecords(name, [TYPE_A]));
  }
}
