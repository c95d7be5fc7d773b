/** Checking NSEC denial proofs (dnssec/nsec.go). */
module Nsec {
  import opened Bytes
  import opened Labels
  import opened Order
  import opened Records

  const RCODE_NXDOMAIN: byte := 3

  datatype NsecRecord = NsecRecord(owner: Text, next: Text, types: seq<u16>)

  function CanonicalName(name: Text): Text {
    Lower(TrimDot(name))
  }

  /** canonicalLabels, left to right. */
  function CanonicalLabels(name: Text): seq<Text> {
    var t := CanonicalName(name);
    if t == [] then [] else Split(t)
  }

  function Reverse<T>(s: seq<T>): (r: seq<T>)
    ensures |r| == |s|
    ensures forall i :: 0 <= i < |s| ==> r[i] == s[|s| - 1 - i]
  {
    seq(|s|, i requires 0 <= i < |s| => s[|s| - 1 - i])
  }

  /** The labels from the root down: canonical order is lexicographic on keys, and an ancestor
      is a prefix. */
  function Key(name: Text): seq<Text> {
    Reverse(CanonicalLabels(name))
  }

  /** -1, 0 or 1, as the comparison functions of the source return it. */
  function Sign<T(==)>(lt: (T, T) -> bool, a: T, b: T): int {
    if lt(a, b) then -1 else if a == b then 0 else 1
  }

  /** compareLabelBytes, and compareHashes of nsec3.go: octet by octet, then by length. */
  method CompareOctets(a: Text, b: Text) returns (c: int)
    ensures c == Sign(OctetsLess, a, b)
  {
    var minLen := if |b| < |a| then |b| else |a|;
    assert a[0..] == a && b[0..] == b;
    for i := 0 to minLen
      invariant a[..i] == b[..i]
      invariant OctetsLess(a, b) == OctetsLess(a[i..], b[i..])
    {
      if a[i] < b[i] { return -1; }
      if a[i] > b[i] { return 1; }
      assert a[i..][1..] == a[i + 1..] && b[i..][1..] == b[i + 1..];
    }
    if |a| < |b| { return -1; }
    if |a| > |b| { return 1; }
    assert a == a[..minLen] && b == b[..minLen];
    LexIrreflexive(ByteLess, a);
    c := 0;
  }

  /** canonicalCompareName: labels from the rightmost towards the left. */
  method CanonicalCompareName(a: Text, b: Text) returns (c: int)
    ensures c == Sign(NameLess, Key(a), Key(b))
  {
    var aLabels, bLabels := CanonicalLabels(a), CanonicalLabels(b);
    c := CompareFromRight(aLabels, bLabels);
  }

  method CompareFromRight(a: seq<Text>, b: seq<Text>) returns (c: int)
    ensures c == Sign(NameLess, Reverse(a), Reverse(b))
  {
    hide OctetsLess, Reverse;
    OrdersAreTotal();
    var i := 0;
    ghost var ra, rb := Reverse(a), Reverse(b);
    assert ra[0..] == ra && rb[0..] == rb;
    while i < |a| && i < |b|
      invariant i <= |a| && i <= |b|
      invariant ra[..i] == rb[..i]
      invariant NameLess(ra, rb) == NameLess(ra[i..], rb[i..])
    {
      var l := CompareOctets(a[|a| - 1 - i], b[|b| - 1 - i]);
      assert ra[i..][0] == ra[i] == a[|a| - 1 - i] && rb[i..][0] == rb[i];
      if l != 0 {
        return l;
      }
      assert ra[i..][1..] == ra[i + 1..] && rb[i..][1..] == rb[i + 1..];
      i := i + 1;
    }
    if i == |a| && i == |b| {
      assert ra == ra[..i] && rb == rb[..i];
      return 0;
    }
    c := if i == |a| then -1 else 1;
  }

  /** commonAncestor, as text; its labels are the common beginning of the two keys. */
  function CommonAncestor(a: Text, b: Text): Text {
    var la := CanonicalLabels(a);
    Join(la[|la| - Common(Key(a), Key(b))..])
  }

  method CommonAncestorLoop(a: Text, b: Text) returns (r: Text)
    ensures r == CommonAncestor(a, b)
  {
    hide CanonicalLabels, Common, Reverse;
    var la, lb := CanonicalLabels(a), CanonicalLabels(b);
    var matched := MatchFromRight(la, lb);
    if matched == 0 {
      assert la[|la|..] == [];
      return [];
    }
    r := Join(la[|la| - matched..]);
  }

  method MatchFromRight(a: seq<Text>, b: seq<Text>) returns (matched: nat)
    ensures matched == Common(Reverse(a), Reverse(b))
  {
    hide Reverse;
    matched := 0;
    ghost var ra, rb := Reverse(a), Reverse(b);
    assert ra[0..] == ra && rb[0..] == rb;
    while matched < |a| && matched < |b| && a[|a| - 1 - matched] == b[|b| - 1 - matched]
      invariant matched <= |a| && matched <= |b|
      invariant Common(ra, rb) == matched + Common(ra[matched..], rb[matched..])
    {
      assert ra[matched..][1..] == ra[matched + 1..] && rb[matched..][1..] == rb[matched + 1..];
      matched := matched + 1;
    }
  }

  function CountDots(s: Text): nat {
    if s == [] then 0 else (if s[0] == DOT then 1 else 0) + CountDots(s[1..])
  }

  function LabelCount(name: Text): nat {
    if name == [] then 0 else CountDots(name) + 1
  }

  function ClosestEncloser(qname: Text, owner: Text, next: Text): Text {
    var a := CommonAncestor(qname, owner);
    var b := CommonAncestor(qname, next);
    if LabelCount(a) >= LabelCount(b) then a else b
  }

  /** closestEncloser */
  method FindClosestEncloser(qname: Text, owner: Text, next: Text) returns (r: Text)
    ensures r == ClosestEncloser(qname, owner, next)
  {
    hide CommonAncestor, LabelCount;
    var a := CommonAncestorLoop(qname, owner);
    var b := CommonAncestorLoop(qname, next);
    r := if LabelCount(a) >= LabelCount(b) then a else b;
  }

  predicate CoversName(owner: Text, next: Text, qname: Text) {
    Covers(NameLess, Key(owner), Key(next), Key(qname))
  }

  /** nsecCoversName through the three comparisons. */
  method NsecCoversName(owner: Text, next: Text, qname: Text) returns (r: bool)
    ensures r == CoversName(owner, next, qname)
  {
    hide Key;
    OrdersAreTotal();
    var cmpOwner := CanonicalCompareName(qname, owner);
    var cmpNext := CanonicalCompareName(qname, next);
    var cmp := CanonicalCompareName(owner, next);
    if cmp < 0 {
      return cmpOwner > 0 && cmpNext < 0;
    }
    r := cmpOwner > 0 || cmpNext < 0;
  }

  // ---- VerifyNSECDenial ----

  /** A parent-side NSEC at a delegation point. */
  predicate Delegation(n: NsecRecord) {
    TYPE_NS in n.types && TYPE_SOA !in n.types
  }

  predicate DeniesType(n: NsecRecord, q: Text, qtype: u16) {
    CanonicalName(n.owner) == q && qtype !in n.types && TYPE_CNAME !in n.types && !Delegation(n)
  }

  predicate Compact(n: NsecRecord, q: Text) {
    CanonicalName(n.owner) == q && TYPE_CNAME !in n.types && TYPE_DNAME !in n.types && !Delegation(n)
  }

  predicate RecordCovers(n: NsecRecord, q: Text) {
    CoversName(CanonicalName(n.owner), CanonicalName(n.next), q)
  }

  predicate DeniesWildcard(n: NsecRecord, wildcard: Text, qtype: u16) {
    || RecordCovers(n, wildcard)
    || (CanonicalName(n.owner) == wildcard && qtype !in n.types && TYPE_CNAME !in n.types)
  }

  /** The first record that covers q. */
  function FirstCovering(records: seq<NsecRecord>, q: Text): Option<NsecRecord> {
    if records == [] then None
    else if RecordCovers(records[0], q) then Some(records[0])
    else FirstCovering(records[1..], q)
  }

  function WildcardOf(ce: Text): Text {
    if ce == [] then [STAR] else [STAR, DOT] + ce
  }

  /** What VerifyNSECDenial accepts; None is its error for no records at all. */
  function VerifyNSECDenial(qname: Text, qtype: u16, rcode: byte, records: seq<NsecRecord>): Option<bool> {
    if records == [] then None
    else
      var q := CanonicalName(qname);
      if exists n :: n in records && DeniesType(n, q, qtype) then Some(true)
      else if rcode != RCODE_NXDOMAIN then Some(false)
      else if exists n :: n in records && Compact(n, q) then Some(true)
      else
        match FirstCovering(records, q)
        case None => Some(false)
        case Some(c) =>
          var wildcard := WildcardOf(ClosestEncloser(q, CanonicalName(c.owner), CanonicalName(c.next)));
          Some(exists n :: n in records && DeniesWildcard(n, wildcard, qtype))
  }

  /** The four loops of VerifyNSECDenial. */
  method Verify(qname: Text, qtype: u16, rcode: byte, records: seq<NsecRecord>) returns (r: Option<bool>)
    ensures r == VerifyNSECDenial(qname, qtype, rcode, records)
  {
    hide DeniesType, Compact, RecordCovers, DeniesWildcard, CanonicalName, ClosestEncloser;
    if records == [] {
      return None;
    }
    var q := CanonicalName(qname);
    for i := 0 to |records|
      invariant forall j :: 0 <= j < i ==> !DeniesType(records[j], q, qtype)
    {
      if DeniesType(records[i], q, qtype) { return Some(true); }
    }
    if rcode != RCODE_NXDOMAIN {
      return Some(false);
    }
    for i := 0 to |records|
      invariant forall j :: 0 <= j < i ==> !Compact(records[j], q)
    {
      if Compact(records[i], q) { return Some(true); }
    }
    var covering := FindCovering(records, q);
    if covering.None? {
      return Some(false);
    }
    var ce := FindClosestEncloser(q, CanonicalName(covering.value.owner), CanonicalName(covering.value.next));
    var wildcard := WildcardOf(ce);
    for i := 0 to |records|
      invariant forall j :: 0 <= j < i ==> !DeniesWildcard(records[j], wildcard, qtype)
    {
      var denied := CheckWildcard(records[i], wildcard, qtype);
      if denied { return Some(true); }
    }
    r := Some(false);
  }

  method CheckWildcard(n: NsecRecord, wildcard: Text, qtype: u16) returns (denied: bool)
    ensures denied == DeniesWildcard(n, wildcard, qtype)
  {
    hide CoversName, CanonicalName;
    var covers := NsecCoversName(CanonicalName(n.owner), CanonicalName(n.next), wildcard);
    if covers {
      return true;
    }
    denied := CanonicalName(n.owner) == wildcard && qtype !in n.types && TYPE_CNAME !in n.types;
  }

  method FindCovering(records: seq<NsecRecord>, q: Text) returns (r: Option<NsecRecord>)
    ensures r == FirstCovering(records, q)
  {
    assert records[0..] == records;
    for i := 0 to |records|
      invariant FirstCovering(records, q) == FirstCovering(records[i..], q)
    {
      var covers := NsecCoversName(CanonicalName(records[i].owner), CanonicalName(records[i].next), q);
      if covers {
        return Some(records[i]);
      }
      assert records[i..][1..] == records[i + 1..];
    }
    r := None;
  }
}
