/** Which TTL a response is cached with, and whether it is cached at all (cache/cache.go). */
module Ttl {
  import opened Bytes
  import opened Labels
  import opened NameWire
  import opened Records
  import opened Compression
  import Layouts

  const NEGATIVE_FALLBACK: u32 := 60
  const MAX_FAILURE: u32 := 30
  const DEFAULT_FAILURE: u32 := 5

  /** sanitizeWireTTL: section 8 of RFC 2181. */
  function Sanitize(ttl: u32): u32 {
    if ttl >= 0x8000_0000 then 0 else ttl
  }

  /** clampTTL and clampNegativeTTL; with lo > hi the lower bound wins below lo. */
  function Clamp(ttl: u32, lo: u32, hi: u32): u32 {
    if ttl < lo then lo else if ttl > hi then hi else ttl
  }

  /** The result is the TTL if that lies between the bounds, and otherwise the nearer bound. */
  lemma ClampIs(ttl: u32, lo: u32, hi: u32)
    requires lo <= hi
    ensures lo <= Clamp(ttl, lo, hi) <= hi
    ensures lo <= ttl <= hi ==> Clamp(ttl, lo, hi) == ttl
    ensures ttl <= lo ==> Clamp(ttl, lo, hi) == lo
    ensures ttl >= hi ==> Clamp(ttl, lo, hi) == hi
  {}

  /** The least of the sanitised TTLs. */
  ghost predicate IsLeastTTL(rrs: seq<RR>, ttl: u32) {
    && (forall i :: 0 <= i < |rrs| ==> ttl <= Sanitize(rrs[i].ttl))
    && (exists i :: 0 <= i < |rrs| && ttl == Sanitize(rrs[i].ttl))
  }

  ghost predicate IsExtracted(rrs: seq<RR>, minTtl: u32, ttl: u32) {
    if rrs == [] then ttl == minTtl else IsLeastTTL(rrs, ttl)
  }

  /** extractTTL */
  method ExtractTTL(rrs: seq<RR>, minTtl: u32) returns (ttl: u32)
    ensures IsExtracted(rrs, minTtl, ttl)
  {
    if rrs == [] {
      return minTtl;
    }
    ttl := Sanitize(rrs[0].ttl);
    for n := 1 to |rrs|
      invariant forall i :: 0 <= i < n ==> ttl <= Sanitize(rrs[i].ttl)
      invariant exists i :: 0 <= i < n && ttl == Sanitize(rrs[i].ttl)
    {
      var t := Sanitize(rrs[n].ttl);
      if t < ttl {
        ttl := t;
      }
    }
  }

  predicate HasSOA(authority: seq<RR>) {
    exists i :: 0 <= i < |authority| && authority[i].rtype == TYPE_SOA
  }

  /** Some SOA of the section is owned by the name or one of its ancestors. */
  predicate Covered(qname: Text, authority: seq<RR>) {
    exists i :: 0 <= i < |authority| && authority[i].rtype == TYPE_SOA
                && InZone(Lower(TrimDot(qname)), Lower(TrimDot(authority[i].name)))
  }

  /** In the tree of names: there is an SOA record (6) whose owner is the name or above it. */
  lemma CoveredIs(qname: Text, authority: seq<RR>)
    ensures HasSOA(authority) <==> exists rr :: rr in authority && rr.rtype == 6
    ensures Covered(qname, authority) <==>
              exists rr :: rr in authority && rr.rtype == 6 && Encloses(Lower(TrimDot(rr.name)), Lower(TrimDot(qname)))
  {
    hide InZone, Lower, TrimDot, Encloses;
    forall owner ensures Encloses(owner, Lower(TrimDot(qname))) <==> InZone(Lower(TrimDot(qname)), owner) {
      EnclosesIs(owner, Lower(TrimDot(qname)));
    }
  }

  /** The owner is the root, or its labels are the last labels of the name. */
  predicate Encloses(owner: Text, name: Text) {
    owner == [] || LabelSuffix(Split(name), Split(owner))
  }

  lemma EnclosesIs(owner: Text, name: Text)
    ensures Encloses(owner, name) <==> InZone(name, owner)
  {
    hide Split, LabelSuffix;
    if owner != [] { InZoneIsLabelSuffix(name, owner); }
  }

  /** hasAnySOA */
  method HasAnySOA(authority: seq<RR>) returns (r: bool)
    ensures r == HasSOA(authority)
  {
    for n := 0 to |authority|
      invariant !HasSOA(authority[..n])
    {
      if authority[n].rtype == TYPE_SOA {
        return true;
      }
    }
    assert authority[..|authority|] == authority;
    r := false;
  }

  /** authorityCoversName: the textual test finds exactly the SOAs at or above the name. */
  method AuthorityCoversName(qname: Text, authority: seq<RR>) returns (r: bool)
    ensures r == Covered(qname, authority)
  {
    var q := Lower(TrimDot(qname));
    for n := 0 to |authority|
      invariant forall i :: 0 <= i < n && authority[i].rtype == TYPE_SOA ==>
                  !InZone(q, Lower(TrimDot(authority[i].name)))
    {
      if authority[n].rtype == TYPE_SOA {
        var owner := Lower(TrimDot(authority[n].name));
        if owner == [] || owner == q || HasSuffix(q, [DOT] + owner) {
          return true;
        }
      }
    }
    r := false;
  }

  /** The minimum field of SOA RDATA: the fifth 32-bit integer behind two names. */
  function SoaMinimum(rdata: Text): Option<u32> {
    match DecodeName(rdata, 0)
    case Err(_) => None
    case Ok((_, mname)) =>
      match DecodeName(rdata, mname)
      case Err(_) => None
      case Ok((_, rname)) => if rname + 20 <= |rdata| then Some(GetU32(rdata, rname + 16)) else None
  }

  /** The TTL of a negative answer by one SOA record, the least of its own TTL and of its minimum
      field if that can be read: section 5 of RFC 2308. */
  function SoaTTL(rr: RR): (ttl: u32)
    ensures ttl <= Sanitize(rr.ttl)
    ensures SoaMinimum(rr.rdata).Some? ==> ttl <= Sanitize(SoaMinimum(rr.rdata).value)
    ensures ttl == Sanitize(rr.ttl) || (SoaMinimum(rr.rdata).Some? && ttl == Sanitize(SoaMinimum(rr.rdata).value))
  {
    match SoaMinimum(rr.rdata)
    case None => Sanitize(rr.ttl)
    case Some(m) => if Sanitize(m) < Sanitize(rr.ttl) then Sanitize(m) else Sanitize(rr.ttl)
  }

  /** SOA RDATA (section 3.3.13 of RFC 1035): two names and five numbers. */
  function SoaRData(m: seq<Text>, r: seq<Text>, serial: u32, refresh: u32, retry: u32, expire: u32,
                    minimum: u32): Text {
    PlainName(m) + PlainName(r)
    + (PutU32(serial) + PutU32(refresh) + PutU32(retry) + PutU32(expire) + PutU32(minimum))
  }

  /** The minimum is the last of the five. */
  lemma SoaMinimumIs(m: seq<Text>, r: seq<Text>, serial: u32, refresh: u32, retry: u32, expire: u32, minimum: u32)
    requires Layouts.WireLabels(m) && Layouts.WireLabels(r) && |Join(m)| <= 255 && |Join(r)| <= 255
    ensures SoaMinimum(SoaRData(m, r, serial, refresh, retry, expire, minimum)) == Some(minimum)
  {
    hide DecodeName, PlainName, PutU32, GetU32, Join, Layouts.Number;
    var rdata := SoaRData(m, r, serial, refresh, retry, expire, minimum);
    var a, b := PlainName(m), PlainName(r);
    var numbers := PutU32(serial) + PutU32(refresh) + PutU32(retry) + PutU32(expire) + PutU32(minimum);
    assert rdata == [] + a + (b + numbers);
    Layouts.PlainDecodes([], m, b + numbers);
    Layouts.PlainDecodes(a, r, numbers);
    var at := |a| + |b|;
    assert rdata[at + 16..at + 20] == PutU32(minimum) by {
      assert rdata[at..] == numbers;
      assert numbers[16..20] == PutU32(minimum);
      assert rdata[at + 16..at + 20] == rdata[at..][16..20];
    }
    Layouts.BigEndian32(minimum, rdata, at + 16);
  }

  /** So an SOA record with that RDATA has the least of its TTL and that number, each counting as
      zero from 2^31 on: sections 3 and 5 of RFC 2308. */
  lemma SoaTTLIs(rr: RR, m: seq<Text>, r: seq<Text>, serial: u32, refresh: u32, retry: u32, expire: u32, minimum: u32)
    requires Layouts.WireLabels(m) && Layouts.WireLabels(r) && |Join(m)| <= 255 && |Join(r)| <= 255
    requires rr.rdata == SoaRData(m, r, serial, refresh, retry, expire, minimum)
    ensures rr.ttl < 0x8000_0000 && minimum < 0x8000_0000 ==>
              SoaTTL(rr) == if minimum < rr.ttl then minimum else rr.ttl
    ensures rr.ttl >= 0x8000_0000 || minimum >= 0x8000_0000 ==> SoaTTL(rr) == 0
  {
    hide SoaMinimum, SoaRData, Join;
    SoaMinimumIs(m, r, serial, refresh, retry, expire, minimum);
  }

  /** The first SOA record that has RDATA decides. */
  ghost predicate IsNegativeTTL(authority: seq<RR>, ttl: u32) {
    || (ttl == NEGATIVE_FALLBACK && forall i :: 0 <= i < |authority| ==> !UsableSOA(authority[i]))
    || (exists i :: 0 <= i < |authority| && UsableSOA(authority[i]) && ttl == SoaTTL(authority[i])
                    && forall j :: 0 <= j < i ==> !UsableSOA(authority[j]))
  }

  predicate UsableSOA(rr: RR) {
    rr.rtype == TYPE_SOA && rr.rdata != []
  }

  /** extractNegativeTTL */
  method ExtractNegativeTTL(authority: seq<RR>) returns (ttl: u32)
    ensures IsNegativeTTL(authority, ttl)
  {
    hide SoaTTL;
    for n := 0 to |authority|
      invariant forall i :: 0 <= i < n ==> !UsableSOA(authority[i])
    {
      if UsableSOA(authority[n]) {
        return SoaTTL(authority[n]);
      }
    }
    ttl := NEGATIVE_FALLBACK;
  }

  /** A negative answer lives as long as its first SOA record with RDATA says, and a minute if it
      has none. */
  lemma NegativeTTLIs(authority: seq<RR>, ttl: u32, i: nat, m: seq<Text>, r: seq<Text>,
                      serial: u32, refresh: u32, retry: u32, expire: u32, minimum: u32)
    requires IsNegativeTTL(authority, ttl) && i < |authority| && authority[i].rtype == 6
    requires forall j :: 0 <= j < i ==> authority[j].rtype != 6 || authority[j].rdata == []
    requires Layouts.WireLabels(m) && Layouts.WireLabels(r) && |Join(m)| <= 255 && |Join(r)| <= 255
    requires authority[i].rdata == SoaRData(m, r, serial, refresh, retry, expire, minimum)
    requires authority[i].ttl < 0x8000_0000 && minimum < 0x8000_0000
    ensures ttl == if minimum < authority[i].ttl then minimum else authority[i].ttl
  {
    hide SoaTTL, Join;
    SoaTTLIs(authority[i], m, r, serial, refresh, retry, expire, minimum);
    assert |authority[i].rdata| >= 20;
    hide SoaRData;
    assert UsableSOA(authority[i]);
  }

  lemma NoSoaTTLIs(authority: seq<RR>, ttl: u32)
    requires IsNegativeTTL(authority, ttl) && forall rr :: rr in authority ==> rr.rtype != 6 || rr.rdata == []
    ensures ttl == 60
  {
    hide SoaTTL;
  }
}
