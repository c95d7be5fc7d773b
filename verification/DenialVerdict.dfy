/** The verdict on a negative answer (dnssec/validator.go validateDenialResponse), and the
    dispatch between negative and positive answers. */
module DenialVerdict {
  import opened Bytes
  import opened Records
  import opened SignedData
  import opened TrustChain
  import opened Validator
  import opened Verdicts
  import Cuts
  import Denial
  import Nsec
  import Nsec3

  /** The signatures the denial loop looks at. */
  predicate Relevant(s: OwnedSig) {
    s.sig.typeCovered == TYPE_NSEC3 || s.sig.typeCovered == TYPE_NSEC || s.sig.typeCovered == TYPE_SOA
  }

  function RelevantSigs(sigs: seq<OwnedSig>): seq<OwnedSig> {
    if sigs == [] then []
    else (if Relevant(sigs[0]) then [sigs[0]] else []) + RelevantSigs(sigs[1..])
  }

  /** The record lies in the RRset of a signature of the section that verifies. */
  ghost predicate Authenticated(w: World, qname: Text, authority: seq<RR>, rr: RR) {
    exists s :: s in RelevantSigs(Sigs(authority)) && Classify(w, qname, authority, s).Verified?
                && rr in RRsetOf(authority, s.sig.typeCovered, s.owner)
  }

  /** The keys (owner, type) that the signatures of a list authenticate. */
  function KeysOf(rrset: seq<RR>, rtype: u16): set<(Text, u16)> {
    set i | 0 <= i < |rrset| :: (Nsec.CanonicalName(rrset[i].name), rtype)
  }

  function AuthenticKeys(w: World, qname: Text, authority: seq<RR>, sigs: seq<OwnedSig>): set<(Text, u16)> {
    if sigs == [] then {}
    else
      (if Classify(w, qname, authority, sigs[0]).Verified?
       then KeysOf(RRsetOf(authority, sigs[0].sig.typeCovered, sigs[0].owner), sigs[0].sig.typeCovered) else {})
      + AuthenticKeys(w, qname, authority, sigs[1..])
  }

  function Nsec3s(w: World, authority: seq<RR>, keys: set<(Text, u16)>): seq<Nsec3.Nsec3Record> {
    if authority == [] then []
    else
      var rr := authority[0];
      (if rr.rtype == TYPE_NSEC3 && w.nsec3(rr).Some? && (Nsec.CanonicalName(rr.name), TYPE_NSEC3) in keys
       then [w.nsec3(rr).value] else []) + Nsec3s(w, authority[1..], keys)
  }

  function Nsecs(w: World, authority: seq<RR>, keys: set<(Text, u16)>): seq<Nsec.NsecRecord> {
    if authority == [] then []
    else
      var rr := authority[0];
      (if rr.rtype == TYPE_NSEC && w.nsec(rr).Some? && (Nsec.CanonicalName(rr.name), TYPE_NSEC) in keys
       then [w.nsec(rr).value] else []) + Nsecs(w, authority[1..], keys)
  }

  /** What the two proof checkers say of the authenticated records. */
  function Proofs(w: World, qname: Text, qtype: u16, rcode: byte,
                  nsec3s: seq<Nsec3.Nsec3Record>, nsecs: seq<Nsec.NsecRecord>): Validation
  {
    match Nsec3.VerifyNSEC3DenialFull(w.hash, qname, nsec3s)
    case Failed(_) => Indeterminate
    case Verdict(true) => Secure
    case _ => if Nsec.VerifyNSECDenial(qname, qtype, rcode, nsecs) == Some(true) then Secure else Bogus
  }

  ghost function DenialVerdictOf(w: World, qname: Text, qtype: u16, rcode: byte, authority: seq<RR>): Validation {
    var sigs := RelevantSigs(Sigs(authority));
    var os := Outcomes(w, qname, authority, sigs);
    if Sigs(authority) == [] || forall o :: o in os ==> o == Skipped then Insecure
    else if forall o :: o in os ==> !o.Verified? then
      (if Failed !in os && NoKey in os then Indeterminate else Bogus)
    else
      var keys := AuthenticKeys(w, qname, authority, sigs);
      Proofs(w, qname, qtype, rcode, Nsec3s(w, authority, keys), Nsecs(w, authority, keys))
  }

  // ---- what the keys stand for ----

  lemma {:induction false} KeyFrom(w: World, qname: Text, authority: seq<RR>, sigs: seq<OwnedSig>, key: (Text, u16))
    ensures key in AuthenticKeys(w, qname, authority, sigs) <==>
            exists s :: s in sigs && Classify(w, qname, authority, s).Verified?
                        && key in KeysOf(RRsetOf(authority, s.sig.typeCovered, s.owner), s.sig.typeCovered)
  {
    hide Classify, KeysOf, RRsetOf;
    if sigs != [] {
      KeyFrom(w, qname, authority, sigs[1..], key);
      assert forall s :: s in sigs <==> s == sigs[0] || s in sigs[1..];
    }
  }

  /** A record whose key some RRset has is itself in that RRset. */
  lemma SameKeySameRRset(rrs: seq<RR>, rtype: u16, owner: Text, rr: RR)
    requires rr in rrs && rr.rtype == rtype
    requires (Nsec.CanonicalName(rr.name), rtype) in KeysOf(RRsetOf(rrs, rtype, owner), rtype)
    ensures rr in RRsetOf(rrs, rtype, owner)
  {
    hide Matching, OneOwner, Nsec.CanonicalName;
    var rrset := RRsetOf(rrs, rtype, owner);
    var i :| 0 <= i < |rrset| && Nsec.CanonicalName(rrset[i].name) == Nsec.CanonicalName(rr.name);
    var name := Nsec.CanonicalName(owner);
    assert rrset[i] in rrset;
    MatchingCount(rrs, rtype, Some(name), rrset[i]);
    MatchingCount(rrs, rtype, Some(name), rr);
    MatchingCount(rrs, rtype, None, rr);
    assert rr in multiset(rrs);
    assert rr in Matching(rrs, rtype, None) by { assert rr in multiset(Matching(rrs, rtype, None)); }
    if Matching(rrs, rtype, Some(name)) != [] {
      assert rrset[i] in multiset(Matching(rrs, rtype, Some(name)));
      assert rr in multiset(Matching(rrs, rtype, Some(name)));
    }
  }

  /** So every record that reaches a proof checker was authenticated. */
  lemma KeyedIsAuthenticated(w: World, qname: Text, authority: seq<RR>, rr: RR)
    requires rr in authority
    requires var sigs := RelevantSigs(Sigs(authority));
             (Nsec.CanonicalName(rr.name), rr.rtype) in AuthenticKeys(w, qname, authority, sigs)
    ensures Authenticated(w, qname, authority, rr)
  {
    hide Classify, RRsetOf, Nsec.CanonicalName, Sigs, RelevantSigs;
    var sigs, key := RelevantSigs(Sigs(authority)), (Nsec.CanonicalName(rr.name), rr.rtype);
    KeyFrom(w, qname, authority, sigs, key);
    var s :| s in sigs && Classify(w, qname, authority, s).Verified?
             && key in KeysOf(RRsetOf(authority, s.sig.typeCovered, s.owner), s.sig.typeCovered);
    SameKeySameRRset(authority, rr.rtype, s.owner, rr);
  }

  /** The other way round, every record of a verified RRset has its key marked. */
  lemma AuthenticatedIsKeyed(w: World, qname: Text, authority: seq<RR>, rr: RR)
    requires Authenticated(w, qname, authority, rr)
    ensures (Nsec.CanonicalName(rr.name), rr.rtype) in AuthenticKeys(w, qname, authority, RelevantSigs(Sigs(authority)))
  {
    hide Classify, RRsetOf, Nsec.CanonicalName, Sigs, RelevantSigs;
    var sigs := RelevantSigs(Sigs(authority));
    var s :| s in sigs && Classify(w, qname, authority, s).Verified?
        && rr in RRsetOf(authority, s.sig.typeCovered, s.owner);
    var rrset := RRsetOf(authority, s.sig.typeCovered, s.owner);
    RRsetWithin(authority, s.sig.typeCovered, s.owner, rr);
    var i :| 0 <= i < |rrset| && rrset[i] == rr;
    assert (Nsec.CanonicalName(rrset[i].name), rr.rtype) in KeysOf(rrset, rr.rtype);
    KeyFrom(w, qname, authority, sigs, (Nsec.CanonicalName(rr.name), rr.rtype));
  }

  /** The records handed to the checkers are those that parse and have a marked key. */
  lemma {:induction false} Nsec3sExact(w: World, authority: seq<RR>, keys: set<(Text, u16)>, n: Nsec3.Nsec3Record)
    ensures n in Nsec3s(w, authority, keys) <==>
              exists i :: 0 <= i < |authority| && authority[i].rtype == TYPE_NSEC3 && w.nsec3(authority[i]) == Some(n)
                          && (Nsec.CanonicalName(authority[i].name), TYPE_NSEC3) in keys
  {
    hide Nsec.CanonicalName;
    if authority != [] {
      var rest := authority[1..];
      Nsec3sExact(w, rest, keys, n);
      assert forall i :: 0 < i < |authority| ==> authority[i] == rest[i - 1];
      assert forall i :: 0 <= i < |rest| ==> rest[i] == authority[i + 1];
    }
  }

  lemma {:induction false} NsecsExact(w: World, authority: seq<RR>, keys: set<(Text, u16)>, n: Nsec.NsecRecord)
    ensures n in Nsecs(w, authority, keys) <==>
              exists i :: 0 <= i < |authority| && authority[i].rtype == TYPE_NSEC && w.nsec(authority[i]) == Some(n)
                          && (Nsec.CanonicalName(authority[i].name), TYPE_NSEC) in keys
  {
    hide Nsec.CanonicalName;
    if authority != [] {
      var rest := authority[1..];
      NsecsExact(w, rest, keys, n);
      assert forall i :: 0 < i < |authority| ==> authority[i] == rest[i - 1];
      assert forall i :: 0 <= i < |rest| ==> rest[i] == authority[i + 1];
    }
  }

  /** n is what an authenticated record of the section parses to. */
  ghost predicate AuthenticNsec(w: World, qname: Text, authority: seq<RR>, n: Nsec.NsecRecord) {
    exists i :: 0 <= i < |authority| && authority[i].rtype == TYPE_NSEC && w.nsec(authority[i]) == Some(n)
                && Authenticated(w, qname, authority, authority[i])
  }

  ghost predicate AuthenticNsec3(w: World, qname: Text, authority: seq<RR>, n: Nsec3.Nsec3Record) {
    exists i :: 0 <= i < |authority| && authority[i].rtype == TYPE_NSEC3 && w.nsec3(authority[i]) == Some(n)
                && Authenticated(w, qname, authority, authority[i])
  }

  /** Some signature over NSEC, NSEC3 or SOA records of the section verifies. */
  ghost predicate SomeVerified(w: World, qname: Text, authority: seq<RR>) {
    exists s :: s in RelevantSigs(Sigs(authority)) && Classify(w, qname, authority, s).Verified?
  }

  lemma NsecsAreAuthentic(w: World, qname: Text, authority: seq<RR>, n: Nsec.NsecRecord)
    ensures n in Nsecs(w, authority, AuthenticKeys(w, qname, authority, RelevantSigs(Sigs(authority))))
       <==> AuthenticNsec(w, qname, authority, n)
  {
    hide Sigs, RelevantSigs, AuthenticKeys, Nsecs, Authenticated, Nsec.CanonicalName;
    var keys := AuthenticKeys(w, qname, authority, RelevantSigs(Sigs(authority)));
    NsecsExact(w, authority, keys, n);
    forall i | 0 <= i < |authority| && authority[i].rtype == TYPE_NSEC
      ensures (Nsec.CanonicalName(authority[i].name), TYPE_NSEC) in keys
              <==> Authenticated(w, qname, authority, authority[i])
    {
      KeyedIffAuthenticated(w, qname, authority, authority[i]);
    }
  }

  lemma Nsec3sAreAuthentic(w: World, qname: Text, authority: seq<RR>, n: Nsec3.Nsec3Record)
    ensures n in Nsec3s(w, authority, AuthenticKeys(w, qname, authority, RelevantSigs(Sigs(authority))))
       <==> AuthenticNsec3(w, qname, authority, n)
  {
    hide Sigs, RelevantSigs, AuthenticKeys, Nsec3s, Authenticated, Nsec.CanonicalName;
    var keys := AuthenticKeys(w, qname, authority, RelevantSigs(Sigs(authority)));
    Nsec3sExact(w, authority, keys, n);
    forall i | 0 <= i < |authority| && authority[i].rtype == TYPE_NSEC3
      ensures (Nsec.CanonicalName(authority[i].name), TYPE_NSEC3) in keys
              <==> Authenticated(w, qname, authority, authority[i])
    {
      KeyedIffAuthenticated(w, qname, authority, authority[i]);
    }
  }

  lemma KeyedIffAuthenticated(w: World, qname: Text, authority: seq<RR>, rr: RR)
    requires rr in authority
    ensures (Nsec.CanonicalName(rr.name), rr.rtype) in AuthenticKeys(w, qname, authority, RelevantSigs(Sigs(authority)))
       <==> Authenticated(w, qname, authority, rr)
  {
    hide Sigs, RelevantSigs, AuthenticKeys, Authenticated, Nsec.CanonicalName;
    if Authenticated(w, qname, authority, rr) { AuthenticatedIsKeyed(w, qname, authority, rr); }
    if (Nsec.CanonicalName(rr.name), rr.rtype) in AuthenticKeys(w, qname, authority, RelevantSigs(Sigs(authority))) {
      KeyedIsAuthenticated(w, qname, authority, rr);
    }
  }

  /** What the checkers are given: exactly the authenticated records. And without a signature that
      verifies, or without an accepted proof, no denial is Secure. */
  lemma DenialRecords(w: World, qname: Text, qtype: u16, rcode: byte, authority: seq<RR>)
    returns (nsec3s: seq<Nsec3.Nsec3Record>, nsecs: seq<Nsec.NsecRecord>)
    ensures forall n :: n in nsec3s <==> AuthenticNsec3(w, qname, authority, n)
    ensures forall n :: n in nsecs <==> AuthenticNsec(w, qname, authority, n)
    ensures SomeVerified(w, qname, authority) ==>
              DenialVerdictOf(w, qname, qtype, rcode, authority) == Proofs(w, qname, qtype, rcode, nsec3s, nsecs)
    ensures !SomeVerified(w, qname, authority) ==> DenialVerdictOf(w, qname, qtype, rcode, authority) != Secure
  {
    hide Classify, Sigs, RelevantSigs, AuthenticKeys, Nsec3s, Nsecs, AuthenticNsec, AuthenticNsec3, Proofs;
    var sigs := RelevantSigs(Sigs(authority));
    var keys := AuthenticKeys(w, qname, authority, sigs);
    nsec3s, nsecs := Nsec3s(w, authority, keys), Nsecs(w, authority, keys);
    forall n ensures n in nsec3s <==> AuthenticNsec3(w, qname, authority, n) {
      Nsec3sAreAuthentic(w, qname, authority, n);
    }
    forall n ensures n in nsecs <==> AuthenticNsec(w, qname, authority, n) {
      NsecsAreAuthentic(w, qname, authority, n);
    }
    var os := Outcomes(w, qname, authority, sigs);
    if SomeVerified(w, qname, authority) {
      var s :| s in sigs && Classify(w, qname, authority, s).Verified?;
      OutcomeIn(w, qname, authority, sigs, Classify(w, qname, authority, s));
      if Sigs(authority) == [] { NoRelevant(); }
    } else {
      forall o | o in os ensures !o.Verified? { OutcomeIn(w, qname, authority, sigs, o); }
    }
  }

  lemma NoRelevant()
    ensures RelevantSigs([]) == []
  {}

  ghost predicate ProvedBy(w: World, qname: Text, qtype: u16, rcode: byte, authority: seq<RR>,
                           nsec3s: seq<Nsec3.Nsec3Record>, nsecs: seq<Nsec.NsecRecord>)
  {
    && (forall n :: n in nsec3s ==> AuthenticNsec3(w, qname, authority, n))
    && (forall n :: n in nsecs ==> AuthenticNsec(w, qname, authority, n))
    && (|| Nsec3.VerifyNSEC3DenialFull(w.hash, qname, nsec3s) == Nsec3.Verdict(true)
        || Nsec.VerifyNSECDenial(qname, qtype, rcode, nsecs) == Some(true))
  }

  /** A Secure denial is proved by records each of which sits in an RRset over which a signature
      of the response verified. */
  lemma SecureDenial(w: World, qname: Text, qtype: u16, rcode: byte, authority: seq<RR>)
    returns (nsec3s: seq<Nsec3.Nsec3Record>, nsecs: seq<Nsec.NsecRecord>)
    requires DenialVerdictOf(w, qname, qtype, rcode, authority) == Secure
    ensures ProvedBy(w, qname, qtype, rcode, authority, nsec3s, nsecs)
  {
    hide DenialVerdictOf, AuthenticNsec, AuthenticNsec3, SomeVerified, Nsec3.VerifyNSEC3DenialFull,
      Nsec.VerifyNSECDenial;
    nsec3s, nsecs := DenialRecords(w, qname, qtype, rcode, authority);
  }

  // ---- against the zone ----

  /** The signatures over the section speak of this zone: whatever NSEC or NSEC3 record lies in an
      RRset over which one verifies is a link of the zone's chain. */
  ghost predicate Truthful(w: World, qname: Text, authority: seq<RR>, z: Denial.Zone, p: Nsec3.Params,
                           owners: seq<Text>) {
    && Denial.ValidZone(z) && Nsec3.HashedChain(z, w.hash, p, owners)
    && (forall n :: AuthenticNsec(w, qname, authority, n) ==> Denial.TrueRecord(z, n))
    && (forall n :: AuthenticNsec3(w, qname, authority, n) ==> exists i: nat :: Nsec3.IsHashLink(owners, p, n, i))
  }

  /** An authenticated NSEC3 record covers the hash of the name. */
  ghost predicate NameHashCovered(w: World, qname: Text, authority: seq<RR>, p: Nsec3.Params) {
    exists n :: AuthenticNsec3(w, qname, authority, n)
                && Nsec3.RecordCoversHash(n, Nsec3.HashOfKey(w.hash, p, Nsec.Key(qname)))
  }

  /** The NSEC records show the name, and its bitmap, or the NXDOMAIN code and its wildcard, deny
      the type. */
  ghost predicate NsecDenies(z: Denial.Zone, qname: Text, qtype: u16, rcode: byte, nsecs: seq<Nsec.NsecRecord>) {
    var k := Nsec.Key(qname);
    && Denial.Shown(z, nsecs, k)
    && if k in z.types then Denial.TypesDenied(z.types[k], qtype, rcode)
       else rcode == Nsec.RCODE_NXDOMAIN && Denial.WildcardShownAbsent(z, nsecs, k, qtype)
  }

  /** The verdict on a denial, exactly, when the signatures speak the truth about the zone and one
      of them verifies: Secure if a covered hash or the NSEC records deny, and Bogus otherwise. */
  lemma DenialVerdictIff(w: World, qname: Text, qtype: u16, rcode: byte, authority: seq<RR>,
                         z: Denial.Zone, p: Nsec3.Params, owners: seq<Text>)
    returns (nsecs: seq<Nsec.NsecRecord>)
    requires Truthful(w, qname, authority, z, p, owners) && Denial.WellFormed(qname)
    requires SomeVerified(w, qname, authority)
    ensures forall n :: n in nsecs <==> AuthenticNsec(w, qname, authority, n)
    ensures DenialVerdictOf(w, qname, qtype, rcode, authority)
         == if NameHashCovered(w, qname, authority, p) || NsecDenies(z, qname, qtype, rcode, nsecs)
            then Secure else Bogus
  {
    hide DenialVerdictOf, AuthenticNsec, AuthenticNsec3, SomeVerified, Nsec3.VerifyNSEC3DenialFull,
      Nsec.VerifyNSECDenial, Denial.WellFormed, Nsec.Key, Denial.ValidZone, Denial.Shown, Denial.TrueRecord,
      Nsec3.IsHashLink, Nsec3.HashedChain, Nsec3.RecordCoversHash, Nsec3.HashOfKey, Denial.WildcardShownAbsent,
      Denial.TypesDenied;
    var nsec3s;
    nsec3s, nsecs := DenialRecords(w, qname, qtype, rcode, authority);
    assert Denial.TrueRecords(z, nsecs);
    Denial.DenialAcceptsIff(z, qname, qtype, rcode, nsecs);
    assert Nsec3.FromChain(owners, p, nsec3s);
    Nsec3Outcome(z, w.hash, p, owners, qname, nsec3s);
  }

  lemma Nsec3Outcome(z: Denial.Zone, digest: Text -> Text, p: Nsec3.Params, owners: seq<Text>, qname: Text,
                     records: seq<Nsec3.Nsec3Record>)
    requires Nsec3.HashedChain(z, digest, p, owners) && Nsec3.FromChain(owners, p, records) && Denial.WellFormed(qname)
    ensures var o := Nsec3.VerifyNSEC3DenialFull(digest, qname, records);
            && !o.Failed?
            && (o == Nsec3.Verdict(true) <==>
                  exists r :: r in records && Nsec3.RecordCoversHash(r, Nsec3.HashOfKey(digest, p, Nsec.Key(qname))))
  {
    hide Nsec3.HashOfKey, Denial.WellFormed, Nsec.Key, Nsec3.RecordCoversHash, Nsec3.VerifyNSEC3DenialFull,
      Nsec3.FromChain;
    if records == [] {
      Nsec3.NoRecordsNoVerdict(digest, qname);
    } else {
      Nsec3.VerdictOf(digest, p, owners, qname, records);
    }
  }

  /** A Secure denial is false of the zone, exactly, if an NSEC3 record covers the hash of the name
      while the wildcard below its closest encloser owns the type, or if the response is NXDOMAIN
      and an NSEC record at the name lists the type without CNAME, DNAME or a delegation. */
  lemma SecureDenialFalseIff(w: World, qname: Text, qtype: u16, rcode: byte, authority: seq<RR>,
                             z: Denial.Zone, p: Nsec3.Params, owners: seq<Text>)
    requires Truthful(w, qname, authority, z, p, owners) && Denial.WellFormed(qname)
    ensures DenialVerdictOf(w, qname, qtype, rcode, authority) == Secure && Denial.Answers(z, Nsec.Key(qname), qtype)
       <==> || (&& NameHashCovered(w, qname, authority, p)
                && exists ce :: Denial.IsClosestEncloser(z, Nsec.Key(qname), ce)
                                && Denial.HasType(z, ce + [[STAR]], qtype))
            || (&& rcode == Nsec.RCODE_NXDOMAIN
                && exists n :: AuthenticNsec(w, qname, authority, n) && Nsec.Compact(n, Nsec.CanonicalName(qname))
                               && qtype in n.types)
  {
    hide DenialVerdictOf, AuthenticNsec, AuthenticNsec3, SomeVerified, Nsec3.VerifyNSEC3DenialFull,
      Nsec.VerifyNSECDenial, Denial.WellFormed, Nsec.Key, Denial.ValidZone, Denial.TrueRecord, Nsec3.IsHashLink,
      Nsec3.HashedChain, Nsec3.RecordCoversHash, Nsec3.HashOfKey, Denial.Answers, Denial.IsClosestEncloser,
      Nsec.Compact, Nsec.CanonicalName;
    var nsec3s, nsecs := DenialRecords(w, qname, qtype, rcode, authority);
    assert Denial.TrueRecords(z, nsecs);
    Denial.DenialWrongIff(z, qname, qtype, rcode, nsecs);
    assert Nsec3.FromChain(owners, p, nsec3s);
    Nsec3Outcome(z, w.hash, p, owners, qname, nsec3s);
    Nsec3.Nsec3WrongIff(z, w.hash, p, owners, qname, qtype, nsec3s);
    if !SomeVerified(w, qname, authority) { NothingAuthentic(w, qname, authority); }
  }

  /** A denial of a name below a delegation or a DNAME is Secure, exactly, if an NSEC3 record covers
      the hash of the name, or if the response is NXDOMAIN and an NSEC record is of such a cut above
      the name. */
  lemma SecureBelowCutIff(w: World, qname: Text, qtype: u16, rcode: byte, authority: seq<RR>,
                          z: Denial.Zone, p: Nsec3.Params, owners: seq<Text>)
    requires Truthful(w, qname, authority, z, p, owners) && Cuts.CutsAreBare(z) && Denial.WellFormed(qname)
    ensures DenialVerdictOf(w, qname, qtype, rcode, authority) == Secure && Cuts.BelowCut(z, Nsec.Key(qname))
       <==> || (NameHashCovered(w, qname, authority, p) && Cuts.BelowCut(z, Nsec.Key(qname)))
            || (&& rcode == Nsec.RCODE_NXDOMAIN
                && exists n :: AuthenticNsec(w, qname, authority, n) && Cuts.CutAbove(n, qname))
  {
    hide DenialVerdictOf, AuthenticNsec, AuthenticNsec3, SomeVerified, Nsec3.VerifyNSEC3DenialFull,
      Nsec.VerifyNSECDenial, Denial.WellFormed, Nsec.Key, Denial.ValidZone, Denial.TrueRecord, Nsec3.IsHashLink,
      Nsec3.HashedChain, Nsec3.RecordCoversHash, Nsec3.HashOfKey, Cuts.CutsAreBare, Cuts.BelowCut, Cuts.CutAbove;
    var nsec3s, nsecs := DenialRecords(w, qname, qtype, rcode, authority);
    assert Denial.TrueRecords(z, nsecs);
    Cuts.BelowCutAcceptedIff(z, qname, qtype, rcode, nsecs);
    assert Nsec3.FromChain(owners, p, nsec3s);
    Nsec3Outcome(z, w.hash, p, owners, qname, nsec3s);
    if !SomeVerified(w, qname, authority) { NothingAuthentic(w, qname, authority); }
  }

  lemma NothingAuthentic(w: World, qname: Text, authority: seq<RR>)
    requires !SomeVerified(w, qname, authority)
    ensures forall n :: !AuthenticNsec(w, qname, authority, n)
    ensures forall n :: !AuthenticNsec3(w, qname, authority, n)
  {
    hide Classify, Sigs, RelevantSigs, RRsetOf;
  }

  // ---- true denials with a Bogus verdict ----

  lemma ExistingNotCovered(w: World, qname: Text, authority: seq<RR>, z: Denial.Zone, p: Nsec3.Params,
                           owners: seq<Text>)
    requires Truthful(w, qname, authority, z, p, owners) && Denial.Exists(z, Nsec.Key(qname))
    ensures !NameHashCovered(w, qname, authority, p)
  {
    hide AuthenticNsec, AuthenticNsec3, Denial.ValidZone, Denial.TrueRecord, Denial.Exists, Nsec.Key,
      Nsec3.RecordCoversHash, Nsec3.HashOfKey;
    var h := Nsec3.HashOfKey(w.hash, p, Nsec.Key(qname));
    forall n | AuthenticNsec3(w, qname, authority, n) ensures !Nsec3.RecordCoversHash(n, h) {
      if Nsec3.RecordCoversHash(n, h) { Nsec3.LinkIsNoOwner(owners, p, n, h); }
    }
  }

  /** NODATA for an empty non-terminal is Bogus, by NSEC and by NSEC3. */
  lemma EmptyNonTerminalIsBogus(w: World, qname: Text, qtype: u16, rcode: byte, authority: seq<RR>,
                                z: Denial.Zone, p: Nsec3.Params, owners: seq<Text>)
    requires Truthful(w, qname, authority, z, p, owners) && Denial.WellFormed(qname)
    requires SomeVerified(w, qname, authority)
    requires Denial.Exists(z, Nsec.Key(qname)) && Nsec.Key(qname) !in z.types && rcode != Nsec.RCODE_NXDOMAIN
    ensures DenialVerdictOf(w, qname, qtype, rcode, authority) == Bogus && !Denial.Answers(z, Nsec.Key(qname), qtype)
  {
    hide DenialVerdictOf, AuthenticNsec, AuthenticNsec3, SomeVerified, Truthful, NameHashCovered, Nsec.Key,
      Denial.Exists, Denial.WellFormed;
    var nsecs := DenialVerdictIff(w, qname, qtype, rcode, authority, z, p, owners);
    ExistingNotCovered(w, qname, authority, z, p, owners);
  }

  /** Any denial at a delegation point is Bogus, that of an absent DS included. */
  lemma DelegationIsBogus(w: World, qname: Text, qtype: u16, rcode: byte, authority: seq<RR>,
                          z: Denial.Zone, p: Nsec3.Params, owners: seq<Text>)
    requires Truthful(w, qname, authority, z, p, owners) && Denial.WellFormed(qname)
    requires SomeVerified(w, qname, authority)
    requires Nsec.Key(qname) in z.types && Denial.ChildSide(z.types[Nsec.Key(qname)])
    ensures DenialVerdictOf(w, qname, qtype, rcode, authority) == Bogus
  {
    hide DenialVerdictOf, AuthenticNsec, AuthenticNsec3, SomeVerified, NameHashCovered, Nsec.Key, Denial.Exists,
      Denial.WellFormed, Denial.ValidZone, Denial.TrueRecord, Nsec3.HashedChain, Nsec3.IsHashLink;
    var nsecs := DenialVerdictIff(w, qname, qtype, rcode, authority, z, p, owners);
    Denial.OwnerIsThere(z, Nsec.Key(qname));
    ExistingNotCovered(w, qname, authority, z, p, owners);
  }

  /** NODATA from a wildcard, proved by NSEC records, is Bogus. */
  lemma WildcardNodataIsBogus(w: World, qname: Text, qtype: u16, rcode: byte, authority: seq<RR>,
                              z: Denial.Zone, p: Nsec3.Params, owners: seq<Text>)
    requires Truthful(w, qname, authority, z, p, owners) && Denial.WellFormed(qname)
    requires SomeVerified(w, qname, authority)
    requires Nsec.Key(qname) !in z.types && rcode != Nsec.RCODE_NXDOMAIN
    requires forall n :: !AuthenticNsec3(w, qname, authority, n)
    ensures DenialVerdictOf(w, qname, qtype, rcode, authority) == Bogus
  {
    hide DenialVerdictOf, AuthenticNsec, AuthenticNsec3, SomeVerified, Truthful, Nsec.Key, Denial.WellFormed;
    var nsecs := DenialVerdictIff(w, qname, qtype, rcode, authority, z, p, owners);
  }

  /** NODATA for any name that exists, proved by NSEC3 records, is Bogus. */
  lemma Nsec3NodataIsBogus(w: World, qname: Text, qtype: u16, rcode: byte, authority: seq<RR>,
                           z: Denial.Zone, p: Nsec3.Params, owners: seq<Text>)
    requires Truthful(w, qname, authority, z, p, owners) && Denial.WellFormed(qname)
    requires SomeVerified(w, qname, authority)
    requires Denial.Exists(z, Nsec.Key(qname)) && forall n :: !AuthenticNsec(w, qname, authority, n)
    ensures DenialVerdictOf(w, qname, qtype, rcode, authority) == Bogus
  {
    hide DenialVerdictOf, AuthenticNsec, AuthenticNsec3, SomeVerified, Truthful, NameHashCovered, Nsec.Key,
      Denial.Exists, Denial.WellFormed;
    var nsecs := DenialVerdictIff(w, qname, qtype, rcode, authority, z, p, owners);
    ExistingNotCovered(w, qname, authority, z, p, owners);
    NoElements(nsecs);
  }

  lemma NoElements<T>(s: seq<T>)
    ensures s == [] <==> forall x :: x !in s
  {
    if s != [] { assert s[0] in s; }
  }

  // ---- trust plays no part in a denial ----

  /** The world with other trust anchors and other DS records. */
  function OtherTrust(w: World, anchors: seq<Ds>, ds: Text -> Option<seq<Ds>>): World {
    w.(anchors := anchors, ds := ds)
  }

  lemma ClassifyIgnoresTrust(w: World, anchors: seq<Ds>, ds: Text -> Option<seq<Ds>>, qname: Text, rrs: seq<RR>,
                             s: OwnedSig)
    ensures Classify(OtherTrust(w, anchors, ds), qname, rrs, s) == Classify(w, qname, rrs, s)
  {
    hide RRsetOf, BuildSignedData, InBailiwick, MatchingKey;
    var w' := OtherTrust(w, anchors, ds);
    forall keys ensures MatchingKey(w', keys, s.sig) == MatchingKey(w, keys, s.sig) {
      MatchingIgnoresTrust(w, anchors, ds, keys, s.sig);
    }
  }

  lemma {:induction false} MatchingIgnoresTrust(w: World, anchors: seq<Ds>, ds: Text -> Option<seq<Ds>>,
                                                keys: seq<DnsKey>, sig: Rrsig)
    ensures MatchingKey(OtherTrust(w, anchors, ds), keys, sig) == MatchingKey(w, keys, sig)
  {
    if keys != [] { MatchingIgnoresTrust(w, anchors, ds, keys[1..], sig); }
  }

  lemma {:induction false} RecordsIgnoreTrust(w: World, anchors: seq<Ds>, ds: Text -> Option<seq<Ds>>,
                                              authority: seq<RR>, keys: set<(Text, u16)>)
    ensures Nsec3s(OtherTrust(w, anchors, ds), authority, keys) == Nsec3s(w, authority, keys)
    ensures Nsecs(OtherTrust(w, anchors, ds), authority, keys) == Nsecs(w, authority, keys)
  {
    hide Nsec.CanonicalName;
    if authority != [] { RecordsIgnoreTrust(w, anchors, ds, authority[1..], keys); }
  }

  lemma {:induction false} KeysIgnoreTrust(w: World, anchors: seq<Ds>, ds: Text -> Option<seq<Ds>>, qname: Text,
                                           authority: seq<RR>, sigs: seq<OwnedSig>)
    ensures AuthenticKeys(OtherTrust(w, anchors, ds), qname, authority, sigs)
         == AuthenticKeys(w, qname, authority, sigs)
  {
    hide Classify, KeysOf, RRsetOf, OtherTrust;
    if sigs != [] {
      ClassifyIgnoresTrust(w, anchors, ds, qname, authority, sigs[0]);
      KeysIgnoreTrust(w, anchors, ds, qname, authority, sigs[1..]);
    }
  }

  /** The verdict on a denial is the same whatever the trust anchors and the DS records are: the
      chain of trust of the signer is never walked. */
  lemma DenialIgnoresTrust(w: World, anchors: seq<Ds>, ds: Text -> Option<seq<Ds>>, qname: Text, qtype: u16,
                           rcode: byte, authority: seq<RR>)
    ensures DenialVerdictOf(OtherTrust(w, anchors, ds), qname, qtype, rcode, authority)
         == DenialVerdictOf(w, qname, qtype, rcode, authority)
  {
    hide Classify, AuthenticKeys, Nsec3s, Nsecs, Sigs, RelevantSigs, Nsec3.VerifyNSEC3DenialFull, Nsec.VerifyNSECDenial;
    var w' := OtherTrust(w, anchors, ds);
    var sigs := RelevantSigs(Sigs(authority));
    forall s ensures Classify(w', qname, authority, s) == Classify(w, qname, authority, s) {
      ClassifyIgnoresTrust(w, anchors, ds, qname, authority, s);
    }
    assert Outcomes(w', qname, authority, sigs) == Outcomes(w, qname, authority, sigs);
    KeysIgnoreTrust(w, anchors, ds, qname, authority, sigs);
    RecordsIgnoreTrust(w, anchors, ds, authority, AuthenticKeys(w, qname, authority, sigs));
  }

  /** Without anchors no zone is trusted. */
  lemma NoAnchorsNoTrust(w: World, zone: Text)
    requires w.anchors == []
    ensures TrustOf(w, zone) != Secure
  {
    hide BuildZoneChain;
    assert LinkVerdict(w, BuildZoneChain(zone), 0) != Secure;
  }

  predicate IsDenial(rcode: byte, answers: seq<RR>) {
    rcode == Nsec.RCODE_NXDOMAIN || (rcode == 0 && answers == [])
  }

  /** What Secure says about trust: for a positive answer, that the zone of a signature that
      verifies is trusted from the root down; for a denial, nothing, as it stays Secure when no
      zone at all is trusted. */
  lemma SecureAndTrust(w: World, qname: Text, qtype: u16, rcode: byte, answers: seq<RR>, authority: seq<RR>)
    requires Validate(w, qname, qtype, rcode, answers, authority) == Secure
    ensures !IsDenial(rcode, answers) ==>
              exists s :: Verifies(w, qname, answers, s) && TrustOf(w, Nsec3.Dotted(s.sig.signer)) == Secure
    ensures IsDenial(rcode, answers) ==>
              var w' := OtherTrust(w, [], w.ds);
              && Validate(w', qname, qtype, rcode, answers, authority) == Secure
              && forall zone :: TrustOf(w', zone) != Secure
  {
    hide DenialVerdictOf, PositiveVerdict, TrustOf, Verifies;
    if IsDenial(rcode, answers) {
      DenialIgnoresTrust(w, [], w.ds, qname, qtype, rcode, authority);
      forall zone ensures TrustOf(OtherTrust(w, [], w.ds), zone) != Secure {
        NoAnchorsNoTrust(OtherTrust(w, [], w.ds), zone);
      }
    } else {
      var s := SecureSigner(w, qname, answers);
    }
  }

  // ---- an example ----

  /** The one NSEC record, at "a" and without types, of a world without anchors. */
  function Bare(): World {
    SimpleWorld([], rr => Some(Nsec.NsecRecord([97], [97], [])))
  }

  /** A denial that validates Secure although no zone is trusted. */
  lemma UntrustedDenialIsSecure()
    ensures Validate(Bare(), [97], TYPE_A, 0, [], SignedSection(47)) == Secure
    ensures forall zone :: TrustOf(Bare(), zone) != Secure
  {
    hide Classify, RRsetOf, Sigs, DenialVerdictOf, Nsec3.VerifyNSEC3DenialFull, TrustOf;
    var w, section, sig := Bare(), SignedSection(47), SigFor(47);
    var n := Nsec.NsecRecord([97], [97], []);
    SampleSigs(47);
    SampleRRset(47, section);
    SampleVerifies(47, w, section);
    OneRelevant(sig);
    assert Authenticated(w, [97], section, section[0]);
    assert AuthenticNsec(w, [97], section, n);
    var nsec3s, nsecs := DenialRecords(w, [97], TYPE_A, 0, section);
    NoElements(nsec3s);
    Nsec3.NoRecordsNoVerdict(w.hash, [97]);
    assert Nsec.DeniesType(n, Nsec.CanonicalName([97]), TYPE_A);
    forall zone ensures TrustOf(w, zone) != Secure { NoAnchorsNoTrust(w, zone); }
  }

  lemma OneRelevant(s: OwnedSig)
    requires Relevant(s)
    ensures RelevantSigs([s]) == [s]
  {
    assert [s][1..] == [];
  }

  // ---- the loops ----

  /** validateDenialResponse: a map of authenticated keys, then two filters. */
  method ValidateDenial(w: World, qname: Text, qtype: u16, rcode: byte, authority: seq<RR>) returns (v: Validation)
    ensures v == DenialVerdictOf(w, qname, qtype, rcode, authority)
  {
    hide Classify, AuthenticKeys, Nsec3s, Nsecs, Nsec3.VerifyNSEC3DenialFull, Nsec.VerifyNSECDenial, SigOf;
    var all, _ := SplitSection(authority);
    if |all| == 0 {
      return Insecure;
    }
    var sigs := Keep(all);
    var usable, sawBogus, sawIndeterminate, keys := Authenticate(w, qname, authority, sigs);
    if usable == 0 {
      return Insecure;
    }
    if keys == {} {
      return if !sawBogus && sawIndeterminate then Indeterminate else Bogus;
    }
    var nsec3s, nsecs := Select(w, authority, keys);
    CheckersDecide(w, qname, qtype, rcode, nsec3s, nsecs);
    if |nsec3s| > 0 {
      var r := Nsec3.Verify(w.hash, qname, nsec3s);
      if r.Failed? {
        return Indeterminate;
      }
      if r == Nsec3.Verdict(true) {
        return Secure;
      }
    }
    if |nsecs| > 0 {
      var r := Nsec.Verify(qname, qtype, rcode, nsecs);
      if r.None? {
        return Indeterminate;
      }
      if r.value {
        return Secure;
      }
    }
    v := Bogus;
  }

  /** The checkers refuse to decide only without records. */
  lemma CheckersDecide(w: World, qname: Text, qtype: u16, rcode: byte,
                       nsec3s: seq<Nsec3.Nsec3Record>, nsecs: seq<Nsec.NsecRecord>)
    ensures Nsec3.VerifyNSEC3DenialFull(w.hash, qname, nsec3s) == Nsec3.NoRecords <==> nsec3s == []
    ensures Nsec.VerifyNSECDenial(qname, qtype, rcode, nsecs) == None <==> nsecs == []
  {
    hide Nsec3.ComputeHash, Nsec3.RecordCoversHash, Nsec.ClosestEncloser;
  }

  method Keep(all: seq<OwnedSig>) returns (sigs: seq<OwnedSig>)
    ensures sigs == RelevantSigs(all)
  {
    hide RelevantSigs;
    sigs := [];
    assert all[0..] == all;
    for i := 0 to |all|
      invariant sigs + RelevantSigs(all[i..]) == RelevantSigs(all)
    {
      RelevantStep(all, i);
      if Relevant(all[i]) {
        sigs := sigs + [all[i]];
      }
    }
    assert all[|all|..] == [];
    NoRelevant();
  }

  lemma RelevantStep(all: seq<OwnedSig>, i: nat)
    requires i < |all|
    ensures RelevantSigs(all[i..]) == (if Relevant(all[i]) then [all[i]] else []) + RelevantSigs(all[i + 1..])
  {
    assert all[i..][1..] == all[i + 1..];
  }

  method Authenticate(w: World, qname: Text, authority: seq<RR>, sigs: seq<OwnedSig>)
    returns (usable: nat, sawBogus: bool, sawIndeterminate: bool, keys: set<(Text, u16)>)
    ensures keys == AuthenticKeys(w, qname, authority, sigs)
    ensures var os := Outcomes(w, qname, authority, sigs);
            && (usable == 0 <==> forall o :: o in os ==> o == Skipped)
            && sawBogus == (Failed in os) && sawIndeterminate == (NoKey in os)
            && (keys == {} <==> forall o :: o in os ==> !o.Verified?)
  {
    hide Classify, KeysOf, RRsetOf, AuthenticKeys;
    NoKeys(w, qname, authority, sigs[|sigs|..]);
    usable, sawBogus, sawIndeterminate, keys := 0, false, false, {};
    ghost var os := Outcomes(w, qname, authority, sigs);
    assert sigs[0..] == sigs;
    for i := 0 to |sigs|
      invariant keys + AuthenticKeys(w, qname, authority, sigs[i..]) == AuthenticKeys(w, qname, authority, sigs)
      invariant usable == 0 <==> forall j :: 0 <= j < i ==> os[j] == Skipped
      invariant sawBogus <==> exists j :: 0 <= j < i && os[j] == Failed
      invariant sawIndeterminate <==> exists j :: 0 <= j < i && os[j] == NoKey
      invariant keys == {} <==> forall j :: 0 <= j < i ==> !os[j].Verified?
    {
      KeysStep(w, qname, authority, sigs, i);
      var o := CheckSignature(w, qname, authority, sigs[i]);
      assert o == os[i];
      match o {
        case Skipped =>
        case Unmatched => usable := usable + 1;
        case Failed => usable, sawBogus := usable + 1, true;
        case NoKey => usable, sawIndeterminate := usable + 1, true;
        case Verified(_) =>
          usable := usable + 1;
          var rrset := FilterRRSetByOwner(authority, sigs[i].sig.typeCovered, sigs[i].owner);
          KeysNotEmpty(w, qname, authority, sigs[i]);
          var more := MarkAuthentic(rrset, sigs[i].sig.typeCovered);
          keys := keys + more;
      }
    }
    if usable != 0 {
      ghost var j :| 0 <= j < |os| && os[j] != Skipped;
      assert os[j] in os;
    }
    if keys != {} {
      ghost var j :| 0 <= j < |os| && os[j].Verified?;
      assert os[j] in os;
    }
  }

  lemma NoKeys(w: World, qname: Text, authority: seq<RR>, sigs: seq<OwnedSig>)
    requires sigs == []
    ensures AuthenticKeys(w, qname, authority, sigs) == {}
  {}

  lemma KeysStep(w: World, qname: Text, authority: seq<RR>, sigs: seq<OwnedSig>, i: nat)
    requires i < |sigs|
    ensures AuthenticKeys(w, qname, authority, sigs[i..])
         == (if Classify(w, qname, authority, sigs[i]).Verified?
             then KeysOf(RRsetOf(authority, sigs[i].sig.typeCovered, sigs[i].owner), sigs[i].sig.typeCovered) else {})
            + AuthenticKeys(w, qname, authority, sigs[i + 1..])
  {
    hide Classify, KeysOf, RRsetOf;
    assert sigs[i..][1..] == sigs[i + 1..];
  }

  lemma KeysNotEmpty(w: World, qname: Text, authority: seq<RR>, s: OwnedSig)
    requires Classify(w, qname, authority, s).Verified?
    ensures KeysOf(RRsetOf(authority, s.sig.typeCovered, s.owner), s.sig.typeCovered) != {}
  {
    hide RRsetOf, MatchingKey, BuildSignedData, InBailiwick, Nsec.CanonicalName;
    var rrset := RRsetOf(authority, s.sig.typeCovered, s.owner);
    assert (Nsec.CanonicalName(rrset[0].name), s.sig.typeCovered) in KeysOf(rrset, s.sig.typeCovered);
  }

  method MarkAuthentic(rrset: seq<RR>, rtype: u16) returns (keys: set<(Text, u16)>)
    ensures keys == KeysOf(rrset, rtype)
  {
    hide Nsec.CanonicalName;
    keys := {};
    for i := 0 to |rrset|
      invariant keys == KeysOf(rrset[..i], rtype)
    {
      assert rrset[..i + 1] == rrset[..i] + [rrset[i]];
      KeysGrow(rrset[..i], rrset[i], rtype);
      keys := keys + {(Nsec.CanonicalName(rrset[i].name), rtype)};
    }
    assert rrset[..|rrset|] == rrset;
  }

  lemma KeysGrow(rrset: seq<RR>, rr: RR, rtype: u16)
    ensures KeysOf(rrset + [rr], rtype) == KeysOf(rrset, rtype) + {(Nsec.CanonicalName(rr.name), rtype)}
  {
    hide Nsec.CanonicalName;
    var all := rrset + [rr];
    assert all[|rrset|] == rr;
    forall k | k in KeysOf(rrset, rtype) ensures k in KeysOf(all, rtype) {
      var i :| 0 <= i < |rrset| && (Nsec.CanonicalName(rrset[i].name), rtype) == k;
      assert all[i] == rrset[i];
    }
  }

  /** The two filters over the records of the section. */
  method Select(w: World, authority: seq<RR>, keys: set<(Text, u16)>)
    returns (nsec3s: seq<Nsec3.Nsec3Record>, nsecs: seq<Nsec.NsecRecord>)
    ensures nsec3s == Nsec3s(w, authority, keys) && nsecs == Nsecs(w, authority, keys)
  {
    nsec3s := SelectNsec3(w, authority, keys);
    nsecs := SelectNsec(w, authority, keys);
  }

  method SelectNsec3(w: World, authority: seq<RR>, keys: set<(Text, u16)>) returns (nsec3s: seq<Nsec3.Nsec3Record>)
    ensures nsec3s == Nsec3s(w, authority, keys)
  {
    hide Nsec.CanonicalName, Nsec3s;
    nsec3s := [];
    assert authority[0..] == authority;
    for i := 0 to |authority|
      invariant nsec3s + Nsec3s(w, authority[i..], keys) == Nsec3s(w, authority, keys)
    {
      Nsec3sStep(w, authority, i, keys);
      var rr := authority[i];
      if rr.rtype == TYPE_NSEC3 && w.nsec3(rr).Some? && (Nsec.CanonicalName(rr.name), TYPE_NSEC3) in keys {
        nsec3s := nsec3s + [w.nsec3(rr).value];
      }
    }
    SelectedNone(w, authority[|authority|..], keys);
  }

  method SelectNsec(w: World, authority: seq<RR>, keys: set<(Text, u16)>) returns (nsecs: seq<Nsec.NsecRecord>)
    ensures nsecs == Nsecs(w, authority, keys)
  {
    hide Nsec.CanonicalName, Nsecs;
    nsecs := [];
    assert authority[0..] == authority;
    for i := 0 to |authority|
      invariant nsecs + Nsecs(w, authority[i..], keys) == Nsecs(w, authority, keys)
    {
      NsecsStep(w, authority, i, keys);
      var rr := authority[i];
      if rr.rtype == TYPE_NSEC && w.nsec(rr).Some? && (Nsec.CanonicalName(rr.name), TYPE_NSEC) in keys {
        nsecs := nsecs + [w.nsec(rr).value];
      }
    }
    SelectedNone(w, authority[|authority|..], keys);
  }

  lemma Nsec3sStep(w: World, authority: seq<RR>, i: nat, keys: set<(Text, u16)>)
    requires i < |authority|
    ensures var rr := authority[i];
            Nsec3s(w, authority[i..], keys)
            == (if rr.rtype == TYPE_NSEC3 && w.nsec3(rr).Some? && (Nsec.CanonicalName(rr.name), TYPE_NSEC3) in keys
                then [w.nsec3(rr).value] else []) + Nsec3s(w, authority[i + 1..], keys)
  {
    hide Nsec.CanonicalName;
    assert authority[i..][1..] == authority[i + 1..];
  }

  lemma NsecsStep(w: World, authority: seq<RR>, i: nat, keys: set<(Text, u16)>)
    requires i < |authority|
    ensures var rr := authority[i];
            Nsecs(w, authority[i..], keys)
            == (if rr.rtype == TYPE_NSEC && w.nsec(rr).Some? && (Nsec.CanonicalName(rr.name), TYPE_NSEC) in keys
                then [w.nsec(rr).value] else []) + Nsecs(w, authority[i + 1..], keys)
  {
    hide Nsec.CanonicalName;
    assert authority[i..][1..] == authority[i + 1..];
  }

  lemma SelectedNone(w: World, authority: seq<RR>, keys: set<(Text, u16)>)
    requires authority == []
    ensures Nsec3s(w, authority, keys) == [] && Nsecs(w, authority, keys) == []
  {}

  /** validateResponseImpl */
  ghost function Validate(w: World, qname: Text, qtype: u16, rcode: byte, answers: seq<RR>,
                          authority: seq<RR>): Validation {
    if rcode == Nsec.RCODE_NXDOMAIN || (rcode == 0 && answers == [])
    then DenialVerdictOf(w, qname, qtype, rcode, authority)
    else PositiveVerdict(w, qname, answers)
  }

  method ValidateResponse(w: World, qname: Text, qtype: u16, rcode: byte, answers: seq<RR>, authority: seq<RR>)
    returns (v: Validation)
    ensures v == Validate(w, qname, qtype, rcode, answers, authority)
  {
    hide DenialVerdictOf, Judge;
    if rcode == Nsec.RCODE_NXDOMAIN || (rcode == 0 && |answers| == 0) {
      v := ValidateDenial(w, qname, qtype, rcode, authority);
      return;
    }
    if |answers| == 0 {
      return Insecure;
    }
    v := ValidatePositive(w, qname, answers);
  }
}
