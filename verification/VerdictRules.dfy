/** The exact verdict of the validator (dnssec/validator.go), positive and negative, by what each
    signature of the section is and how it fares with the keys of its signer. */
module VerdictRules {
  import opened Bytes
  import opened Records
  import opened SignedData
  import opened TrustChain
  import opened Validator
  import opened Verdicts
  import Nsec
  import Nsec3
  import DV = DenialVerdict

  // ---- one signature ----

  /** RSASHA256, RSASHA512, ECDSA P-256 and P-384, Ed25519; RSASHA1 only if that is allowed. */
  predicate AlgorithmAccepted(w: World, algorithm: byte) {
    algorithm in {8, 10, 13, 14, 15} || (algorithm == 5 && w.allowSha1)
  }

  /** Within its period, give or take a minute. */
  predicate Timely(w: World, sig: Rrsig) {
    sig.inception - 60 <= w.now <= sig.expiration + 60
  }

  /** The records at the owner of the signature that have the covered type; failing those, all
      records of that type, if they are all at one owner. */
  function Under(rrs: seq<RR>, s: OwnedSig): seq<RR> {
    RRsetOf(rrs, s.sig.typeCovered, s.owner)
  }

  predicate AtOwner(rr: RR, s: OwnedSig) {
    rr.rtype == s.sig.typeCovered && Nsec.CanonicalName(rr.name) == Nsec.CanonicalName(s.owner)
  }

  lemma UnderIs(rrs: seq<RR>, s: OwnedSig, x: RR)
    ensures (exists rr :: rr in rrs && AtOwner(rr, s)) ==>
              multiset(Under(rrs, s))[x] == if AtOwner(x, s) then multiset(rrs)[x] else 0
    ensures (forall rr :: rr in rrs ==> !AtOwner(rr, s)) ==>
              multiset(Under(rrs, s))[x]
              == if x.rtype == s.sig.typeCovered
                    && forall rr :: rr in rrs && rr.rtype == s.sig.typeCovered ==>
                         Nsec.CanonicalName(rr.name) == Nsec.CanonicalName(x.name)
                 then multiset(rrs)[x] else 0
  {
    hide Matching, Nsec.CanonicalName;
    var t, name := s.sig.typeCovered, Some(Nsec.CanonicalName(s.owner));
    forall y ensures multiset(Matching(rrs, t, name))[y] == if AtOwner(y, s) then multiset(rrs)[y] else 0 {
      MatchingCount(rrs, t, name, y);
    }
    forall y ensures multiset(Matching(rrs, t, None))[y] == if y.rtype == t then multiset(rrs)[y] else 0 {
      MatchingCount(rrs, t, None, y);
    }
    InMultiset(Matching(rrs, t, name));
    InMultiset(Matching(rrs, t, None));
    InMultiset(rrs);
    if forall rr :: rr in rrs ==> !AtOwner(rr, s) {
      assert Matching(rrs, t, name) == [] by { NoElement(Matching(rrs, t, name)); }
      var all := Matching(rrs, t, None);
      assert forall rr :: rr in all <==> rr in rrs && rr.rtype == t;
      assert OneOwner(all) && x in all ==>
               forall rr :: rr in all ==> Nsec.CanonicalName(rr.name) == Nsec.CanonicalName(x.name);
      if !OneOwner(all) && x in all { NotOneOwner(all, x); }
    }
  }

  lemma InMultiset(rrs: seq<RR>)
    ensures forall y :: y in rrs <==> multiset(rrs)[y] > 0
  {
    assert forall y :: y in rrs <==> y in multiset(rrs);
  }

  lemma NoElement(rrs: seq<RR>)
    ensures (forall y :: y !in rrs) ==> rrs == []
  {
    if rrs != [] { assert rrs[0] in rrs; }
  }

  lemma NotOneOwner(all: seq<RR>, x: RR)
    requires x in all && !OneOwner(all)
    ensures exists rr :: rr in all && Nsec.CanonicalName(rr.name) != Nsec.CanonicalName(x.name)
  {
    hide Nsec.CanonicalName;
    var i :| 0 <= i < |all| && Nsec.CanonicalName(all[i].name) != Nsec.CanonicalName(all[0].name);
    assert all[i] in all && all[0] in all;
  }

  /** The first of the fetched keys that has the tag and the algorithm of the signature. */
  ghost predicate IsKey(w: World, keys: seq<DnsKey>, sig: Rrsig, key: DnsKey) {
    exists i :: 0 <= i < |keys| && keys[i] == key && Fits(w, key, sig)
                && forall j :: 0 <= j < i ==> !Fits(w, keys[j], sig)
  }

  predicate Fits(w: World, key: DnsKey, sig: Rrsig) {
    w.tag(key) == sig.keyTag && key.algorithm == sig.algorithm
  }

  lemma {:induction false} MatchingKeyIs(w: World, keys: seq<DnsKey>, sig: Rrsig)
    ensures MatchingKey(w, keys, sig).None? <==> forall key :: key in keys ==> !Fits(w, key, sig)
    ensures forall key :: MatchingKey(w, keys, sig) == Some(key) ==> IsKey(w, keys, sig, key)
  {
    if keys != [] {
      var rest := keys[1..];
      MatchingKeyIs(w, rest, sig);
      assert forall key :: key in keys <==> key == keys[0] || key in rest;
      var k := MatchingKey(w, keys, sig);
      if k.Some? && !Fits(w, keys[0], sig) {
        assert IsKey(w, rest, sig, k.value);
        var i :| 0 <= i < |rest| && rest[i] == k.value && Fits(w, k.value, sig)
                 && forall j :: 0 <= j < i ==> !Fits(w, rest[j], sig);
        assert keys[i + 1] == rest[i] && forall j :: 0 < j < i + 1 ==> keys[j] == rest[j - 1];
      }
    }
  }

  /** The zone that signs, fetched under its name with a final dot. */
  function Zone(s: OwnedSig): Text {
    Nsec3.Dotted(s.sig.signer)
  }

  /** It has records, is in time and is by a zone at or above the name. */
  predicate Judgeable(w: World, qname: Text, rrs: seq<RR>, s: OwnedSig) {
    && AlgorithmAccepted(w, s.sig.algorithm) && Under(rrs, s) != [] && Timely(w, s.sig)
    && InBailiwick(qname, Zone(s))
  }

  /** The signature holds over the canonical octets of its records, under the key. */
  predicate Holds(w: World, rrs: seq<RR>, s: OwnedSig, key: DnsKey) {
    s.sig.signature != []
    && w.signed(BuildSignedData(Under(rrs, s), s.sig), s.sig.signature, key.publicKey, s.sig.algorithm)
  }

  ghost predicate Passes(w: World, qname: Text, rrs: seq<RR>, s: OwnedSig) {
    && Judgeable(w, qname, rrs, s) && w.keys(Zone(s)).Some?
    && exists key :: IsKey(w, w.keys(Zone(s)).value, s.sig, key) && Holds(w, rrs, s, key)
  }

  /** A hard failure: out of time, by a zone that has no say, or rejected by its key. */
  ghost predicate Breaks(w: World, qname: Text, rrs: seq<RR>, s: OwnedSig) {
    && AlgorithmAccepted(w, s.sig.algorithm) && Under(rrs, s) != []
    && (|| !Timely(w, s.sig) || !InBailiwick(qname, Zone(s))
        || (&& w.keys(Zone(s)).Some?
            && exists key :: IsKey(w, w.keys(Zone(s)).value, s.sig, key) && !Holds(w, rrs, s, key)))
  }

  /** The keys cannot be fetched, or none fits. */
  ghost predicate Keyless(w: World, qname: Text, rrs: seq<RR>, s: OwnedSig) {
    && Judgeable(w, qname, rrs, s)
    && (w.keys(Zone(s)).None? || forall key :: key in w.keys(Zone(s)).value ==> !Fits(w, key, s.sig))
  }

  lemma KeyUnique(w: World, keys: seq<DnsKey>, sig: Rrsig, a: DnsKey, b: DnsKey)
    requires IsKey(w, keys, sig, a) && IsKey(w, keys, sig, b)
    ensures a == b && a in keys && Fits(w, a, sig)
  {
    var i :| 0 <= i < |keys| && keys[i] == a && Fits(w, a, sig) && forall j :: 0 <= j < i ==> !Fits(w, keys[j], sig);
    var k :| 0 <= k < |keys| && keys[k] == b && Fits(w, b, sig) && forall j :: 0 <= j < k ==> !Fits(w, keys[j], sig);
    assert i == k;
  }

  /** The five fates of a signature. */
  lemma ClassifyIs(w: World, qname: Text, rrs: seq<RR>, s: OwnedSig)
    ensures var o := Classify(w, qname, rrs, s);
            && (o == Skipped <==> !AlgorithmAccepted(w, s.sig.algorithm))
            && (o == Unmatched <==> AlgorithmAccepted(w, s.sig.algorithm) && Under(rrs, s) == [])
            && (o == Failed <==> Breaks(w, qname, rrs, s))
            && (o == NoKey <==> Keyless(w, qname, rrs, s))
            && (o.Verified? <==> Passes(w, qname, rrs, s))
            && (o.Verified? ==> o.zone == Zone(s))
  {
    hide RRsetOf, MatchingKey, BuildSignedData, InBailiwick, Nsec3.Dotted, IsKey, Fits;
    var fetched := w.keys(Zone(s));
    if fetched.Some? {
      var keys := fetched.value;
      MatchingKeyIs(w, keys, s.sig);
      var k := MatchingKey(w, keys, s.sig);
      forall key | IsKey(w, keys, s.sig, key) ensures k == Some(key) {
        KeyUnique(w, keys, s.sig, key, key);
        if k.Some? { KeyUnique(w, keys, s.sig, key, k.value); }
      }
      if k.Some? { KeyUnique(w, keys, s.sig, k.value, k.value); }
    }
  }

  // ---- answers ----

  ghost predicate NonePasses(w: World, qname: Text, rrs: seq<RR>, sigs: seq<OwnedSig>) {
    forall s :: s in sigs ==> !Passes(w, qname, rrs, s)
  }

  ghost predicate SomeBreaks(w: World, qname: Text, rrs: seq<RR>, sigs: seq<OwnedSig>) {
    exists s :: s in sigs && Breaks(w, qname, rrs, s)
  }

  ghost predicate NoneAccepted(w: World, sigs: seq<OwnedSig>) {
    forall s :: s in sigs ==> !AlgorithmAccepted(w, s.sig.algorithm)
  }

  /** The first signature in the order of the section that passes has this trust. */
  ghost predicate FirstTrust(w: World, qname: Text, rrs: seq<RR>, sigs: seq<OwnedSig>, v: Validation) {
    exists i :: 0 <= i < |sigs| && Passes(w, qname, rrs, sigs[i]) && TrustOf(w, Zone(sigs[i])) == v
                && forall j :: 0 <= j < i ==> !Passes(w, qname, rrs, sigs[j])
  }

  lemma FatesOf(w: World, qname: Text, rrs: seq<RR>, sigs: seq<OwnedSig>)
    ensures var os := Outcomes(w, qname, rrs, sigs);
            && ((forall o :: o in os ==> !o.Verified?) <==> NonePasses(w, qname, rrs, sigs))
            && ((forall o :: o in os ==> o == Skipped) <==> NoneAccepted(w, sigs))
            && (Failed in os <==> SomeBreaks(w, qname, rrs, sigs))
            && (NoKey in os <==> exists s :: s in sigs && Keyless(w, qname, rrs, s))
  {
    hide Classify, Passes, Breaks, Keyless, AlgorithmAccepted;
    var os := Outcomes(w, qname, rrs, sigs);
    forall s ensures var o := Classify(w, qname, rrs, s);
      && (o == Skipped <==> !AlgorithmAccepted(w, s.sig.algorithm)) && (o == Failed <==> Breaks(w, qname, rrs, s))
      && (o == NoKey <==> Keyless(w, qname, rrs, s)) && (o.Verified? <==> Passes(w, qname, rrs, s))
    {
      ClassifyIs(w, qname, rrs, s);
    }
    forall o ensures o in os <==> exists s :: s in sigs && Classify(w, qname, rrs, s) == o {
      OutcomeIn(w, qname, rrs, sigs, o);
    }
    forall s | s in sigs ensures Classify(w, qname, rrs, s) in os {}
  }

  /** The verdict on an answer. If a signature passes, the trust of the first one's zone decides.
      Otherwise the answer is Insecure if no signature has an accepted algorithm, Bogus if one of
      them breaks, and Indeterminate in what is left. */
  lemma AnswerVerdictIs(w: World, qname: Text, answers: seq<RR>)
    ensures var sigs, rrs := Sigs(answers), Others(answers);
            var v := PositiveVerdict(w, qname, answers);
            && (v == Secure <==> FirstTrust(w, qname, rrs, sigs, Secure))
            && (v == Insecure <==> NoneAccepted(w, sigs) || FirstTrust(w, qname, rrs, sigs, Insecure))
            && (v == Bogus <==> || (NonePasses(w, qname, rrs, sigs) && SomeBreaks(w, qname, rrs, sigs))
                                || FirstTrust(w, qname, rrs, sigs, Bogus))
            && (v == Indeterminate <==>
                  || (&& NonePasses(w, qname, rrs, sigs) && !SomeBreaks(w, qname, rrs, sigs)
                      && !NoneAccepted(w, sigs))
                  || FirstTrust(w, qname, rrs, sigs, Indeterminate))
  {
    hide Passes, TrustOf, Sigs, Others, NoneAccepted, SomeBreaks, PositiveVerdict, NonePasses, FirstTrust;
    var sigs, rrs := Sigs(answers), Others(answers);
    NoneAcceptedPass(w, qname, rrs, sigs);
    FirstTrustIs(w, qname, rrs, sigs);
    if NonePasses(w, qname, rrs, sigs) {
      NoneIs(w, qname, answers);
    } else {
      SomeIs(w, qname, answers);
    }
  }

  /** At most one trust is that of the first that passes, and there is one if any passes. */
  lemma FirstTrustIs(w: World, qname: Text, rrs: seq<RR>, sigs: seq<OwnedSig>)
    ensures forall v :: FirstTrust(w, qname, rrs, sigs, v) ==> !NonePasses(w, qname, rrs, sigs)
    ensures forall u, v :: FirstTrust(w, qname, rrs, sigs, u) && FirstTrust(w, qname, rrs, sigs, v) ==> u == v
  {
    hide Passes, TrustOf;
    forall v | FirstTrust(w, qname, rrs, sigs, v) ensures !NonePasses(w, qname, rrs, sigs) {
      var i :| 0 <= i < |sigs| && Passes(w, qname, rrs, sigs[i]) && TrustOf(w, Zone(sigs[i])) == v
               && forall j :: 0 <= j < i ==> !Passes(w, qname, rrs, sigs[j]);
      assert sigs[i] in sigs;
    }
  }

  lemma OutcomeAt(w: World, qname: Text, rrs: seq<RR>, sigs: seq<OwnedSig>, i: nat)
    requires i < |sigs|
    ensures var o := Outcomes(w, qname, rrs, sigs)[i];
            (o.Verified? <==> Passes(w, qname, rrs, sigs[i])) && (o.Verified? ==> o.zone == Zone(sigs[i]))
  {
    hide Classify, Passes;
    ClassifyIs(w, qname, rrs, sigs[i]);
  }

  lemma SomeIs(w: World, qname: Text, answers: seq<RR>)
    requires !NonePasses(w, qname, Others(answers), Sigs(answers))
    ensures FirstTrust(w, qname, Others(answers), Sigs(answers), PositiveVerdict(w, qname, answers))
  {
    hide Classify, Passes, TrustOf, Sigs, Others;
    var sigs, rrs := Sigs(answers), Others(answers);
    var os := Outcomes(w, qname, rrs, sigs);
    forall i | 0 <= i < |sigs|
      ensures (os[i].Verified? <==> Passes(w, qname, rrs, sigs[i])) && (os[i].Verified? ==> os[i].zone == Zone(sigs[i]))
    {
      OutcomeAt(w, qname, rrs, sigs, i);
    }
    var s :| s in sigs && Passes(w, qname, rrs, s);
    var k :| 0 <= k < |sigs| && sigs[k] == s;
    assert os[k].Verified?;
    var i := FirstVerified(os);
    assert i < |os| && PositiveVerdict(w, qname, answers) == TrustOf(w, os[i].zone);
  }

  lemma NoneIs(w: World, qname: Text, answers: seq<RR>)
    requires NonePasses(w, qname, Others(answers), Sigs(answers))
    ensures PositiveVerdict(w, qname, answers)
         == if NoneAccepted(w, Sigs(answers)) then Insecure
            else if SomeBreaks(w, qname, Others(answers), Sigs(answers)) then Bogus else Indeterminate
  {
    hide Classify, Passes, Breaks, TrustOf, Sigs, Others, NoneAccepted, SomeBreaks;
    var sigs, rrs := Sigs(answers), Others(answers);
    var os := Outcomes(w, qname, rrs, sigs);
    FatesOf(w, qname, rrs, sigs);
    var i := FirstVerified(os);
    FirstIsOne(os);
  }

  lemma FirstIsOne(os: seq<Outcome>)
    ensures FirstVerified(os) < |os| ==> exists o :: o in os && o.Verified?
  {
    var i := FirstVerified(os);
    assert i < |os| ==> os[i] in os;
  }

  lemma NoneAcceptedPass(w: World, qname: Text, rrs: seq<RR>, sigs: seq<OwnedSig>)
    ensures NoneAccepted(w, sigs) ==> NonePasses(w, qname, rrs, sigs) && !SomeBreaks(w, qname, rrs, sigs)
  {}

  // ---- denials ----

  /** The signatures over NSEC (47), NSEC3 (50) and SOA (6). */
  ghost predicate OverDenial(authority: seq<RR>, s: OwnedSig) {
    s in Sigs(authority) && s.sig.typeCovered in {6, 47, 50}
  }

  lemma {:induction false} RelevantIs(sigs: seq<OwnedSig>, s: OwnedSig)
    ensures s in DV.RelevantSigs(sigs) <==> s in sigs && s.sig.typeCovered in {6, 47, 50}
  {
    if sigs != [] {
      RelevantIs(sigs[1..], s);
      assert s in sigs <==> s == sigs[0] || s in sigs[1..];
    }
  }

  /** The verdict on a denial over which no signature passes: Insecure if none has an accepted
      algorithm, Indeterminate if none breaks and one lacks its key, and Bogus otherwise. */
  lemma UnsignedDenialIs(w: World, qname: Text, qtype: u16, rcode: byte, authority: seq<RR>)
    requires forall s :: OverDenial(authority, s) ==> !Passes(w, qname, authority, s)
    ensures var v := DV.DenialVerdictOf(w, qname, qtype, rcode, authority);
            && (v == Insecure <==> forall s :: OverDenial(authority, s) ==> !AlgorithmAccepted(w, s.sig.algorithm))
            && (v == Indeterminate <==>
                  && (forall s :: OverDenial(authority, s) ==> !Breaks(w, qname, authority, s))
                  && (exists s :: OverDenial(authority, s) && Keyless(w, qname, authority, s)))
            && v != Secure
  {
    hide Classify, Passes, Breaks, Keyless, Sigs, AlgorithmAccepted, DV.RelevantSigs, DV.Proofs;
    var sigs := DV.RelevantSigs(Sigs(authority));
    forall s ensures s in sigs <==> OverDenial(authority, s) { RelevantIs(Sigs(authority), s); }
    FatesOf(w, qname, authority, sigs);
    KeylessAccepted(w, qname, authority);
    if Sigs(authority) == [] { assert forall s :: !OverDenial(authority, s); }
  }

  lemma KeylessAccepted(w: World, qname: Text, rrs: seq<RR>)
    ensures forall s :: Keyless(w, qname, rrs, s) ==> AlgorithmAccepted(w, s.sig.algorithm)
  {}

  /** With a signature that passes, an error of the NSEC3 check makes a denial Indeterminate, its
      acceptance or that of the NSEC check makes it Secure, and otherwise it is Bogus. */
  lemma SignedDenialIs(w: World, qname: Text, qtype: u16, rcode: byte, authority: seq<RR>)
    returns (nsec3s: seq<Nsec3.Nsec3Record>, nsecs: seq<Nsec.NsecRecord>)
    requires exists s :: OverDenial(authority, s) && Passes(w, qname, authority, s)
    ensures forall n :: n in nsec3s <==> DV.AuthenticNsec3(w, qname, authority, n)
    ensures forall n :: n in nsecs <==> DV.AuthenticNsec(w, qname, authority, n)
    ensures var v, h := DV.DenialVerdictOf(w, qname, qtype, rcode, authority),
                        Nsec3.VerifyNSEC3DenialFull(w.hash, qname, nsec3s);
            && (v == Indeterminate <==> h.Failed?)
            && (v == Secure <==> h == Nsec3.Verdict(true)
                                 || (!h.Failed? && Nsec.VerifyNSECDenial(qname, qtype, rcode, nsecs) == Some(true)))
            && v != Insecure
  {
    hide Classify, Passes, Sigs, DV.RelevantSigs, DV.DenialVerdictOf, DV.AuthenticNsec, DV.AuthenticNsec3,
      Nsec3.VerifyNSEC3DenialFull, Nsec.VerifyNSECDenial;
    var s :| OverDenial(authority, s) && Passes(w, qname, authority, s);
    RelevantIs(Sigs(authority), s);
    ClassifyIs(w, qname, authority, s);
    assert DV.SomeVerified(w, qname, authority);
    nsec3s, nsecs := DV.DenialRecords(w, qname, qtype, rcode, authority);
  }

  // ---- an example ----

  /** A signature that its key rejects makes the answer Bogus. */
  lemma ForgedAnswerIsBogus()
    ensures var w := SimpleWorld([Ds(0, 13, 2, [])], rr => None).(signed := (data, sig, key, alg) => false);
            PositiveVerdict(w, [97], SignedSection(16)) == Bogus
  {
    hide Classify, TrustOf, RRsetOf, Sigs, Others, SignedSection, BuildSignedData, PositiveVerdict;
    var w := SimpleWorld([Ds(0, 13, 2, [])], rr => None).(signed := (data, sig, key, alg) => false);
    var section, s := SignedSection(16), SigFor(16);
    SampleSigs(16);
    SectionFirst(16);
    SampleRRset(16, [section[0]]);
    AnswerVerdictIs(w, [97], section);
    var key := DnsKey(257, 3, 13, []);
    var keys := [key];
    assert w.keys(Zone(s)) == Some(keys) && keys[0] == key && Fits(w, key, s.sig);
    assert IsKey(w, keys, s.sig, key) && !Holds(w, Others(section), s, key);
    assert s in Sigs(section) && Breaks(w, [97], Others(section), s);
  }
}
