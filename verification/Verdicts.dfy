/** What the verdict on a positive answer depends on, and what Secure means. */
module Verdicts {
  import opened Bytes
  import opened Labels
  import opened NameWire
  import opened Records
  import opened SignedData
  import opened TrustChain
  import opened Validator
  import Nsec
  import Nsec3

  // ---- sections as multisets ----

  lemma {:induction false} MatchingCount(rrs: seq<RR>, rtype: u16, owner: Option<Text>, x: RR)
    ensures multiset(Matching(rrs, rtype, owner))[x] == if Matches(x, rtype, owner) then multiset(rrs)[x] else 0
  {
    hide Matches;
    if rrs != [] {
      MatchingCount(rrs[1..], rtype, owner, x);
      assert rrs == [rrs[0]] + rrs[1..];
    }
  }

  lemma {:induction false} OthersCount(rrs: seq<RR>, x: RR)
    ensures multiset(Others(rrs))[x] == if NotSig(x) then multiset(rrs)[x] else 0
  {
    hide NotSig;
    if rrs != [] {
      OthersCount(rrs[1..], x);
      assert rrs == [rrs[0]] + rrs[1..];
    }
  }

  lemma {:induction false} SigsFrom(rrs: seq<RR>, s: OwnedSig)
    ensures s in Sigs(rrs) <==> exists i :: 0 <= i < |rrs| && SigOf(rrs[i]) == Some(s)
  {
    hide SigOf;
    if rrs != [] {
      SigsFrom(rrs[1..], s);
      if exists i :: 0 <= i < |rrs| && SigOf(rrs[i]) == Some(s) {
        var i :| 0 <= i < |rrs| && SigOf(rrs[i]) == Some(s);
        if i > 0 { assert rrs[1..][i - 1] == rrs[i]; }
      }
    }
  }

  lemma MatchingPermuted(a: seq<RR>, b: seq<RR>, rtype: u16, owner: Option<Text>)
    requires multiset(a) == multiset(b)
    ensures multiset(Matching(a, rtype, owner)) == multiset(Matching(b, rtype, owner))
  {
    hide Matching, Matches;
    forall x ensures multiset(Matching(a, rtype, owner))[x] == multiset(Matching(b, rtype, owner))[x] {
      MatchingCount(a, rtype, owner, x);
      MatchingCount(b, rtype, owner, x);
    }
  }

  lemma SameElements<T>(a: seq<T>, b: seq<T>)
    requires multiset(a) == multiset(b)
    ensures |a| == |b| && forall x :: x in a <==> x in b
  {
    assert |multiset(a)| == |a| && |multiset(b)| == |b|;
    assert forall x :: x in a <==> x in multiset(a);
    assert forall x :: x in b <==> x in multiset(b);
  }

  lemma OneOwnerPermuted(a: seq<RR>, b: seq<RR>)
    requires multiset(a) == multiset(b) && OneOwner(a)
    ensures OneOwner(b)
  {
    hide Nsec.CanonicalName;
    SameElements(a, b);
    forall i | 0 <= i < |b| ensures Nsec.CanonicalName(b[i].name) == Nsec.CanonicalName(a[0].name) {
      assert b[i] in a;
    }
  }

  /** The RRset of a signature is the same records in whatever order the section has them. */
  lemma RRsetPermuted(a: seq<RR>, b: seq<RR>, rtype: u16, owner: Text)
    requires multiset(a) == multiset(b)
    ensures multiset(RRsetOf(a, rtype, owner)) == multiset(RRsetOf(b, rtype, owner))
  {
    hide Matching, OneOwner;
    var name := Some(Nsec.CanonicalName(owner));
    MatchingPermuted(a, b, rtype, name);
    MatchingPermuted(a, b, rtype, None);
    SameElements(Matching(a, rtype, name), Matching(b, rtype, name));
    if OneOwner(Matching(a, rtype, None)) { OneOwnerPermuted(Matching(a, rtype, None), Matching(b, rtype, None)); }
    if OneOwner(Matching(b, rtype, None)) { OneOwnerPermuted(Matching(b, rtype, None), Matching(a, rtype, None)); }
  }

  /** One signature fares the same: the signed data is a canonical form of the RRset. */
  lemma ClassifyPermuted(w: World, qname: Text, a: seq<RR>, b: seq<RR>, s: OwnedSig)
    requires multiset(a) == multiset(b)
    ensures Classify(w, qname, a, s) == Classify(w, qname, b, s)
  {
    hide RRsetOf, MatchingKey, BuildSignedData, InBailiwick;
    var ra, rb := RRsetOf(a, s.sig.typeCovered, s.owner), RRsetOf(b, s.sig.typeCovered, s.owner);
    RRsetPermuted(a, b, s.sig.typeCovered, s.owner);
    SameElements(ra, rb);
    PermutedSignedData(ra, rb, s.sig);
  }

  // ---- outcomes ----

  /** All signatures that verify lead to the same trust verdict. */
  ghost predicate Agree(w: World, os: seq<Outcome>) {
    forall i, j :: 0 <= i < |os| && 0 <= j < |os| && os[i].Verified? && os[j].Verified? ==>
      TrustOf(w, os[i].zone) == TrustOf(w, os[j].zone)
  }

  lemma JudgeVerified(w: World, os: seq<Outcome>, o: Outcome)
    requires Agree(w, os) && o in os && o.Verified?
    ensures Judge(w, os) == TrustOf(w, o.zone)
  {
    hide TrustOf, FirstVerified;
    var j :| 0 <= j < |os| && os[j] == o;
  }

  lemma NoneVerified(os: seq<Outcome>)
    ensures FirstVerified(os) == |os| <==> forall o :: o in os ==> !o.Verified?
  {
    hide FirstVerified;
    var i := FirstVerified(os);
    if i < |os| { assert os[i] in os; }
  }

  /** The verdict is a function of the set of outcomes; once one verifies, of those that do. */
  lemma JudgeBySet(w: World, a: seq<Outcome>, b: seq<Outcome>)
    requires Agree(w, a) && Agree(w, b)
    requires forall o: Outcome :: o.Verified? ==> (o in a <==> o in b)
    requires (exists o :: o in a && o.Verified?) || forall o :: o in a <==> o in b
    ensures Judge(w, a) == Judge(w, b)
  {
    hide TrustOf, FirstVerified, Agree;
    if exists o :: o in a && o.Verified? {
      var o :| o in a && o.Verified?;
      JudgeVerified(w, a, o);
      JudgeVerified(w, b, o);
    } else {
      NoneVerified(a);
      NoneVerified(b);
    }
  }

  lemma MovedToFront(w: World, os: seq<Outcome>, i: nat) returns (p: seq<Outcome>)
    requires i < |os| && os[i].Verified?
    ensures multiset(p) == multiset(os) && Judge(w, p) == TrustOf(w, os[i].zone)
  {
    hide TrustOf;
    p := [os[i]] + (os[..i] + os[i + 1..]);
    assert os == os[..i] + ([os[i]] + os[i + 1..]);
  }

  /** Reordering the signatures never changes the verdict exactly when those that verify agree. */
  lemma ReorderingIff(w: World, os: seq<Outcome>)
    ensures (forall p :: multiset(p) == multiset(os) ==> Judge(w, p) == Judge(w, os)) <==> Agree(w, os)
  {
    hide TrustOf, Judge;
    if Agree(w, os) {
      forall p | multiset(p) == multiset(os) ensures Judge(w, p) == Judge(w, os) {
        SameElements(p, os);
        forall i | 0 <= i < |p| ensures exists k :: 0 <= k < |os| && os[k] == p[i] { assert p[i] in os; }
        assert Agree(w, p);
        JudgeBySet(w, p, os);
      }
    } else {
      var i, j :| 0 <= i < |os| && 0 <= j < |os| && os[i].Verified? && os[j].Verified?
                  && TrustOf(w, os[i].zone) != TrustOf(w, os[j].zone);
      var p := MovedToFront(w, os, i);
      var q := MovedToFront(w, os, j);
      assert Judge(w, p) != Judge(w, q);
    }
  }

  // ---- answers ----

  ghost predicate Verifies(w: World, qname: Text, answers: seq<RR>, s: OwnedSig) {
    s in Sigs(answers) && Classify(w, qname, Others(answers), s).Verified?
  }

  /** All signatures of the section that verify name one signer zone. */
  ghost predicate OneSigner(w: World, qname: Text, answers: seq<RR>) {
    forall s, t :: Verifies(w, qname, answers, s) && Verifies(w, qname, answers, t) ==>
      Nsec3.Dotted(s.sig.signer) == Nsec3.Dotted(t.sig.signer)
  }

  lemma OneSignerCarries(w: World, qname: Text, a: seq<RR>, b: seq<RR>)
    requires OneSigner(w, qname, a) && forall s :: Verifies(w, qname, b, s) ==> Verifies(w, qname, a, s)
    ensures OneSigner(w, qname, b)
  {
    hide Verifies, Nsec3.Dotted;
  }

  lemma ClassifyZone(w: World, qname: Text, rrs: seq<RR>, s: OwnedSig)
    ensures var o := Classify(w, qname, rrs, s);
            o.Verified? ==> o.zone == Nsec3.Dotted(s.sig.signer)
  {
    hide RRsetOf, MatchingKey, BuildSignedData, InBailiwick, Nsec3.Dotted;
  }

  lemma OneSignerAgrees(w: World, qname: Text, answers: seq<RR>)
    requires OneSigner(w, qname, answers)
    ensures Agree(w, Outcomes(w, qname, Others(answers), Sigs(answers)))
  {
    hide Classify, TrustOf, Others, Sigs, Nsec3.Dotted;
    var sigs := Sigs(answers);
    var os := Outcomes(w, qname, Others(answers), sigs);
    forall i, j | 0 <= i < |os| && 0 <= j < |os| && os[i].Verified? && os[j].Verified?
      ensures TrustOf(w, os[i].zone) == TrustOf(w, os[j].zone)
    {
      assert Verifies(w, qname, answers, sigs[i]) && Verifies(w, qname, answers, sigs[j]);
      ClassifyZone(w, qname, Others(answers), sigs[i]);
      ClassifyZone(w, qname, Others(answers), sigs[j]);
    }
  }

  lemma OutcomeIn(w: World, qname: Text, rrs: seq<RR>, sigs: seq<OwnedSig>, o: Outcome)
    ensures o in Outcomes(w, qname, rrs, sigs) <==> exists s :: s in sigs && Classify(w, qname, rrs, s) == o
  {
    hide Classify;
    var os := Outcomes(w, qname, rrs, sigs);
    if o in os {
      var i :| 0 <= i < |os| && os[i] == o;
      assert sigs[i] in sigs;
    }
    if exists s :: s in sigs && Classify(w, qname, rrs, s) == o {
      var s :| s in sigs && Classify(w, qname, rrs, s) == o;
      var i :| 0 <= i < |sigs| && sigs[i] == s;
      assert os[i] == o;
    }
  }

  ghost function OutcomesOf(w: World, qname: Text, answers: seq<RR>): seq<Outcome> {
    Outcomes(w, qname, Others(answers), Sigs(answers))
  }

  lemma OutcomesCarry(w: World, qname: Text, a: seq<RR>, b: seq<RR>, o: Outcome)
    requires multiset(Others(a)) == multiset(Others(b)) && o in OutcomesOf(w, qname, a)
    requires if o.Verified? then forall s :: Verifies(w, qname, a, s) ==> Verifies(w, qname, b, s)
             else forall s :: s in Sigs(a) ==> s in Sigs(b)
    ensures o in OutcomesOf(w, qname, b)
  {
    hide Classify, Others, Sigs;
    OutcomeIn(w, qname, Others(a), Sigs(a), o);
    var s :| s in Sigs(a) && Classify(w, qname, Others(a), s) == o;
    if o.Verified? { assert Verifies(w, qname, a, s); }
    ClassifyPermuted(w, qname, Others(a), Others(b), s);
    OutcomeIn(w, qname, Others(b), Sigs(b), o);
  }

  lemma VerifiedIn(w: World, qname: Text, answers: seq<RR>, s: OwnedSig)
    requires Verifies(w, qname, answers, s)
    ensures exists o :: o in OutcomesOf(w, qname, answers) && o.Verified?
  {
    hide Classify, Others, Sigs;
    OutcomeIn(w, qname, Others(answers), Sigs(answers), Classify(w, qname, Others(answers), s));
  }

  /** The verdict does not change when the records and signatures of the answer are reordered,
      nor when failing signatures are added, as long as the signatures that verify are the same
      and name one zone; without any that verifies, the signatures must be the same. */
  lemma VerdictStable(w: World, qname: Text, a: seq<RR>, b: seq<RR>)
    requires multiset(Others(a)) == multiset(Others(b))
    requires OneSigner(w, qname, a)
    requires forall s :: Verifies(w, qname, a, s) <==> Verifies(w, qname, b, s)
    requires (exists s :: Verifies(w, qname, a, s)) || forall s :: s in Sigs(a) <==> s in Sigs(b)
    ensures PositiveVerdict(w, qname, a) == PositiveVerdict(w, qname, b)
  {
    hide Classify, TrustOf, Others, Sigs, OneSigner, Judge, Agree, Verifies;
    var oa, ob := OutcomesOf(w, qname, a), OutcomesOf(w, qname, b);
    OneSignerAgrees(w, qname, a);
    OneSignerCarries(w, qname, a, b);
    OneSignerAgrees(w, qname, b);
    forall o: Outcome | o.Verified? || forall s :: s in Sigs(a) <==> s in Sigs(b) ensures o in oa <==> o in ob {
      if o in oa { OutcomesCarry(w, qname, a, b, o); }
      if o in ob { OutcomesCarry(w, qname, b, a, o); }
    }
    if exists s :: Verifies(w, qname, a, s) {
      var s :| Verifies(w, qname, a, s);
      VerifiedIn(w, qname, a, s);
      VerifiedIn(w, qname, b, s);
    }
    JudgeBySet(w, oa, ob);
    if Sigs(a) != [] { assert Sigs(a)[0] in Sigs(a); }
    if Sigs(b) != [] { assert Sigs(b)[0] in Sigs(b); }
  }

  /** Any reordering of a whole answer section leaves the verdict alone if its signatures that
      verify name one zone. */
  lemma ReorderedAnswer(w: World, qname: Text, a: seq<RR>, b: seq<RR>)
    requires multiset(a) == multiset(b) && OneSigner(w, qname, a)
    ensures PositiveVerdict(w, qname, a) == PositiveVerdict(w, qname, b)
  {
    hide Classify, Others, Sigs, PositiveVerdict, SigOf;
    SameElements(a, b);
    forall x ensures multiset(Others(a))[x] == multiset(Others(b))[x] {
      OthersCount(a, x);
      OthersCount(b, x);
    }
    assert multiset(Others(a)) == multiset(Others(b));
    forall s ensures s in Sigs(a) <==> s in Sigs(b) {
      if s in Sigs(a) { SigsReordered(a, b, s); }
      if s in Sigs(b) { SigsReordered(b, a, s); }
    }
    forall s ensures Verifies(w, qname, a, s) <==> Verifies(w, qname, b, s) {
      ClassifyPermuted(w, qname, Others(a), Others(b), s);
    }
    VerdictStable(w, qname, a, b);
  }

  lemma SigsReordered(a: seq<RR>, b: seq<RR>, s: OwnedSig)
    requires (forall x :: x in a ==> x in b) && s in Sigs(a)
    ensures s in Sigs(b)
  {
    hide SigOf, Sigs;
    SigsFrom(a, s);
    SigsFrom(b, s);
    var i :| 0 <= i < |a| && SigOf(a[i]) == Some(s);
    assert a[i] in b;
  }

  /** A Secure answer has a signature, timely and by an accepted algorithm, of a zone at or above
      the name, that verifies with a fetched key of that zone over records of the answer; and the
      zone itself is trusted. */
  lemma SecureAnswer(w: World, qname: Text, answers: seq<RR>) returns (s: OwnedSig, key: DnsKey)
    requires PositiveVerdict(w, qname, answers) == Secure
    ensures s in Sigs(answers) && !Refused(w, s.sig.algorithm) && InTime(w, s.sig)
    ensures LabelSuffix(Nsec.CanonicalLabels(qname), Nsec.CanonicalLabels(s.sig.signer))
    ensures var zone := Nsec3.Dotted(s.sig.signer);
            && TrustOf(w, zone) == Secure
            && w.keys(zone).Some? && key in w.keys(zone).value
            && w.tag(key) == s.sig.keyTag && key.algorithm == s.sig.algorithm
    ensures var rrset := RRsetOf(Others(answers), s.sig.typeCovered, s.owner);
            && VerifyRRSIG(w, rrset, s.sig, key)
            && forall rr :: rr in rrset ==> rr in answers && rr.rtype == s.sig.typeCovered
  {
    hide Classify, TrustOf, Others, Sigs, RRsetOf, BuildSignedData, Nsec3.Dotted, Nsec.CanonicalLabels;
    var sigs := Sigs(answers);
    var os := Outcomes(w, qname, Others(answers), sigs);
    s := sigs[FirstVerified(os)];
    key := VerifiedMeans(w, qname, Others(answers), s);
    forall rr | rr in RRsetOf(Others(answers), s.sig.typeCovered, s.owner)
      ensures rr in answers && rr.rtype == s.sig.typeCovered
    {
      RRsetWithin(Others(answers), s.sig.typeCovered, s.owner, rr);
      OthersCount(answers, rr);
    }
  }

  /** The zone of the signature that decides a Secure verdict is trusted. */
  lemma SecureSigner(w: World, qname: Text, answers: seq<RR>) returns (s: OwnedSig)
    requires PositiveVerdict(w, qname, answers) == Secure
    ensures Verifies(w, qname, answers, s) && TrustOf(w, Nsec3.Dotted(s.sig.signer)) == Secure
  {
    hide Classify, TrustOf, Others, Sigs, Nsec3.Dotted;
    var sigs := Sigs(answers);
    var os := Outcomes(w, qname, Others(answers), sigs);
    s := sigs[FirstVerified(os)];
    ClassifyZone(w, qname, Others(answers), s);
  }

  lemma VerifiedMeans(w: World, qname: Text, rrs: seq<RR>, s: OwnedSig) returns (key: DnsKey)
    requires Classify(w, qname, rrs, s).Verified?
    ensures Classify(w, qname, rrs, s).zone == Nsec3.Dotted(s.sig.signer)
    ensures !Refused(w, s.sig.algorithm) && InTime(w, s.sig)
    ensures LabelSuffix(Nsec.CanonicalLabels(qname), Nsec.CanonicalLabels(s.sig.signer))
    ensures var zone := Nsec3.Dotted(s.sig.signer);
            && w.keys(zone).Some? && key in w.keys(zone).value
            && w.tag(key) == s.sig.keyTag && key.algorithm == s.sig.algorithm
            && VerifyRRSIG(w, RRsetOf(rrs, s.sig.typeCovered, s.owner), s.sig, key)
  {
    hide RRsetOf, MatchingKey, BuildSignedData, InBailiwick, Nsec3.Dotted, Nsec.CanonicalLabels;
    var zone := Nsec3.Dotted(s.sig.signer);
    var keys := w.keys(zone).value;
    KeyMatches(w, keys, s.sig);
    key := MatchingKey(w, keys, s.sig).value;
    InBailiwickIsAncestor(qname, zone);
    DottedLabels(s.sig.signer);
  }

  lemma DottedLabels(name: Text)
    ensures Nsec.CanonicalLabels(Nsec3.Dotted(name)) == Nsec.CanonicalLabels(name)
  {
    hide Split;
    DottedText(name);
    assert TrimDot(TrimDot(name) + [DOT]) == TrimDot(name);
  }

  lemma {:induction false} KeyMatches(w: World, keys: seq<DnsKey>, sig: Rrsig)
    ensures var k := MatchingKey(w, keys, sig);
            k.Some? ==> k.value in keys && w.tag(k.value) == sig.keyTag && k.value.algorithm == sig.algorithm
  {
    if keys != [] { KeyMatches(w, keys[1..], sig); }
  }

  lemma RRsetWithin(rrs: seq<RR>, rtype: u16, owner: Text, rr: RR)
    requires rr in RRsetOf(rrs, rtype, owner)
    ensures rr in multiset(rrs) && rr.rtype == rtype
  {
    hide Matching, OneOwner, Nsec.CanonicalName;
    MatchingCount(rrs, rtype, Some(Nsec.CanonicalName(owner)), rr);
    MatchingCount(rrs, rtype, None, rr);
  }

  // ---- records that no signature covers ----

  lemma {:induction false} MatchingAppend(rrs: seq<RR>, rr: RR, rtype: u16, owner: Option<Text>)
    requires rr.rtype != rtype
    ensures Matching(rrs + [rr], rtype, owner) == Matching(rrs, rtype, owner)
  {
    hide Nsec.CanonicalName;
    if rrs == [] {
      assert [] + [rr] == [rr] && [rr][1..] == [];
    } else {
      assert (rrs + [rr])[1..] == rrs[1..] + [rr];
      MatchingAppend(rrs[1..], rr, rtype, owner);
    }
  }

  lemma SectionAppend(rrs: seq<RR>, rr: RR)
    requires NotSig(rr)
    ensures Others(rrs + [rr]) == Others(rrs) + [rr] && Sigs(rrs + [rr]) == Sigs(rrs)
  {
    OthersAppend(rrs, rr);
    SigsAppend(rrs, rr);
  }

  lemma {:induction false} OthersAppend(rrs: seq<RR>, rr: RR)
    requires NotSig(rr)
    ensures Others(rrs + [rr]) == Others(rrs) + [rr]
  {
    hide NotSig;
    var all := rrs + [rr];
    if rrs == [] {
      assert all == [rr] && all[1..] == [];
    } else {
      assert all[0] == rrs[0] && all[1..] == rrs[1..] + [rr];
      OthersAppend(rrs[1..], rr);
      var first, tail := if NotSig(rrs[0]) then [rrs[0]] else [], Others(rrs[1..]);
      assert first + (tail + [rr]) == (first + tail) + [rr];
    }
  }

  lemma {:induction false} SigsAppend(rrs: seq<RR>, rr: RR)
    requires SigOf(rr) == None
    ensures Sigs(rrs + [rr]) == Sigs(rrs)
  {
    hide SigOf;
    var all := rrs + [rr];
    if rrs == [] {
      assert all == [rr] && all[1..] == [];
    } else {
      assert all[0] == rrs[0] && all[1..] == rrs[1..] + [rr];
      SigsAppend(rrs[1..], rr);
    }
  }

  lemma ClassifyAppend(w: World, qname: Text, rrs: seq<RR>, rr: RR, s: OwnedSig)
    requires rr.rtype != s.sig.typeCovered
    ensures Classify(w, qname, rrs + [rr], s) == Classify(w, qname, rrs, s)
  {
    hide MatchingKey, BuildSignedData, InBailiwick, Matching, OneOwner, Nsec.CanonicalName;
    MatchingAppend(rrs, rr, s.sig.typeCovered, Some(Nsec.CanonicalName(s.owner)));
    MatchingAppend(rrs, rr, s.sig.typeCovered, None);
  }

  /** A record of a type that no signature of the section covers does not change the verdict, be
      it of the type that was asked for: Secure does not mean that every RRset is signed. */
  lemma UncoveredIgnored(w: World, qname: Text, answers: seq<RR>, rr: RR)
    requires NotSig(rr) && forall s :: s in Sigs(answers) ==> s.sig.typeCovered != rr.rtype
    ensures PositiveVerdict(w, qname, answers + [rr]) == PositiveVerdict(w, qname, answers)
  {
    hide Classify, Judge, Others, Sigs;
    SectionAppend(answers, rr);
    var sigs := Sigs(answers);
    forall i | 0 <= i < |sigs|
      ensures Classify(w, qname, Others(answers) + [rr], sigs[i]) == Classify(w, qname, Others(answers), sigs[i])
    {
      assert sigs[i] in sigs;
      ClassifyAppend(w, qname, Others(answers), rr, sigs[i]);
    }
    assert Outcomes(w, qname, Others(answers) + [rr], sigs) == Outcomes(w, qname, Others(answers), sigs);
  }

  // ---- an example ----

  /** RRSIG RDATA over records of type t: algorithm 13, valid from 0 to 1000, key tag 0, signed by
      the root. */
  function SignatureFor(t: byte): Text {
    [0, t, 13, 1, 0, 0, 0, 0, 0, 0, 3, 232, 0, 0, 0, 0, 0, 0, 0, 1]
  }

  function SigFor(t: byte): OwnedSig {
    OwnedSig(Rrsig(t, 13, 1, 0, 1000, 0, 0, [], [1]), [97])
  }

  lemma SampleParses(t: byte)
    ensures ParseRRSIG(SignatureFor(t)) == Some(SigFor(t).sig)
  {
    var d := SignatureFor(t);
    RootAt(d, 18);
    assert d[19..] == [1];
  }

  lemma RootAt(d: Text, off: nat)
    requires off < |d| && d[off] == 0
    ensures DecodeName(d, off) == Ok(([], off + 1))
  {}

  /** A section of one record of type t at "a" and its signature. */
  function SignedSection(t: byte): seq<RR> {
    [RR([97], t, 1, 0, 0, []), RR([97], TYPE_RRSIG, 1, 0, 20, SignatureFor(t))]
  }

  lemma SampleSigs(t: byte)
    requires t != TYPE_RRSIG
    ensures Sigs(SignedSection(t)) == [SigFor(t)] && Others(SignedSection(t)) == [SignedSection(t)[0]]
  {
    hide ParseRRSIG;
    SampleParses(t);
    var all := SignedSection(t);
    var rest: seq<RR> := all[1..];
    assert rest == [all[1]] && rest[1..] == [];
    assert SigOf(all[1]) == Some(SigFor(t)) && SigOf(all[0]) == None;
    assert Sigs(rest[1..]) == [] && Others(rest[1..]) == [];
    assert Sigs(rest) == [SigFor(t)] + [] && Others(rest) == [] + [];
    assert Sigs(all) == [] + Sigs(rest) && Others(all) == [all[0]] + Others(rest);
  }

  /** A world in which every signature holds, every zone has the same key, and nothing else. */
  function SimpleWorld(anchors: seq<Ds>, nsec: RR -> Option<Nsec.NsecRecord>): World {
    World(z => Some([DnsKey(257, 3, 13, [])]), z => Some([]), nsec, rr => None, k => 0, (k, d, z) => true, t => t,
          (data, sig, key, alg) => true, anchors, false, 0)
  }

  lemma SampleVerifies(t: byte, w: World, rrs: seq<RR>)
    requires w == SimpleWorld(w.anchors, w.nsec) && RRsetOf(rrs, t, [97]) != []
    ensures Classify(w, [97], rrs, SigFor(t)) == Verified([DOT])
  {
    hide BuildSignedData, RRsetOf;
    assert Nsec3.Dotted([]) == [DOT] && Nsec3.Dotted([DOT]) == [DOT];
    assert Lower([DOT]) == [DOT];
    var keys := [DnsKey(257, 3, 13, [])];
    assert w.keys([DOT]) == Some(keys);
    assert MatchingKey(w, keys, SigFor(t).sig) == Some(keys[0]);
  }

  lemma SampleRRset(t: byte, rrs: seq<RR>)
    requires rrs != [] && rrs[0] == RR([97], t, 1, 0, 0, [])
    ensures rrs[0] in RRsetOf(rrs, t, [97])
  {
    hide Nsec.CanonicalName;
    assert Matches(rrs[0], t, Some(Nsec.CanonicalName([97])));
  }

  lemma RootTrusted(w: World)
    requires w == SimpleWorld([Ds(0, 13, 2, [])], w.nsec)
    ensures TrustOf(w, [DOT]) == Secure
  {
    hide TrustOf;
    var keys, d := [DnsKey(257, 3, 13, [])], Ds(0, 13, 2, []);
    assert keys[0] in keys && d in [d] && IsKsk(keys[0]) && !WeakDigest(w, d) && w.digests(keys[0], d, [DOT]);
    assert Endorsed(w, keys, [d], [DOT]);
    RootTrust(w);
  }

  /** The question was for an address; the answer has an unsigned address and a signed TXT
      record, and is Secure. */
  lemma UnsignedAnswerIsSecure()
    ensures var w := SimpleWorld([Ds(0, 13, 2, [])], rr => None);
            var answers := SignedSection(16) + [RR([97], TYPE_A, 1, 0, 4, [1, 2, 3, 4])];
            && PositiveVerdict(w, [97], answers) == Secure
            && forall s :: s in Sigs(answers) ==> s.sig.typeCovered != TYPE_A
  {
    hide Classify, TrustOf, RRsetOf, Sigs, Others, SignedSection, BuildSignedData;
    var w := SimpleWorld([Ds(0, 13, 2, [])], rr => None);
    var section, extra := SignedSection(16), RR([97], TYPE_A, 1, 0, 4, [1, 2, 3, 4]);
    SampleSigs(16);
    SampleRRset(16, [RR([97], 16, 1, 0, 0, [])]);
    assert section[0] == RR([97], 16, 1, 0, 0, []) by { SectionFirst(16); }
    SampleVerifies(16, w, Others(section));
    RootTrusted(w);
    var os := Outcomes(w, [97], Others(section), Sigs(section));
    assert os[0] == Verified([DOT]);
    assert FirstVerified(os) == 0;
    assert PositiveVerdict(w, [97], section) == Secure;
    UncoveredIgnored(w, [97], section, extra);
    SectionAppend(section, extra);
  }

  lemma SectionFirst(t: byte)
    ensures |SignedSection(t)| == 2 && SignedSection(t)[0] == RR([97], t, 1, 0, 0, [])
  {}
}
