/** When a Secure answer vouches for the RRset that was asked for (dnssec/validator.go). */
module Coverage {
  import opened Bytes
  import opened Records
  import opened SignedData
  import opened TrustChain
  import opened Validator
  import opened Verdicts
  import Nsec
  import Nsec3

  /** The records of the answer that the question asked for. */
  function Asked(qname: Text, qtype: u16, answers: seq<RR>): seq<RR> {
    Matching(Others(answers), qtype, Some(Nsec.CanonicalName(qname)))
  }

  /** The records that the validator puts under a signature. */
  function Under(answers: seq<RR>, s: OwnedSig): seq<RR> {
    RRsetOf(Others(answers), s.sig.typeCovered, s.owner)
  }

  predicate CoversQuestion(qname: Text, qtype: u16, answers: seq<RR>, s: OwnedSig) {
    s.sig.typeCovered == qtype && Under(answers, s) == Asked(qname, qtype, answers)
  }

  /** Some signature verifies over exactly the records asked for. */
  ghost predicate QuestionSigned(w: World, qname: Text, qtype: u16, answers: seq<RR>) {
    exists s :: Verifies(w, qname, answers, s) && CoversQuestion(qname, qtype, answers, s)
  }

  /** What the section, the policy and the clock say of a signature, before any key is fetched. */
  predicate Eligible(w: World, qname: Text, answers: seq<RR>, s: OwnedSig) {
    && s in Sigs(answers) && !Refused(w, s.sig.algorithm) && InTime(w, s.sig)
    && InBailiwick(qname, Nsec3.Dotted(s.sig.signer))
    && Under(answers, s) != [] && s.sig.signature != []
  }

  /** Two signatures that ask the same of the signer's keys: one verifies if the other does. Two
      expansions of one wildcard give such a pair. */
  predicate Twins(answers: seq<RR>, s: OwnedSig, t: OwnedSig) {
    && Nsec3.Dotted(s.sig.signer) == Nsec3.Dotted(t.sig.signer)
    && s.sig.keyTag == t.sig.keyTag && s.sig.algorithm == t.sig.algorithm && s.sig.signature == t.sig.signature
    && BuildSignedData(Under(answers, s), s.sig) == BuildSignedData(Under(answers, t), t.sig)
  }

  /** Every eligible signature covers the question, itself or through an eligible twin. */
  ghost predicate AllCover(w: World, qname: Text, qtype: u16, answers: seq<RR>) {
    forall s :: Eligible(w, qname, answers, s) ==> SomeTwinCovers(w, qname, qtype, answers, s)
  }

  ghost predicate SomeTwinCovers(w: World, qname: Text, qtype: u16, answers: seq<RR>, s: OwnedSig) {
    exists t :: Eligible(w, qname, answers, t) && Twins(answers, s, t) && CoversQuestion(qname, qtype, answers, t)
  }

  predicate SamePolicy(w: World, w': World) {
    w.allowSha1 == w'.allowSha1 && w.now == w'.now
  }

  // ---- what verification depends on ----

  /** The fetched keys accept the signature. */
  predicate KeyAccepts(w: World, answers: seq<RR>, s: OwnedSig) {
    match w.keys(Nsec3.Dotted(s.sig.signer))
    case None => false
    case Some(keys) =>
      match MatchingKey(w, keys, s.sig)
      case None => false
      case Some(key) =>
        w.signed(BuildSignedData(Under(answers, s), s.sig), s.sig.signature, key.publicKey, s.sig.algorithm)
  }

  lemma VerifiesIff(w: World, qname: Text, answers: seq<RR>, s: OwnedSig)
    ensures Verifies(w, qname, answers, s) <==> Eligible(w, qname, answers, s) && KeyAccepts(w, answers, s)
  {
    hide Sigs, Others, RRsetOf, BuildSignedData, InBailiwick, MatchingKey, Nsec3.Dotted;
  }

  lemma {:induction false} SameMatchingKey(w: World, keys: seq<DnsKey>, a: Rrsig, b: Rrsig)
    requires a.keyTag == b.keyTag && a.algorithm == b.algorithm
    ensures MatchingKey(w, keys, a) == MatchingKey(w, keys, b)
  {
    if keys != [] { SameMatchingKey(w, keys[1..], a, b); }
  }

  lemma TwinAccepted(w: World, answers: seq<RR>, s: OwnedSig, t: OwnedSig)
    requires Twins(answers, s, t) && KeyAccepts(w, answers, s)
    ensures KeyAccepts(w, answers, t)
  {
    hide Under, BuildSignedData, MatchingKey, Nsec3.Dotted;
    SameMatchingKey(w, w.keys(Nsec3.Dotted(s.sig.signer)).value, s.sig, t.sig);
  }

  lemma EligibleByPolicy(w: World, w': World, qname: Text, answers: seq<RR>, s: OwnedSig)
    requires SamePolicy(w, w')
    ensures Eligible(w, qname, answers, s) <==> Eligible(w', qname, answers, s)
  {
    hide Sigs, Under, InBailiwick, Nsec3.Dotted;
  }

  /** If every eligible signature covers the question, Secure means that it is signed. */
  lemma SecureIsSigned(w: World, qname: Text, qtype: u16, answers: seq<RR>)
    requires AllCover(w, qname, qtype, answers) && PositiveVerdict(w, qname, answers) == Secure
    ensures QuestionSigned(w, qname, qtype, answers)
  {
    hide Eligible, Twins, CoversQuestion, KeyAccepts, Verifies, PositiveVerdict, TrustOf;
    var s := SecureSigner(w, qname, answers);
    VerifiesIff(w, qname, answers, s);
    assert SomeTwinCovers(w, qname, qtype, answers, s);
    var t :| Eligible(w, qname, answers, t) && Twins(answers, s, t) && CoversQuestion(qname, qtype, answers, t);
    TwinAccepted(w, answers, s, t);
    VerifiesIff(w, qname, answers, t);
  }

  // ---- a world made for one signature ----

  const GOOD_DS: Ds := Ds(0, 13, 2, [])

  /** Every zone has one key, which names the zone; every digest matches; and one signature, over
      one string of octets, by the key of one zone, holds. */
  function WorldFor(w: World, sig: Rrsig, data: Text): World {
    var zone := Nsec3.Dotted(sig.signer);
    w.(keys := z => Some([DnsKey(257, 3, sig.algorithm, z)]), ds := z => Some([GOOD_DS]), anchors := [GOOD_DS],
       tag := k => sig.keyTag, digests := (k, d, z) => true,
       signed := (text, signature, key, algorithm) => text == data && signature == sig.signature && key == zone)
  }

  lemma KeyEndorsed(w: World, sig: Rrsig, data: Text, zone: Text)
    ensures var w' := WorldFor(w, sig, data);
            w'.keys(zone).Some? && Endorsed(w', w'.keys(zone).value, [GOOD_DS], zone) && !WeakDigest(w', GOOD_DS)
  {
    hide Nsec3.Dotted;
    var w', key := WorldFor(w, sig, data), DnsKey(257, 3, sig.algorithm, zone);
    assert w'.keys(zone) == Some([key]) && key in [key] && IsKsk(key);
    assert GOOD_DS in [GOOD_DS] && w'.digests(key, GOOD_DS, zone);
  }

  lemma LinkTrusted(w: World, sig: Rrsig, data: Text, chain: seq<Text>, i: nat)
    requires i < |chain|
    ensures LinkVerdict(WorldFor(w, sig, data), chain, i) == Secure
  {
    hide Endorsed, WeakDigest, Nsec3.Dotted;
    KeyEndorsed(w, sig, data, chain[i]);
    assert GOOD_DS in [GOOD_DS];
  }

  lemma EveryZoneTrusted(w: World, sig: Rrsig, data: Text, zone: Text)
    ensures TrustOf(WorldFor(w, sig, data), zone) == Secure
  {
    hide BuildZoneChain, FirstFailure, LinkVerdict, WorldFor;
    var w', chain := WorldFor(w, sig, data), BuildZoneChain(zone);
    forall i | 0 <= i < |chain| ensures LinkVerdict(w', chain, i) == Secure { LinkTrusted(w, sig, data, chain, i); }
    FirstFailureIs(w', chain, 0);
  }

  /** In that world the signature and its twins are accepted, and no others. */
  lemma OnlyTwinsAccepted(w: World, answers: seq<RR>, s: OwnedSig, t: OwnedSig)
    ensures var w' := WorldFor(w, s.sig, BuildSignedData(Under(answers, s), s.sig));
            KeyAccepts(w', answers, t) <==> Twins(answers, s, t)
  {
    hide Under, BuildSignedData, Nsec3.Dotted;
    var w' := WorldFor(w, s.sig, BuildSignedData(Under(answers, s), s.sig));
    var zone := Nsec3.Dotted(t.sig.signer);
    var key := DnsKey(257, 3, s.sig.algorithm, zone);
    var keys := [key];
    assert w'.keys(zone) == Some(keys) && keys[1..] == [];
    assert MatchingKey(w', keys, t.sig) ==
           if s.sig.keyTag == t.sig.keyTag && s.sig.algorithm == t.sig.algorithm then Some(key) else None;
  }

  lemma SomeVerifiedIsSecure(w: World, qname: Text, answers: seq<RR>, s: OwnedSig)
    requires Verifies(w, qname, answers, s) && forall zone :: TrustOf(w, zone) == Secure
    ensures PositiveVerdict(w, qname, answers) == Secure
  {
    hide Classify, TrustOf, Others, Sigs;
    var sigs := Sigs(answers);
    var os := Outcomes(w, qname, Others(answers), sigs);
    var i :| 0 <= i < |sigs| && sigs[i] == s;
    assert os[i].Verified?;
  }

  lemma UncoveredWorld(w: World, qname: Text, qtype: u16, answers: seq<RR>, s: OwnedSig) returns (w': World)
    requires Eligible(w, qname, answers, s) && !SomeTwinCovers(w, qname, qtype, answers, s)
    ensures SamePolicy(w', w) && PositiveVerdict(w', qname, answers) == Secure
    ensures !QuestionSigned(w', qname, qtype, answers)
  {
    hide Eligible, Twins, CoversQuestion, KeyAccepts, Verifies, PositiveVerdict, TrustOf;
    w' := WorldFor(w, s.sig, BuildSignedData(Under(answers, s), s.sig));
    forall zone ensures TrustOf(w', zone) == Secure {
      EveryZoneTrusted(w, s.sig, BuildSignedData(Under(answers, s), s.sig), zone);
    }
    forall t ensures Verifies(w', qname, answers, t) <==> Eligible(w, qname, answers, t) && Twins(answers, s, t) {
      VerifiesIff(w', qname, answers, t);
      EligibleByPolicy(w', w, qname, answers, t);
      OnlyTwinsAccepted(w, answers, s, t);
    }
    SelfTwin(answers, s);
    SomeVerifiedIsSecure(w', qname, answers, s);
  }

  lemma SelfTwin(answers: seq<RR>, s: OwnedSig)
    ensures Twins(answers, s, s)
  {}

  /** Exactly when Secure vouches for what was asked: under a given policy and clock, every world
      that makes the answer Secure has a signature that verifies over the RRset of the question,
      if and only if every eligible signature of the section covers that RRset or has an eligible
      twin that does. */
  lemma QuestionSignedIff(w: World, qname: Text, qtype: u16, answers: seq<RR>)
    ensures (forall w': World :: SamePolicy(w', w) && PositiveVerdict(w', qname, answers) == Secure ==>
               QuestionSigned(w', qname, qtype, answers))
       <==> AllCover(w, qname, qtype, answers)
  {
    hide Eligible, SomeTwinCovers, PositiveVerdict, QuestionSigned;
    if AllCover(w, qname, qtype, answers) {
      forall w': World | SamePolicy(w', w) && PositiveVerdict(w', qname, answers) == Secure
        ensures QuestionSigned(w', qname, qtype, answers)
      {
        CoverByPolicy(w, w', qname, qtype, answers);
        SecureIsSigned(w', qname, qtype, answers);
      }
    } else {
      var s :| Eligible(w, qname, answers, s) && !SomeTwinCovers(w, qname, qtype, answers, s);
      var w' := UncoveredWorld(w, qname, qtype, answers, s);
    }
  }

  lemma CoverByPolicy(w: World, w': World, qname: Text, qtype: u16, answers: seq<RR>)
    requires SamePolicy(w', w) && AllCover(w, qname, qtype, answers)
    ensures AllCover(w', qname, qtype, answers)
  {
    hide Eligible, Twins, CoversQuestion;
    forall s ensures Eligible(w', qname, answers, s) <==> Eligible(w, qname, answers, s) {
      EligibleByPolicy(w', w, qname, answers, s);
    }
    forall s | Eligible(w', qname, answers, s) ensures SomeTwinCovers(w', qname, qtype, answers, s) {
      assert SomeTwinCovers(w, qname, qtype, answers, s);
    }
  }

  /** In particular: if every signature that could verify at all is for the name and type asked. */
  lemma QuestionCovered(w: World, qname: Text, qtype: u16, answers: seq<RR>) returns (s: OwnedSig, key: DnsKey)
    requires PositiveVerdict(w, qname, answers) == Secure
    requires Asked(qname, qtype, answers) != []
    requires forall t :: Eligible(w, qname, answers, t) ==>
               t.sig.typeCovered == qtype && Nsec.CanonicalName(t.owner) == Nsec.CanonicalName(qname)
    ensures Verifies(w, qname, answers, s) && CoversQuestion(qname, qtype, answers, s)
    ensures VerifyRRSIG(w, Asked(qname, qtype, answers), s.sig, key)
  {
    hide Eligible, PositiveVerdict, Others, Matching, Nsec.CanonicalName, BuildSignedData, Nsec3.Dotted, Classify;
    hide Sigs, Nsec.CanonicalLabels;
    forall t | Eligible(w, qname, answers, t) ensures SomeTwinCovers(w, qname, qtype, answers, t) {
      assert CoversQuestion(qname, qtype, answers, t);
      SelfTwin(answers, t);
    }
    QuestionSignedIff(w, qname, qtype, answers);
    assert SamePolicy(w, w);
    s :| Verifies(w, qname, answers, s) && CoversQuestion(qname, qtype, answers, s);
    key := VerifiedMeans(w, qname, Others(answers), s);
  }
}
