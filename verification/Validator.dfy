/** The verdict on a positive answer (dnssec/validator.go). */
module Validator {
  import opened Bytes
  import opened Labels
  import opened NameWire
  import opened Records
  import opened SignedData
  import opened TrustChain
  import Nsec
  import Nsec3

  const SKEW: int := 60
  const ALG_RSASHA1: byte := 5

  /** isWeakRRSIGAlg or isUnsupportedRRSIGAlg */
  predicate Refused(w: World, algorithm: byte) {
    || (!w.allowSha1 && algorithm == ALG_RSASHA1)
    || algorithm !in {5, 8, 10, 13, 14, 15}
  }

  /** isInBailiwick */
  predicate InBailiwick(qname: Text, signer: Text) {
    var q, s := Lower(Nsec3.Dotted(qname)), Lower(Nsec3.Dotted(signer));
    s == [DOT] || q == s || HasSuffix(q, [DOT] + s)
  }

  /** The textual test decides whether the signer is an ancestor of the name. */
  lemma InBailiwickIsAncestor(qname: Text, signer: Text)
    ensures InBailiwick(qname, signer) <==> LabelSuffix(Nsec.CanonicalLabels(qname), Nsec.CanonicalLabels(signer))
  {
    hide Split, Nsec.CanonicalName, Nsec3.Dotted;
    var q, s := Nsec.CanonicalName(qname), Nsec.CanonicalName(signer);
    LowerDotted(qname);
    LowerDotted(signer);
    SuffixDotted(q, s);
    assert q + [DOT] == s + [DOT] <==> q == s by {
      assert (q + [DOT])[..|q|] == q && (s + [DOT])[..|s|] == s;
    }
    if s == [] {
      var ls := Nsec.CanonicalLabels(qname);
      assert ls[|ls|..] == [];
    } else if q != [] {
      InZoneIsLabelSuffix(q, s);
    }
  }

  lemma LowerDotted(name: Text)
    ensures Lower(Nsec3.Dotted(name)) == Nsec.CanonicalName(name) + [DOT]
  {
    DottedText(name);
  }

  // ---- records and signatures of a section ----

  predicate Matches(rr: RR, rtype: u16, owner: Option<Text>) {
    rr.rtype == rtype && (owner.Some? ==> Nsec.CanonicalName(rr.name) == owner.value)
  }

  function Matching(rrs: seq<RR>, rtype: u16, owner: Option<Text>): seq<RR> {
    if rrs == [] then []
    else (if Matches(rrs[0], rtype, owner) then [rrs[0]] else []) + Matching(rrs[1..], rtype, owner)
  }

  predicate OneOwner(rrs: seq<RR>) {
    rrs != [] && forall i :: 0 <= i < |rrs| ==> Nsec.CanonicalName(rrs[i].name) == Nsec.CanonicalName(rrs[0].name)
  }

  /** filterRRSetByOwner: the records at the owner, or all of the type if they share one owner. */
  function RRsetOf(rrs: seq<RR>, rtype: u16, owner: Text): seq<RR> {
    var exact := Matching(rrs, rtype, Some(Nsec.CanonicalName(owner)));
    var all := Matching(rrs, rtype, None);
    if exact != [] then exact else if OneOwner(all) then all else []
  }

  method FilterRRSetByOwner(rrs: seq<RR>, rtype: u16, owner: Text) returns (r: seq<RR>)
    ensures r == RRsetOf(rrs, rtype, owner)
  {
    hide Nsec.CanonicalName, OwnersOf, OneOwner, Matching;
    var lower := Nsec.CanonicalName(owner);
    var exact: seq<RR>, all: seq<RR>, owners: set<Text> := [], [], {};
    NoOwners();
    assert rrs[0..] == rrs;
    for i := 0 to |rrs|
      invariant exact + Matching(rrs[i..], rtype, Some(lower)) == Matching(rrs, rtype, Some(lower))
      invariant all + Matching(rrs[i..], rtype, None) == Matching(rrs, rtype, None)
      invariant owners == OwnersOf(all)
    {
      MatchingStep(rrs, i, rtype, None);
      MatchingStep(rrs, i, rtype, Some(lower));
      if rrs[i].rtype == rtype {
        var name := Nsec.CanonicalName(rrs[i].name);
        OwnersGrow(all, rrs[i]);
        all := all + [rrs[i]];
        owners := owners + {name};
        if name == lower {
          exact := exact + [rrs[i]];
        }
      }
    }
    MatchingNone(rrs[|rrs|..], rtype);
    assert all == Matching(rrs, rtype, None) && exact == Matching(rrs, rtype, Some(lower));
    if |exact| > 0 {
      return exact;
    }
    CountOwners(all);
    if |owners| == 1 {
      return all;
    }
    r := [];
  }

  function OwnersOf(rrs: seq<RR>): set<Text> {
    set i | 0 <= i < |rrs| :: Nsec.CanonicalName(rrs[i].name)
  }

  lemma CountOwners(rrs: seq<RR>)
    ensures |OwnersOf(rrs)| == 1 <==> OneOwner(rrs)
  {
    hide Nsec.CanonicalName;
    var owners := OwnersOf(rrs);
    if OneOwner(rrs) {
      assert owners == {Nsec.CanonicalName(rrs[0].name)};
    }
    if |owners| == 1 {
      var o :| o in owners;
      assert |owners - {o}| == 0;
      assert owners == {o};
      assert forall i :: 0 <= i < |rrs| ==> Nsec.CanonicalName(rrs[i].name) in owners;
    }
  }

  lemma MatchingStep(rrs: seq<RR>, i: nat, rtype: u16, owner: Option<Text>)
    requires i < |rrs|
    ensures Matching(rrs[i..], rtype, owner)
         == (if Matches(rrs[i], rtype, owner) then [rrs[i]] else []) + Matching(rrs[i + 1..], rtype, owner)
  {
    assert rrs[i..][1..] == rrs[i + 1..];
  }

  lemma MatchingNone(rrs: seq<RR>, rtype: u16)
    requires rrs == []
    ensures forall owner :: Matching(rrs, rtype, owner) == []
  {}

  lemma NoOwners()
    ensures OwnersOf([]) == {}
  {}

  lemma OwnersGrow(rrs: seq<RR>, rr: RR)
    ensures OwnersOf(rrs + [rr]) == OwnersOf(rrs) + {Nsec.CanonicalName(rr.name)}
  {
    hide Nsec.CanonicalName;
    var all := rrs + [rr];
    assert all[|rrs|] == rr;
    forall o | o in OwnersOf(rrs) ensures o in OwnersOf(all) {
      var i :| 0 <= i < |rrs| && Nsec.CanonicalName(rrs[i].name) == o;
      assert all[i] == rrs[i];
    }
  }

  /** ParseRRSIG */
  function ParseRRSIG(rdata: Text): Option<Rrsig> {
    if |rdata| < 18 then None
    else
      match DecodeName(rdata, 18)
      case Err(_) => None
      case Ok((signer, end)) =>
        Some(Rrsig(GetU16(rdata, 0), rdata[2], rdata[3], GetU32(rdata, 4), GetU32(rdata, 8), GetU32(rdata, 12),
                   GetU16(rdata, 16), signer, if end < |rdata| then rdata[end..] else []))
  }

  datatype OwnedSig = OwnedSig(sig: Rrsig, owner: Text)

  function SigOf(rr: RR): Option<OwnedSig> {
    if rr.rtype != TYPE_RRSIG then None
    else
      match ParseRRSIG(rr.rdata)
      case None => None
      case Some(sig) => Some(OwnedSig(sig, rr.name))
  }

  /** The signatures of a section that parse, with their owners. */
  function Sigs(rrs: seq<RR>): seq<OwnedSig> {
    if rrs == [] then []
    else (if SigOf(rrs[0]).Some? then [SigOf(rrs[0]).value] else []) + Sigs(rrs[1..])
  }

  // ---- one signature ----

  /** Skipped by policy; no records to sign; a hard failure; no usable key; or verified. */
  datatype Outcome = Skipped | Unmatched | Failed | NoKey | Verified(zone: Text)

  /** findMatchingDNSKEY */
  function MatchingKey(w: World, keys: seq<DnsKey>, sig: Rrsig): Option<DnsKey> {
    if keys == [] then None
    else if w.tag(keys[0]) == sig.keyTag && keys[0].algorithm == sig.algorithm then Some(keys[0])
    else MatchingKey(w, keys[1..], sig)
  }

  method FindMatchingDNSKEY(w: World, keys: seq<DnsKey>, sig: Rrsig) returns (k: Option<DnsKey>)
    ensures k == MatchingKey(w, keys, sig)
  {
    assert keys[0..] == keys;
    for i := 0 to |keys|
      invariant MatchingKey(w, keys, sig) == MatchingKey(w, keys[i..], sig)
    {
      assert keys[i..][1..] == keys[i + 1..];
      if w.tag(keys[i]) == sig.keyTag && keys[i].algorithm == sig.algorithm {
        return Some(keys[i]);
      }
    }
    k := None;
  }

  /** VerifyRRSIG: the signature holds over the canonical signed data. */
  predicate VerifyRRSIG(w: World, rrset: seq<RR>, sig: Rrsig, key: DnsKey) {
    rrset != [] && sig.signature != []
      && w.signed(BuildSignedData(rrset, sig), sig.signature, key.publicKey, sig.algorithm)
  }

  method CheckRRSIG(w: World, rrset: seq<RR>, sig: Rrsig, key: DnsKey) returns (ok: bool)
    ensures ok == VerifyRRSIG(w, rrset, sig, key)
  {
    hide BuildSignedData;
    if |rrset| == 0 || |sig.signature| == 0 {
      return false;
    }
    var data := SignedOctets(rrset, sig);
    ok := w.signed(data, sig.signature, key.publicKey, sig.algorithm);
  }

  predicate InTime(w: World, sig: Rrsig) {
    sig.inception <= w.now + SKEW && w.now <= sig.expiration + SKEW
  }

  /** What the loop over signatures makes of one of them. */
  function Classify(w: World, qname: Text, rrs: seq<RR>, s: OwnedSig): Outcome {
    var zone := Nsec3.Dotted(s.sig.signer);
    if Refused(w, s.sig.algorithm) then Skipped
    else if RRsetOf(rrs, s.sig.typeCovered, s.owner) == [] then Unmatched
    else if !InTime(w, s.sig) || !InBailiwick(qname, zone) then Failed
    else
      match w.keys(zone)
      case None => NoKey
      case Some(keys) =>
        match MatchingKey(w, keys, s.sig)
        case None => NoKey
        case Some(key) =>
          if VerifyRRSIG(w, RRsetOf(rrs, s.sig.typeCovered, s.owner), s.sig, key) then Verified(zone) else Failed
  }

  method CheckSignature(w: World, qname: Text, rrs: seq<RR>, s: OwnedSig) returns (o: Outcome)
    ensures o == Classify(w, qname, rrs, s)
  {
    hide RRsetOf, MatchingKey, BuildSignedData, InBailiwick;
    if Refused(w, s.sig.algorithm) {
      return Skipped;
    }
    var rrset := FilterRRSetByOwner(rrs, s.sig.typeCovered, s.owner);
    if |rrset| == 0 {
      return Unmatched;
    }
    if w.now + SKEW < s.sig.inception {
      return Failed;
    }
    if w.now > s.sig.expiration + SKEW {
      return Failed;
    }
    var zone := Nsec3.Dotted(s.sig.signer);
    if !InBailiwick(qname, zone) {
      return Failed;
    }
    var keys := w.keys(zone);
    if keys.None? {
      return NoKey;
    }
    var key := FindMatchingDNSKEY(w, keys.value, s.sig);
    if key.None? {
      return NoKey;
    }
    var ok := CheckRRSIG(w, rrset, s.sig, key.value);
    if !ok {
      return Failed;
    }
    o := Verified(zone);
  }

  // ---- all signatures ----

  /** The verdict by the outcomes in order: the chain of the first that verifies decides;
      failing that, nothing usable is Insecure, a hard failure Bogus, the rest Indeterminate. */
  ghost function Judge(w: World, os: seq<Outcome>): Validation {
    var i := FirstVerified(os);
    if i < |os| then TrustOf(w, os[i].zone)
    else if forall o :: o in os ==> o == Skipped then Insecure
    else if Failed in os then Bogus
    else Indeterminate
  }

  function FirstVerified(os: seq<Outcome>): (i: nat)
    ensures i <= |os| && (i < |os| ==> os[i].Verified?)
    ensures forall j :: 0 <= j < i ==> !os[j].Verified?
  {
    if os == [] || os[0].Verified? then 0 else 1 + FirstVerified(os[1..])
  }

  function Outcomes(w: World, qname: Text, rrs: seq<RR>, sigs: seq<OwnedSig>): (os: seq<Outcome>)
    ensures |os| == |sigs| && forall i :: 0 <= i < |sigs| ==> os[i] == Classify(w, qname, rrs, sigs[i])
  {
    seq(|sigs|, i requires 0 <= i < |sigs| => Classify(w, qname, rrs, sigs[i]))
  }

  predicate NotSig(rr: RR) {
    rr.rtype != TYPE_RRSIG
  }

  function Others(rrs: seq<RR>): seq<RR> {
    if rrs == [] then [] else (if NotSig(rrs[0]) then [rrs[0]] else []) + Others(rrs[1..])
  }

  /** The verdict on an answer section that is not empty. */
  ghost function PositiveVerdict(w: World, qname: Text, answers: seq<RR>): Validation {
    if Sigs(answers) == [] then Insecure
    else Judge(w, Outcomes(w, qname, Others(answers), Sigs(answers)))
  }

  /** The positive part of validateResponseImpl, with its three flags. */
  method ValidatePositive(w: World, qname: Text, answers: seq<RR>) returns (v: Validation)
    ensures v == PositiveVerdict(w, qname, answers)
  {
    hide Classify, TrustOf, SigOf;
    var sigs, others := SplitSection(answers);
    if |sigs| == 0 {
      return Insecure;
    }
    var usable, sawBogus, sawIndeterminate := 0, false, false;
    ghost var os := Outcomes(w, qname, others, sigs);
    for i := 0 to |sigs|
      invariant forall j :: 0 <= j < i ==> !os[j].Verified?
      invariant 0 <= usable && (usable == 0 <==> forall j :: 0 <= j < i ==> os[j] == Skipped)
      invariant sawBogus <==> exists j :: 0 <= j < i && os[j] == Failed
    {
      var o := CheckSignature(w, qname, others, sigs[i]);
      assert o == os[i];
      match o {
        case Skipped =>
        case Unmatched => usable := usable + 1;
        case Failed => usable, sawBogus := usable + 1, true;
        case NoKey => usable, sawIndeterminate := usable + 1, true;
        case Verified(zone) =>
          assert FirstVerified(os) == i;
          v := ValidateTrustChain(w, zone);
          return;
      }
    }
    assert FirstVerified(os) == |os|;
    assert Failed in os <==> sawBogus;
    if usable == 0 {
      return Insecure;
    }
    ghost var j :| 0 <= j < |os| && os[j] != Skipped;
    assert os[j] in os;
    if sawBogus {
      return Bogus;
    }
    v := Indeterminate;
  }

  method SplitSection(rrs: seq<RR>) returns (sigs: seq<OwnedSig>, others: seq<RR>)
    ensures sigs == Sigs(rrs) && others == Others(rrs)
  {
    hide ParseRRSIG;
    sigs, others := [], [];
    assert rrs[0..] == rrs;
    for i := 0 to |rrs|
      invariant sigs + Sigs(rrs[i..]) == Sigs(rrs)
      invariant others + Others(rrs[i..]) == Others(rrs)
    {
      assert rrs[i..][1..] == rrs[i + 1..];
      if rrs[i].rtype == TYPE_RRSIG {
        var parsed := ParseRRSIG(rrs[i].rdata);
        if parsed.Some? {
          sigs := sigs + [OwnedSig(parsed.value, rrs[i].name)];
        }
      } else {
        others := others + [rrs[i]];
      }
    }
  }
}
