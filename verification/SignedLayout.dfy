/** What an RRSIG signs, by octet position: section 3.1.8.1 of RFC 4034. */
module SignedLayout {
  import opened Bytes
  import opened Labels
  import opened NameWire
  import opened Compression
  import opened Records
  import opened Nsec
  import opened SignedData
  import opened Validator
  import L = Layouts

  /** The fields of RRSIG RDATA (section 3.1 of RFC 4034): 18 octets, the signer and what is left. */
  lemma RrsigLayout(rdata: Text, sig: Rrsig)
    ensures ParseRRSIG(rdata) == Some(sig)
       <==> && |rdata| >= 18 && DecodeName(rdata, 18).Ok?
            && var (signer, end) := DecodeName(rdata, 18).value;
               && sig.typeCovered == L.Number(rdata[0..2]) && sig.algorithm == rdata[2] && sig.labels == rdata[3]
               && sig.origTtl == L.Number(rdata[4..8]) && sig.expiration == L.Number(rdata[8..12])
               && sig.inception == L.Number(rdata[12..16]) && sig.keyTag == L.Number(rdata[16..18])
               && sig.signer == signer && sig.signature == if end < |rdata| then rdata[end..] else []
  {
    hide DecodeName, GetU16, GetU32, L.Number;
    if |rdata| >= 18 {
      L.BigEndian16(0, rdata, 0);
      L.BigEndian32(0, rdata, 4);
      L.BigEndian32(0, rdata, 8);
      L.BigEndian32(0, rdata, 12);
      L.BigEndian16(0, rdata, 16);
    }
  }

  /** The 18 fixed octets that are signed are those of the RDATA. */
  lemma FieldsAreRData(rdata: Text, sig: Rrsig)
    requires ParseRRSIG(rdata) == Some(sig)
    ensures SigFields(sig) == rdata[..18]
  {
    hide DecodeName;
    Again16(rdata, 0);
    Again32(rdata, 4);
    Again32(rdata, 8);
    Again32(rdata, 12);
    Again16(rdata, 16);
    hide GetU16, GetU32, PutU16, PutU32;
    assert rdata[..18]
        == rdata[0..2] + [rdata[2], rdata[3]] + rdata[4..8] + rdata[8..12] + rdata[12..16] + rdata[16..18];
  }

  lemma Again16(s: Text, at: nat)
    requires at + 2 <= |s|
    ensures PutU16(GetU16(s, at)) == s[at..at + 2]
  {}

  lemma Again32(s: Text, at: nat)
    requires at + 4 <= |s|
    ensures PutU32(GetU32(s, at)) == s[at..at + 4]
  {
    Again16(s, at);
    Again16(s, at + 2);
    var hi, lo := GetU16(s, at), GetU16(s, at + 2);
    hide GetU16, PutU16;
    assert GetU32(s, at) / 0x1_0000 == hi && GetU32(s, at) % 0x1_0000 == lo;
    assert s[at..at + 4] == s[at..at + 2] + s[at + 2..at + 4];
  }

  /** The signed octets begin with the RDATA of the signature itself, up to the signature field,
      with the signer in lower case. */
  lemma SignedPrefix(rdata: Text, sig: Rrsig, end: nat, rrset: seq<RR>)
    requires ParseRRSIG(rdata) == Some(sig) && DecodeName(rdata, 18) == Ok((sig.signer, end))
    requires 18 <= end <= |rdata| && rdata[18..end] == PlainName(SplitLabels(sig.signer))
    ensures rdata[..18] + PlainName(LowerAll(SplitLabels(sig.signer))) <= BuildSignedData(rrset, sig)
    ensures Lower(sig.signer) == sig.signer ==> rdata[..|rdata| - |sig.signature|] <= BuildSignedData(rrset, sig)
  {
    hide DecodeName, SigFields, PlainName, Split, Wires, Concat, Sort;
    FieldsAreRData(rdata, sig);
    CanonicalLabelsLower(sig.signer);
    var front := rdata[..18] + NameBytes(sig.signer);
    var rest := Concat(Sort(Wires(rrset, sig)));
    assert BuildSignedData(rrset, sig) == front + rest;
    if Lower(sig.signer) == sig.signer {
      LowerLabels(sig.signer);
      assert rdata[..end] == rdata[..18] + rdata[18..end];
      assert |rdata| - |sig.signature| == end;
    }
  }

  lemma LowerLabels(name: Text)
    requires Lower(name) == name
    ensures CanonicalLabels(name) == SplitLabels(name)
  {
    hide Split;
    assert Lower(TrimDot(name)) == TrimDot(name);
  }

  /** Behind its owner a signed record has type, class, the TTL of the signature, the length of the
      RDATA and the RDATA. */
  lemma SignedRecordLayout(rr: RR, sig: Rrsig)
    ensures var owner, b := NameBytes(WildcardOwner(rr.name, sig.labels)), RecordBytes(rr, sig);
            var rd := CanonicalRData(rr.rdata, sig.typeCovered);
            && |b| == |owner| + 10 + |rd| && b[..|owner|] == owner && b[|owner| + 10..] == rd
            && L.Number(b[|owner|..|owner| + 2]) == rr.rtype && L.Number(b[|owner| + 2..|owner| + 4]) == rr.class_
            && L.Number(b[|owner| + 4..|owner| + 8]) == sig.origTtl
            && L.Number(b[|owner| + 8..|owner| + 10]) == |rd| % 0x1_0000
  {
    hide NameBytes, WildcardOwner, CanonicalRData, PutU16, PutU32, L.Number;
    var owner, rd := NameBytes(WildcardOwner(rr.name, sig.labels)), CanonicalRData(rr.rdata, sig.typeCovered);
    var type_, class_, ttl, len := PutU16(rr.rtype), PutU16(rr.class_), PutU32(sig.origTtl), PutU16(|rd| % 0x1_0000);
    var b := RecordBytes(rr, sig);
    assert b == owner + (type_ + class_ + ttl + len) + rd;
    assert b[|owner|..|owner| + 2] == type_ && b[|owner| + 2..|owner| + 4] == class_;
    assert b[|owner| + 4..|owner| + 8] == ttl && b[|owner| + 8..|owner| + 10] == len;
    L.BigEndian16(rr.rtype, [], 0);
    L.BigEndian16(rr.class_, [], 0);
    L.BigEndian32(sig.origTtl, [], 0);
    L.BigEndian16(|rd| % 0x1_0000, [], 0);
  }

  /** In canonical RDATA (section 6.2 of RFC 4034) the one name of NS, CNAME, PTR, MX, SRV, DNAME,
      RRSIG and NSEC is in lower case, and nothing else changes. */
  lemma CanonicalOneNameIs(rtype: u16, fixed: Text, ls: seq<Text>, post: Text)
    requires L.Before(rtype) == Some(|fixed|) && L.WireLabels(ls)
    ensures CanonicalRData(fixed + PlainName(ls) + post, rtype) == fixed + (PlainName(LowerAll(ls)) + post)
  {
    hide PlainName, CanonicalRData, LowerAll;
    CanonicalOneName(rtype, fixed + PlainName(ls) + post, fixed, ls, post);
  }

  /** In an SOA both names are. */
  lemma CanonicalSoaIs(m: seq<Text>, r: seq<Text>, post: Text)
    requires L.WireLabels(m) && L.WireLabels(r)
    ensures CanonicalRData(PlainName(m) + (PlainName(r) + post), 6)
         == PlainName(LowerAll(m)) + (PlainName(LowerAll(r)) + post)
  {
    hide PlainName, CanonicalRData, LowerAll;
    CanonicalTwoNames(6, PlainName(m) + (PlainName(r) + post), m, r, post);
  }

  /** All other RDATA is signed as it is. */
  lemma CanonicalOtherIs(rtype: u16, rdata: Text)
    requires L.Before(rtype).None? && rtype != 6
    ensures CanonicalRData(rdata, rtype) == rdata
  {
    assert ShapeOf(rtype) == Raw;
    hide ShapeOf, LowerName, NameLength;
  }
}
