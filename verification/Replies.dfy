/** Reading an upstream reply (resolver/classify.go, cname.go, delegation.go, qmin.go). */
module Replies {
  import opened Bytes
  import opened Labels
  import opened NameWire
  import opened Records
  import opened Bailiwick
  import Validator

  const RCODE_FORMERR: byte := 1
  const RCODE_SERVFAIL: byte := 2
  const RCODE_NXDOMAIN: byte := 3
  const RCODE_REFUSED: byte := 5

  // ---- classification ----

  datatype Kind = Answer | Alias | Dname | Referral | NXDomain | NoData | ServFail

  predicate IsAnswer(rr: RR, qname: Text, qtype: u16) {
    Lower(rr.name) == qname && rr.rtype == qtype
  }

  predicate IsDnameAbove(rr: RR, qname: Text) {
    rr.rtype == TYPE_DNAME && HasSuffix(qname, [DOT] + Lower(rr.name))
  }

  /** soaCoversName */
  predicate IsCoveringSOA(rr: RR, qname: Text) {
    rr.rtype == TYPE_SOA && InZone(Lower(TrimDot(qname)), Lower(TrimDot(rr.name)))
  }

  /** classifyResponse, by what the sections contain. */
  ghost function KindOf(m: Response, qname: Text, qtype: u16): Kind {
    var direct := exists rr :: rr in m.answers && IsAnswer(rr, qname, qtype);
    var alias := exists rr :: rr in m.answers && IsAnswer(rr, qname, TYPE_CNAME);
    var dname := exists rr :: rr in m.answers && IsDnameAbove(rr, qname);
    var soa := exists rr :: rr in m.authority && IsCoveringSOA(rr, qname);
    var ns := exists rr :: rr in m.authority && rr.rtype == TYPE_NS;
    if m.rcode == RCODE_NXDOMAIN then NXDomain
    else if m.rcode in {RCODE_SERVFAIL, RCODE_REFUSED, RCODE_FORMERR} then ServFail
    else if !m.aa && (direct || alias || dname) then ServFail
    else if direct then Answer
    else if alias then Alias
    else if dname then Dname
    else if soa then NoData
    else if ns then Referral
    else ServFail
  }

  /** What each class of reply is, with the codes FORMERR (1), SERVFAIL (2), NXDOMAIN (3) and REFUSED
      (5) and the types NS (2), CNAME (5), SOA (6) and DNAME (39) by number: anything but NXDOMAIN
      needs another code, and an answer or an alias counts only in an authoritative reply. */
  lemma KindIs(m: Response, qname: Text, qtype: u16)
    ensures var k := KindOf(m, qname, qtype);
            var usable := m.rcode !in {1, 2, 3, 5};
            var direct := exists rr :: rr in m.answers && Lower(rr.name) == qname && rr.rtype == qtype;
            var alias := exists rr :: rr in m.answers && Lower(rr.name) == qname && rr.rtype == 5;
            var dname := exists rr :: rr in m.answers && rr.rtype == 39 && HasSuffix(qname, [DOT] + Lower(rr.name));
            var soa := exists rr :: rr in m.authority && rr.rtype == 6
                                    && InZone(Lower(TrimDot(qname)), Lower(TrimDot(rr.name)));
            && (k == NXDomain <==> m.rcode == 3)
            && (k == Answer <==> usable && m.aa && direct)
            && (k == Alias <==> usable && m.aa && alias && !direct)
            && (k == Dname <==> usable && m.aa && dname && !direct && !alias)
            && (k == NoData <==> usable && soa && !direct && !alias && !dname)
            && (k == Referral <==> && usable && !soa && !direct && !alias && !dname
                                   && exists rr :: rr in m.authority && rr.rtype == 2)
  {
    hide Lower, TrimDot, HasSuffix, InZone;
    assert (exists rr :: rr in m.answers && IsAnswer(rr, qname, qtype)) <==>
           exists rr :: rr in m.answers && Lower(rr.name) == qname && rr.rtype == qtype;
    assert (exists rr :: rr in m.answers && IsAnswer(rr, qname, TYPE_CNAME)) <==>
           exists rr :: rr in m.answers && Lower(rr.name) == qname && rr.rtype == 5;
    assert (exists rr :: rr in m.answers && IsDnameAbove(rr, qname)) <==>
           exists rr :: rr in m.answers && rr.rtype == 39 && HasSuffix(qname, [DOT] + Lower(rr.name));
    assert (exists rr :: rr in m.authority && IsCoveringSOA(rr, qname)) <==>
           exists rr :: rr in m.authority && rr.rtype == 6 && InZone(Lower(TrimDot(qname)), Lower(TrimDot(rr.name)));
  }

  /** classifyResponse. A message has as many answers as its header says until the bailiwick
      filter drops some, so the test of the count never changes the outcome. */
  method ClassifyResponse(m: Response, qname: Text, qtype: u16) returns (k: Kind)
    ensures k == KindOf(m, qname, qtype)
  {
    hide IsAnswer, IsDnameAbove, IsCoveringSOA;
    if m.rcode == RCODE_NXDOMAIN {
      return NXDomain;
    }
    if m.rcode == RCODE_SERVFAIL || m.rcode == RCODE_REFUSED || m.rcode == RCODE_FORMERR {
      return ServFail;
    }
    var direct, alias, dname := ScanAnswers(m.answers, qname, qtype);
    if !m.aa && (direct || alias || dname) {
      return ServFail;
    }
    if direct { return Answer; }
    if alias { return Alias; }
    if dname { return Dname; }
    var ns, soa := ScanAuthority(m.authority, qname);
    if ns && !soa { return Referral; }
    if soa { return NoData; }
    k := ServFail;
  }

  method ScanAnswers(rrs: seq<RR>, qname: Text, qtype: u16) returns (direct: bool, alias: bool, dname: bool)
    ensures direct == exists rr :: rr in rrs && IsAnswer(rr, qname, qtype)
    ensures alias == exists rr :: rr in rrs && IsAnswer(rr, qname, TYPE_CNAME)
    ensures dname == exists rr :: rr in rrs && IsDnameAbove(rr, qname)
  {
    hide IsAnswer, IsDnameAbove;
    direct, alias, dname := false, false, false;
    for i := 0 to |rrs|
      invariant direct == exists j :: 0 <= j < i && IsAnswer(rrs[j], qname, qtype)
      invariant alias == exists j :: 0 <= j < i && IsAnswer(rrs[j], qname, TYPE_CNAME)
      invariant dname == exists j :: 0 <= j < i && IsDnameAbove(rrs[j], qname)
    {
      if IsAnswer(rrs[i], qname, qtype) { direct := true; }
      if IsAnswer(rrs[i], qname, TYPE_CNAME) { alias := true; }
      if IsDnameAbove(rrs[i], qname) { dname := true; }
    }
  }

  method ScanAuthority(rrs: seq<RR>, qname: Text) returns (ns: bool, soa: bool)
    ensures ns == exists rr :: rr in rrs && rr.rtype == TYPE_NS
    ensures soa == exists rr :: rr in rrs && IsCoveringSOA(rr, qname)
  {
    hide IsCoveringSOA;
    ns, soa := false, false;
    for i := 0 to |rrs|
      invariant ns == exists j :: 0 <= j < i && rrs[j].rtype == TYPE_NS
      invariant soa == exists j :: 0 <= j < i && IsCoveringSOA(rrs[j], qname)
    {
      if rrs[i].rtype == TYPE_NS { ns := true; }
      if IsCoveringSOA(rrs[i], qname) { soa := true; }
    }
  }

  // ---- aliases ----

  /** The name in CNAME, DNAME or NS RDATA, lowercased, unless it is malformed or the root. */
  function TargetIn(rr: RR): (t: Text) {
    match NsHost(rr)
    case None => []
    case Some(name) => name
  }

  /** extractCNAMETarget: the first alias at the name with a usable target; empty if none. */
  function CnameTarget(answers: seq<RR>, qname: Text): Text {
    if answers == [] then []
    else if IsAnswer(answers[0], qname, TYPE_CNAME) && TargetIn(answers[0]) != [] then TargetIn(answers[0])
    else CnameTarget(answers[1..], qname)
  }

  method ExtractCNAMETarget(m: Response, qname: Text) returns (target: Text)
    ensures target == CnameTarget(m.answers, qname)
  {
    hide TargetIn, IsAnswer;
    assert m.answers[0..] == m.answers;
    for i := 0 to |m.answers|
      invariant CnameTarget(m.answers, qname) == CnameTarget(m.answers[i..], qname)
    {
      assert m.answers[i..][1..] == m.answers[i + 1..];
      if IsAnswer(m.answers[i], qname, TYPE_CNAME) {
        var t := TargetIn(m.answers[i]);
        if t != [] {
          return t;
        }
      }
    }
    target := [];
  }

  /** The record is a CNAME at the name whose target reads as the given name, not the root. */
  predicate AliasTo(rr: RR, qname: Text, target: Text) {
    && rr.rtype == 5 && Lower(rr.name) == qname
    && match DecodeName(rr.rdata, 0) { case Ok((t, _)) => t != [] && Lower(t) == target case Err(_) => false }
  }

  ghost predicate HasAlias(rr: RR, qname: Text) {
    exists target :: AliasTo(rr, qname, target)
  }

  /** The target is that of the first such record, and there is none exactly if no record is. */
  lemma {:induction false} CnameTargetIs(answers: seq<RR>, qname: Text)
    ensures CnameTarget(answers, qname) == [] <==> forall rr :: rr in answers ==> !HasAlias(rr, qname)
    ensures CnameTarget(answers, qname) != [] ==>
              exists i :: 0 <= i < |answers| && AliasTo(answers[i], qname, CnameTarget(answers, qname))
                          && forall j :: 0 <= j < i ==> !HasAlias(answers[j], qname)
  {
    if answers != [] {
      var rest := answers[1..];
      CnameTargetIs(rest, qname);
      FirstAlias(answers[0], qname);
      hide TargetIn, IsAnswer, AliasTo, HasAlias;
      assert forall rr :: rr in answers <==> rr == answers[0] || rr in rest;
      if !HasAlias(answers[0], qname) && CnameTarget(rest, qname) != [] {
        var i :| 0 <= i < |rest| && AliasTo(rest[i], qname, CnameTarget(rest, qname))
                 && forall j :: 0 <= j < i ==> !HasAlias(rest[j], qname);
        assert answers[i + 1] == rest[i] && forall j :: 0 < j < i + 1 ==> answers[j] == rest[j - 1];
      }
    }
  }

  lemma FirstAlias(rr: RR, qname: Text)
    ensures HasAlias(rr, qname) <==> IsAnswer(rr, qname, TYPE_CNAME) && TargetIn(rr) != []
    ensures HasAlias(rr, qname) ==> AliasTo(rr, qname, TargetIn(rr))
  {
    hide DecodeName;
    if IsAnswer(rr, qname, TYPE_CNAME) && TargetIn(rr) != [] { assert AliasTo(rr, qname, TargetIn(rr)); }
  }

  /** extractDNAMETarget: the owner suffix of the name replaced by the target of the first DNAME
      above the name that has a usable one. */
  function DnameTarget(answers: seq<RR>, qname: Text): Text {
    if answers == [] then []
    else if IsDnameAbove(answers[0], qname) && TargetIn(answers[0]) != [] then
      qname[..|qname| - |answers[0].name|] + TargetIn(answers[0])
    else DnameTarget(answers[1..], qname)
  }

  method ExtractDNAMETarget(m: Response, qname: Text) returns (target: Text)
    ensures target == DnameTarget(m.answers, qname)
  {
    hide TargetIn;
    assert m.answers[0..] == m.answers;
    for i := 0 to |m.answers|
      invariant DnameTarget(m.answers, qname) == DnameTarget(m.answers[i..], qname)
    {
      assert m.answers[i..][1..] == m.answers[i + 1..];
      var rr := m.answers[i];
      if IsDnameAbove(rr, qname) {
        var t := TargetIn(rr);
        if t != [] {
          var owner := Lower(rr.name);
          var prefix := qname[..|qname| - |owner| - 1];
          assert qname[|qname| - |owner| - 1..] == [DOT] + owner;
          assert qname[..|qname| - |owner|] == prefix + [DOT];
          return prefix + [DOT] + t;
        }
      }
    }
    target := [];
  }

  lemma DnameStep(answers: seq<RR>, qname: Text)
    requires DnameTarget(answers, qname) != []
    ensures answers != []
    ensures DnameTarget(answers, qname)
         == if IsDnameAbove(answers[0], qname) && TargetIn(answers[0]) != []
            then qname[..|qname| - |answers[0].name|] + TargetIn(answers[0]) else DnameTarget(answers[1..], qname)
  {
    hide TargetIn;
  }

  /** The synthesised name is the query name with the DNAME owner swapped for its target. */
  lemma {:induction false} DnameSubstitutes(answers: seq<RR>, qname: Text) returns (rr: RR, prefix: Text)
    requires DnameTarget(answers, qname) != []
    ensures rr in answers && rr.rtype == TYPE_DNAME && TargetIn(rr) != []
    ensures qname == prefix + [DOT] + Lower(rr.name)
    ensures DnameTarget(answers, qname) == prefix + [DOT] + TargetIn(rr)
  {
    hide TargetIn, DnameTarget;
    DnameStep(answers, qname);
    if IsDnameAbove(answers[0], qname) && TargetIn(answers[0]) != [] {
      rr := answers[0];
      var n := |qname| - |rr.name|;
      prefix := qname[..n - 1];
      assert qname[n - 1..] == [DOT] + Lower(rr.name);
      assert qname == prefix + qname[n - 1..];
      assert qname[..n] == prefix + [DOT];
    } else {
      rr, prefix := DnameSubstitutes(answers[1..], qname);
    }
  }

  /** A record of an alias hop that is passed on: an alias or its signature. */
  predicate IsHopRecord(rr: RR, qname: Text, dname: bool) {
    var sig := if rr.rtype == TYPE_RRSIG then Validator.ParseRRSIG(rr.rdata) else None;
    if dname then
      rr.rtype in {TYPE_DNAME, TYPE_CNAME} || (sig.Some? && sig.value.typeCovered in {TYPE_DNAME, TYPE_CNAME})
    else
      Lower(rr.name) == qname && (rr.rtype == TYPE_CNAME || (sig.Some? && sig.value.typeCovered == TYPE_CNAME))
  }

  function HopRecords(answers: seq<RR>, qname: Text, dname: bool): seq<RR> {
    if answers == [] then []
    else (if IsHopRecord(answers[0], qname, dname) then [answers[0]] else []) + HopRecords(answers[1..], qname, dname)
  }

  /** extractCNAMERecords, and the same loop for DNAME hops. */
  method ExtractHopRecords(m: Response, qname: Text, dname: bool) returns (rrs: seq<RR>)
    ensures rrs == HopRecords(m.answers, qname, dname)
  {
    hide IsHopRecord, HopRecords;
    rrs := [];
    assert m.answers[0..] == m.answers;
    for i := 0 to |m.answers|
      invariant rrs + HopRecords(m.answers[i..], qname, dname) == HopRecords(m.answers, qname, dname)
    {
      HopStep(m.answers, i, qname, dname);
      ghost var rest := HopRecords(m.answers[i + 1..], qname, dname);
      if IsHopRecord(m.answers[i], qname, dname) {
        assert rrs + ([m.answers[i]] + rest) == (rrs + [m.answers[i]]) + rest;
        rrs := rrs + [m.answers[i]];
      } else {
        assert [] + rest == rest;
      }
    }
    NoHops(m.answers[|m.answers|..], qname, dname);
  }

  lemma HopStep(answers: seq<RR>, i: nat, qname: Text, dname: bool)
    requires i < |answers|
    ensures HopRecords(answers[i..], qname, dname)
         == (if IsHopRecord(answers[i], qname, dname) then [answers[i]] else [])
            + HopRecords(answers[i + 1..], qname, dname)
  {
    hide IsHopRecord;
    assert answers[i..][1..] == answers[i + 1..];
  }

  lemma NoHops(answers: seq<RR>, qname: Text, dname: bool)
    requires answers == []
    ensures HopRecords(answers, qname, dname) == []
  {}

  /** The records passed on are, each as often as in the reply: behind an alias, the CNAME records (5)
      at the name and their signatures (46); behind a DNAME, all DNAME (39) and CNAME records and
      the signatures over such. */
  lemma {:induction false} HopRecordsIs(answers: seq<RR>, qname: Text, dname: bool, x: RR)
    ensures multiset(HopRecords(answers, qname, dname))[x]
         == if PassedOn(x, qname, dname) then multiset(answers)[x] else 0
  {
    PassedOnIs(x, qname, dname);
    if answers != [] {
      hide IsHopRecord, PassedOn;
      HopRecordsIs(answers[1..], qname, dname, x);
      assert answers == [answers[0]] + answers[1..];
    }
  }

  predicate PassedOn(rr: RR, qname: Text, dname: bool) {
    var covered := if rr.rtype != 46 then None
                   else match Validator.ParseRRSIG(rr.rdata) { case None => None case Some(s) => Some(s.typeCovered) };
    if dname then rr.rtype in {5, 39} || covered == Some(5) || covered == Some(39)
    else Lower(rr.name) == qname && (rr.rtype == 5 || covered == Some(5))
  }

  lemma PassedOnIs(rr: RR, qname: Text, dname: bool)
    ensures PassedOn(rr, qname, dname) <==> IsHopRecord(rr, qname, dname)
  {
    hide Validator.ParseRRSIG, Lower;
  }

  lemma {:induction false} HopRecordsWithin(answers: seq<RR>, qname: Text, dname: bool, rr: RR)
    requires rr in HopRecords(answers, qname, dname)
    ensures rr in answers && IsHopRecord(rr, qname, dname)
  {
    hide IsHopRecord;
    if rr in HopRecords(answers[1..], qname, dname) { HopRecordsWithin(answers[1..], qname, dname, rr); }
  }

  // ---- delegation ----

  datatype Delegation = Delegation(host: Text, ipv4: Text, ipv6: Text, ttl4: u32, ttl6: u32)

  /** How addresses are read and printed, ParseA and ParseAAAA with String, and how a printed
      IPv6 address is read back: net.ParseIP with To16. */
  datatype Addresses = Addresses(v4: Text -> Option<Text>, v6: Text -> Option<Text>, ip16: Text -> Option<Text>)

  /** The last address record at the host that parses, with its TTL; empty if there is none. */
  function LastGlue(rrs: seq<RR>, host: Text, rtype: u16, parse: Text -> Option<Text>): (Text, u32) {
    if rrs == [] then ([], 0)
    else
      var last := rrs[|rrs| - 1];
      if last.rtype == rtype && Lower(last.name) == host && parse(last.rdata).Some?
      then (parse(last.rdata).value, last.ttl)
      else LastGlue(rrs[..|rrs| - 1], host, rtype, parse)
  }

  function ServerAt(host: Text, additional: seq<RR>, a: Addresses): (d: Delegation)
    ensures d.host == host
  {
    var v4, v6 := LastGlue(additional, host, TYPE_A, a.v4), LastGlue(additional, host, TYPE_AAAA, a.v6);
    Delegation(host, v4.0, v6.0, v4.1, v6.1)
  }

  /** A glue address comes from a record at the host. */
  lemma {:induction false} GlueFrom(rrs: seq<RR>, host: Text, rtype: u16, parse: Text -> Option<Text>)
    requires LastGlue(rrs, host, rtype, parse).0 != []
    ensures exists rr :: rr in rrs && rr.rtype == rtype && Lower(rr.name) == host
  {
    var last := rrs[|rrs| - 1];
    if !(last.rtype == rtype && Lower(last.name) == host && parse(last.rdata).Some?) {
      GlueFrom(rrs[..|rrs| - 1], host, rtype, parse);
    }
  }

  /** The owner of the last NS record, lowercased; empty if there is none. */
  function LastNsOwner(authority: seq<RR>): Text {
    if authority == [] then []
    else
      var last := authority[|authority| - 1];
      if last.rtype == TYPE_NS then Lower(last.name) else LastNsOwner(authority[..|authority| - 1])
  }

  lemma {:induction false} LastNsOwnerFrom(authority: seq<RR>)
    requires exists rr :: rr in authority && rr.rtype == TYPE_NS
    ensures exists rr :: rr in authority && rr.rtype == TYPE_NS && LastNsOwner(authority) == Lower(rr.name)
  {
    var n := |authority| - 1;
    if authority[n].rtype != TYPE_NS {
      var rr :| rr in authority && rr.rtype == TYPE_NS;
      assert authority == authority[..n] + [authority[n]];
      LastNsOwnerFrom(authority[..n]);
    }
  }

  function HostsOf(servers: seq<Delegation>): set<Text> {
    set d | d in servers :: d.host
  }

  ghost predicate DistinctHosts(servers: seq<Delegation>) {
    forall i, j :: 0 <= i < j < |servers| ==> servers[i].host != servers[j].host
  }

  /** extractDelegation: one server for each host the NS records name, in any order, with its
      glue, and the owner of the last NS record. */
  method ExtractDelegation(m: Response, a: Addresses) returns (servers: seq<Delegation>, zone: Text)
    ensures HostsOf(servers) == NsHosts(m.authority) - {[]} && DistinctHosts(servers)
    ensures forall d :: d in servers ==> d == ServerAt(d.host, m.additional, a)
    ensures zone == LastNsOwner(m.authority)
  {
    hide NsHosts, ServerAt, DistinctHosts;
    var named;
    named, zone := CollectServers(m.authority);
    var found := CollectGlue(named, m.additional, a);
    servers := List(found);
    assert found.Keys == NsHosts(m.authority) - {[]};
  }

  method List(found: map<Text, Delegation>) returns (servers: seq<Delegation>)
    requires forall h :: h in found ==> found[h].host == h
    ensures HostsOf(servers) == found.Keys && DistinctHosts(servers)
    ensures forall d :: d in servers ==> d.host in found && d == found[d.host]
  {
    hide HostsOf, DistinctHosts;
    servers := [];
    NothingListed();
    var left := found.Keys;
    while left != {}
      invariant left <= found.Keys && HostsOf(servers) == found.Keys - left && DistinctHosts(servers)
      invariant forall d :: d in servers ==> d.host in found && d == found[d.host]
      decreases |left|
    {
      var h :| h in left;
      left := left - {h};
      ListStep(servers, found[h]);
      servers := servers + [found[h]];
    }
  }

  lemma NothingListed()
    ensures HostsOf([]) == {} && DistinctHosts([])
  {}

  lemma ListStep(servers: seq<Delegation>, d: Delegation)
    requires DistinctHosts(servers) && d.host !in HostsOf(servers)
    ensures HostsOf(servers + [d]) == HostsOf(servers) + {d.host} && DistinctHosts(servers + [d])
  {
    var more := servers + [d];
    assert forall x :: x in more <==> x in servers || x == d;
    assert forall i :: 0 <= i < |servers| ==> servers[i].host in HostsOf(servers);
  }

  method CollectServers(authority: seq<RR>) returns (named: map<Text, Delegation>, zone: Text)
    ensures forall h :: h in named <==> h in NsHosts(authority) && h != []
    ensures forall h :: h in named ==> named[h] == Delegation(h, [], [], 0, 0)
    ensures zone == LastNsOwner(authority)
  {
    hide NsHost, LastNsOwner;
    named, zone := map[], [];
    NoNsOwner();
    assert authority[0..] == authority && authority[..0] == [];
    for i := 0 to |authority|
      invariant forall h ::
                  h in named || (h in NsHosts(authority[i..]) && h != []) <==> h in NsHosts(authority) && h != []
      invariant forall h :: h in named ==> named[h] == Delegation(h, [], [], 0, 0)
      invariant zone == LastNsOwner(authority[..i])
    {
      assert authority[i..][1..] == authority[i + 1..];
      NsOwnerStep(authority, i);
      var rr := authority[i];
      if rr.rtype == TYPE_NS {
        zone := Lower(rr.name);
        var host := NsHost(rr);
        if host.Some? && host.value != [] && host.value !in named {
          named := named[host.value := Delegation(host.value, [], [], 0, 0)];
        }
      }
    }
    assert authority[..|authority|] == authority;
  }

  lemma NoNsOwner()
    ensures LastNsOwner([]) == []
  {}

  lemma NsOwnerStep(authority: seq<RR>, i: nat)
    requires i < |authority|
    ensures LastNsOwner(authority[..i + 1])
         == if authority[i].rtype == TYPE_NS then Lower(authority[i].name) else LastNsOwner(authority[..i])
  {
    assert authority[..i + 1][..i] == authority[..i];
  }

  method CollectGlue(named: map<Text, Delegation>, additional: seq<RR>, a: Addresses)
    returns (found: map<Text, Delegation>)
    requires forall h :: h in named ==> named[h] == Delegation(h, [], [], 0, 0)
    ensures found.Keys == named.Keys && forall h :: h in found ==> found[h] == ServerAt(h, additional, a)
  {
    hide ServerAt;
    found := named;
    forall h ensures ServerAt(h, [], a) == Delegation(h, [], [], 0, 0) { NoGlueAt(h, a); }
    assert additional[..0] == [];
    for i := 0 to |additional|
      invariant found.Keys == named.Keys && forall h :: h in found ==> found[h] == ServerAt(h, additional[..i], a)
    {
      var rr := additional[i];
      forall h ensures ServerAt(h, additional[..i + 1], a) == WithRecord(ServerAt(h, additional[..i], a), rr, a) {
        ServerStep(h, additional, i, a);
      }
      var host := Lower(rr.name);
      if rr.rtype != TYPE_OPT && host in found {
        found := found[host := WithRecord(found[host], rr, a)];
      }
    }
    assert additional[..|additional|] == additional;
  }

  /** One address record updates the server at its name. */
  function WithRecord(d: Delegation, rr: RR, a: Addresses): Delegation {
    if Lower(rr.name) != d.host then d
    else if rr.rtype == TYPE_A && a.v4(rr.rdata).Some? then d.(ipv4 := a.v4(rr.rdata).value, ttl4 := rr.ttl)
    else if rr.rtype == TYPE_AAAA && a.v6(rr.rdata).Some? then d.(ipv6 := a.v6(rr.rdata).value, ttl6 := rr.ttl)
    else d
  }

  lemma NoGlueAt(host: Text, a: Addresses)
    ensures ServerAt(host, [], a) == Delegation(host, [], [], 0, 0)
  {}

  lemma ServerStep(host: Text, additional: seq<RR>, i: nat, a: Addresses)
    requires i < |additional|
    ensures ServerAt(host, additional[..i + 1], a) == WithRecord(ServerAt(host, additional[..i], a), additional[i], a)
  {
    assert additional[..i + 1][..i] == additional[..i];
  }

  // ---- glue ----

  /** A 64-bit signed integer. */
  function Wrap64(x: int): int {
    (x + 0x8000_0000_0000_0000) % 0x1_0000_0000_0000_0000 - 0x8000_0000_0000_0000
  }

  /** The digit loop of parseIPv4Bytes, which takes any octet for a digit. */
  function Digits(p: Text, val: int): int
    decreases |p|
  {
    if p == [] then val else Digits(p[1..], Wrap64(val * 10 + (p[0] as int) - 48))
  }

  /** parseIPv4Bytes: four parts, none above 255. */
  function ParseIPv4(ip: Text): (r: Option<Text>)
    ensures r.Some? ==> |r.value| == 4
  {
    var parts := Split(ip);
    if |parts| != 4 || exists i :: 0 <= i < 4 && Digits(parts[i], 0) > 255 then None else Some(Octets(parts))
  }

  function Octets(parts: seq<Text>): (r: Text)
    ensures |r| == |parts| && forall i :: 0 <= i < |parts| ==> r[i] == Digits(parts[i], 0) % 256
  {
    seq(|parts|, i requires 0 <= i < |parts| => Digits(parts[i], 0) % 256)
  }

  method ParseIPv4Bytes(ip: Text) returns (r: Option<Text>)
    ensures r == ParseIPv4(ip)
  {
    hide Split, Digits;
    var parts := Split(ip);
    if |parts| != 4 {
      return None;
    }
    var result: Text := [];
    for i := 0 to 4
      invariant |result| == i && forall j :: 0 <= j < i ==>
                  Digits(parts[j], 0) <= 255 && result[j] == Digits(parts[j], 0) % 256
    {
      var val := ReadDigits(parts[i]);
      if val > 255 {
        return None;
      }
      result := result + [val % 256];
    }
    assert result == Octets(parts);
    r := Some(result);
  }

  method ReadDigits(p: Text) returns (val: int)
    ensures val == Digits(p, 0)
  {
    val := 0;
    assert p[0..] == p;
    for i := 0 to |p|
      invariant Digits(p[i..], val) == Digits(p, 0)
    {
      assert p[i..][1..] == p[i + 1..];
      val := Wrap64(val * 10 + (p[i] as int) - 48);
    }
    assert p[|p|..] == [];
  }

  /** The decimal form of an octet, as net.IP prints it. */
  function Decimal(b: byte): (t: Text)
    ensures 1 <= |t| <= 3 && DotFree(t)
  {
    if b < 10 then [48 + b]
    else if b < 100 then [48 + b / 10, 48 + b % 10]
    else [48 + b / 100, 48 + b / 10 % 10, 48 + b % 10]
  }

  lemma DecimalReads(b: byte)
    ensures Digits(Decimal(b), 0) == b
  {
    hide Digits;
    var t := Decimal(b);
    if b < 10 {
      OneDigit(t, b, 0);
    } else if b < 100 {
      TwoDigits(t, b / 10, b % 10, 0);
    } else {
      var rest: Text := t[1..];
      assert rest == [t[1], t[2]];
      DigitStep(t, 0, b / 100);
      TwoDigits(rest, b / 10 % 10, b % 10, b / 100);
    }
  }

  lemma TwoDigits(t: Text, ten: int, one: int, val: int)
    requires |t| == 2 && t[0] == 48 + ten && t[1] == 48 + one && 0 <= val <= 9 && 0 <= ten <= 9 && 0 <= one <= 9
    ensures Digits(t, val) == (val * 10 + ten) * 10 + one
  {
    hide Digits;
    var rest: Text := t[1..];
    assert rest == [t[1]];
    DigitStep(t, val, ten);
    OneDigit(rest, one, val * 10 + ten);
  }

  lemma DigitStep(t: Text, val: int, digit: int)
    requires t != [] && t[0] == 48 + digit && 0 <= val <= 1000 && 0 <= digit <= 9
    ensures Digits(t, val) == Digits(t[1..], val * 10 + digit)
  {}

  lemma OneDigit(t: Text, digit: int, val: int)
    requires |t| == 1 && t[0] == 48 + digit && 0 <= val <= 1000 && 0 <= digit <= 9
    ensures Digits(t, val) == val * 10 + digit
  {
    DigitStep(t, val, digit);
    assert t[1..] == [];
  }

  predicate IsDecimal(t: Text) {
    1 <= |t| <= 3 && forall i :: 0 <= i < |t| ==> 48 <= t[i] <= 57
  }

  /** The number that up to three digits stand for. */
  function Value(t: Text): int {
    if t == [] then 0 else Value(t[..|t| - 1]) * 10 + t[|t| - 1] - 48
  }

  lemma DigitsAreValue(t: Text)
    requires IsDecimal(t)
    ensures Digits(t, 0) == Value(t) && 0 <= Value(t) <= 999
  {
    hide Wrap64;
    var a: Text := t[..1];
    assert Value(a[..0]) == 0 && Value(a) == t[0] - 48;
    if |t| == 1 {
      assert t == a;
      OneDigit(t, t[0] - 48, 0);
    } else {
      var b: Text := t[..2];
      assert b[..1] == a && Value(b) == Value(a) * 10 + t[1] - 48;
      DigitStep(t, 0, t[0] - 48);
      if |t| == 2 {
        assert t == b;
        OneDigit(t[1..], t[1] - 48, t[0] - 48);
      } else {
        assert t[..|t| - 1] == b && t[1..][1..] == t[2..];
        DigitStep(t[1..], t[0] - 48, t[1] - 48);
        OneDigit(t[2..], t[2] - 48, (t[0] - 48) * 10 + t[1] - 48);
      }
    }
  }

  /** Of dotted decimals exactly those of four numbers up to 255 are read, as these numbers. */
  lemma ParseIPv4Is(parts: seq<Text>, octets: Text)
    requires |parts| >= 1 && forall i :: 0 <= i < |parts| ==> IsDecimal(parts[i])
    ensures ParseIPv4(Join(parts)) == Some(octets)
       <==> |parts| == 4 && |octets| == 4 && forall i :: 0 <= i < 4 ==> octets[i] == Value(parts[i])
  {
    hide Digits, Join, Split, Value;
    forall i | 0 <= i < |parts| ensures Digits(parts[i], 0) == Value(parts[i]) && 0 <= Value(parts[i]) <= 999 {
      DigitsAreValue(parts[i]);
    }
    SplitJoin(parts);
    if |parts| == 4 && |octets| == 4 && forall i :: 0 <= i < 4 ==> octets[i] == Value(parts[i]) {
      assert Octets(parts) == octets;
    }
  }

  /** A printed IPv4 address is read back as its four octets. */
  lemma ParseIPv4Reads(a: byte, b: byte, c: byte, d: byte)
    ensures ParseIPv4(Join([Decimal(a), Decimal(b), Decimal(c), Decimal(d)])) == Some([a, b, c, d])
  {
    hide Decimal, Digits, Join, Split;
    var parts := [Decimal(a), Decimal(b), Decimal(c), Decimal(d)];
    SplitJoin(parts);
    DecimalReads(a);
    DecimalReads(b);
    DecimalReads(c);
    DecimalReads(d);
    assert Octets(parts) == [a, b, c, d];
  }

  /** The records cached for one server: an address record for each address that is read back. */
  function GlueOf(d: Delegation, a: Addresses): (rrs: set<RR>)
    ensures forall rr :: rr in rrs ==> rr.name == d.host && (d.ipv4 != [] || d.ipv6 != [])
  {
    (if d.ipv4 != [] && ParseIPv4(d.ipv4).Some?
     then {RR(d.host, TYPE_A, 1, d.ttl4, 4, ParseIPv4(d.ipv4).value)} else {})
    + (if d.ipv6 != [] && a.ip16(d.ipv6).Some?
       then {RR(d.host, TYPE_AAAA, 1, d.ttl6, 16, a.ip16(d.ipv6).value)} else {})
  }

  /** The A record (1) of four octets and the AAAA record (28) of sixteen, each with its own TTL, for
      the addresses that are there and parse; nothing else. */
  lemma GlueIs(d: Delegation, a: Addresses, rr: RR)
    ensures rr in GlueOf(d, a)
       <==> || (&& d.ipv4 != [] && ParseIPv4(d.ipv4) == Some(rr.rdata)
                && rr == RR(d.host, 1, 1, d.ttl4, 4, rr.rdata))
            || (&& d.ipv6 != [] && a.ip16(d.ipv6) == Some(rr.rdata)
                && rr == RR(d.host, 28, 1, d.ttl6, 16, rr.rdata))
  {
    hide ParseIPv4;
  }

  // ---- query name minimisation ----

  /** minimizeQName */
  function MinimizeQName(full: Text, qtype: u16, zone: Text): (Text, u16) {
    if full == [] || qtype == TYPE_DS then (full, qtype)
    else if zone == [] then
      var labels := Split(full);
      (labels[|labels| - 1], TYPE_NS)
    else if !HasSuffix(full, [DOT] + zone) then (full, qtype)
    else
      var labels := Split(full[..|full| - |zone| - 1]);
      if |labels| <= 1 then (full, qtype) else (labels[|labels| - 1] + [DOT] + zone, TYPE_NS)
  }

  /** The asked name shows the server of a zone one label more than the zone has. */
  ghost predicate OneMoreLabel(asked: Text, full: Text, zone: Text) {
    && LabelSuffix(Split(full), Split(asked))
    && |Split(asked)| == (if zone == [] then 0 else |Split(zone)|) + 1
  }

  /** A minimised query reveals exactly one label below the zone, and only the last step, where
      at most one label is left or the zone is not above the name, asks the full question. */
  lemma MinimizeReveals(full: Text, qtype: u16, zone: Text)
    ensures var q := MinimizeQName(full, qtype, zone);
            q == (full, qtype) || (q.1 == TYPE_NS && OneMoreLabel(q.0, full, zone))
  {
    hide Split;
    if full != [] && qtype != TYPE_DS {
      if zone == [] {
        var labels := Split(full);
        JoinSplit(full);
        SplitOfDotFree(labels[|labels| - 1]);
        assert labels[|labels| - 1..] == [labels[|labels| - 1]];
      } else if HasSuffix(full, [DOT] + zone) {
        var front := full[..|full| - |zone| - 1];
        var labels := Split(front);
        assert full == front + [DOT] + zone;
        SplitConcat(front, zone);
        JoinSplit(front);
        var last := labels[|labels| - 1];
        SplitConcat(last, zone);
        SplitOfDotFree(last);
        var all := labels + Split(zone);
        assert all[|labels| - 1..] == [last] + Split(zone);
      }
    }
  }

  /** Below a zone at or above the name, a question is minimised unless the name is the root, the
      type is DS (43), or at most one label is left below a zone that is not the root; then it asks
      for NS (2) and one label more than the zone has. */
  lemma MinimizeIs(full: Text, qtype: u16, zone: Text)
    ensures var q := MinimizeQName(full, qtype, zone);
            var n := if zone == [] then 0 else |Split(zone)|;
            var minimised := && full != [] && qtype != 43
                             && (zone == [] || (LabelSuffix(Split(full), Split(zone)) && |Split(full)| > n + 1));
            && (minimised ==> q.1 == 2 && OneMoreLabel(q.0, full, zone) && (zone == [] || InZone(q.0, zone)))
            && (!minimised ==> q == (full, qtype))
  {
    hide Split;
    if full != [] && qtype != TYPE_DS {
      if zone == [] {
        var labels := Split(full);
        JoinSplit(full);
        SplitOfDotFree(labels[|labels| - 1]);
        assert labels[|labels| - 1..] == [labels[|labels| - 1]];
      } else {
        InZoneIsLabelSuffix(full, zone);
        if HasSuffix(full, [DOT] + zone) {
          MinimizeBelow(full, qtype, zone);
        } else if full == zone {
          assert |Split(full)| == |Split(zone)|;
        }
      }
    }
  }

  lemma MinimizeBelow(full: Text, qtype: u16, zone: Text)
    requires full != [] && zone != [] && qtype != TYPE_DS && HasSuffix(full, [DOT] + zone)
    ensures var q := MinimizeQName(full, qtype, zone);
            if |Split(full)| > |Split(zone)| + 1
            then q.1 == 2 && OneMoreLabel(q.0, full, zone) && InZone(q.0, zone) else q == (full, qtype)
  {
    hide Split, LabelSuffix, HasSuffix;
    var front := FrontOf(full, zone);
    var labels := Split(front);
    LastLabel(labels, zone, full);
  }

  lemma FrontOf(full: Text, zone: Text) returns (front: Text)
    requires HasSuffix(full, [DOT] + zone)
    ensures front == full[..|full| - |zone| - 1]
    ensures Split(full) == Split(front) + Split(zone) && AllDotFree(Split(front))
  {
    hide Split;
    front := full[..|full| - |zone| - 1];
    assert full == front + [DOT] + zone;
    SplitConcat(front, zone);
    JoinSplit(front);
  }

  lemma LastLabel(labels: seq<Text>, zone: Text, full: Text)
    requires |labels| >= 1 && AllDotFree(labels) && zone != [] && Split(full) == labels + Split(zone)
    ensures var asked := labels[|labels| - 1] + [DOT] + zone; OneMoreLabel(asked, full, zone) && InZone(asked, zone)
  {
    hide Split;
    var last := labels[|labels| - 1];
    SplitConcat(last, zone);
    SplitOfDotFree(last);
    var asked, all := last + [DOT] + zone, labels + Split(zone);
    assert all[|labels| - 1..] == [last] + Split(zone);
    assert asked[|last|..] == [DOT] + zone;
  }
}
