/** Dropping what a server has no authority for (security/bailiwick.go). */
module Bailiwick {
  import opened Bytes
  import opened Labels
  import opened NameWire
  import opened Records

  /** The upstream message as the resolver sees it. */
  datatype Response = Response(rcode: byte, aa: bool, answers: seq<RR>, authority: seq<RR>, additional: seq<RR>)

  predicate Within(rr: RR, zone: Text) {
    InZone(Lower(rr.name), zone)
  }

  function OnlyWithin(rrs: seq<RR>, zone: Text): seq<RR> {
    if rrs == [] then []
    else (if Within(rrs[0], zone) then [rrs[0]] else []) + OnlyWithin(rrs[1..], zone)
  }

  /** The host an NS record names, lowercased. */
  function NsHost(rr: RR): Option<Text> {
    match DecodeName(rr.rdata, 0)
    case Err(_) => None
    case Ok((name, _)) => Some(Lower(name))
  }

  /** The hosts that the NS records of a section name. */
  function NsHosts(rrs: seq<RR>): set<Text> {
    if rrs == [] then {}
    else (if rrs[0].rtype == TYPE_NS && NsHost(rrs[0]).Some? then {NsHost(rrs[0]).value} else {}) + NsHosts(rrs[1..])
  }

  /** OPT stays; anything else must be at a named server inside the zone. */
  predicate IsGlue(rr: RR, hosts: set<Text>, zone: Text) {
    rr.rtype == TYPE_OPT || (Lower(rr.name) in hosts && Within(rr, zone))
  }

  function OnlyGlue(rrs: seq<RR>, hosts: set<Text>, zone: Text): seq<RR> {
    if rrs == [] then []
    else (if IsGlue(rrs[0], hosts, zone) then [rrs[0]] else []) + OnlyGlue(rrs[1..], hosts, zone)
  }

  /** SanitizeBailiwick as a function of the message. */
  function Sanitized(m: Response, zone: Text): Response {
    var z := Lower(zone);
    var authority := OnlyWithin(m.authority, z);
    m.(answers := OnlyWithin(m.answers, z), authority := authority,
       additional := OnlyGlue(m.additional, NsHosts(authority), z))
  }

  // ---- the filters keep exactly what they should, in order ----

  lemma {:induction false} OnlyWithinExact(rrs: seq<RR>, zone: Text, x: RR)
    ensures multiset(OnlyWithin(rrs, zone))[x] == if InZone(Lower(x.name), zone) then multiset(rrs)[x] else 0
  {
    if rrs != [] {
      OnlyWithinExact(rrs[1..], zone, x);
      assert rrs == [rrs[0]] + rrs[1..];
    }
  }

  lemma {:induction false} OnlyGlueExact(rrs: seq<RR>, hosts: set<Text>, zone: Text, x: RR)
    ensures multiset(OnlyGlue(rrs, hosts, zone))[x]
         == if x.rtype == 41 || (Lower(x.name) in hosts && InZone(Lower(x.name), zone)) then multiset(rrs)[x] else 0
  {
    hide InZone, Lower;
    if rrs != [] {
      OnlyGlueExact(rrs[1..], hosts, zone, x);
      assert rrs == [rrs[0]] + rrs[1..];
    }
  }

  /** The name at the front of RDATA, in lower case. */
  predicate Names(rdata: Text, host: Text) {
    match DecodeName(rdata, 0)
    case Err(_) => false
    case Ok((name, _)) => Lower(name) == host
  }

  lemma {:induction false} NsHostsExact(rrs: seq<RR>, host: Text)
    ensures host in NsHosts(rrs) <==>
              exists i :: 0 <= i < |rrs| && rrs[i].rtype == 2 && Names(rrs[i].rdata, host)
  {
    hide DecodeName;
    if rrs != [] {
      NsHostsExact(rrs[1..], host);
      if exists i :: 0 <= i < |rrs| && rrs[i].rtype == TYPE_NS && NsHost(rrs[i]) == Some(host) {
        var i :| 0 <= i < |rrs| && rrs[i].rtype == TYPE_NS && NsHost(rrs[i]) == Some(host);
        if i > 0 { assert rrs[1..][i - 1] == rrs[i]; }
      }
    }
  }

  /** In the root zone nothing is dropped from the first two sections. */
  lemma {:induction false} RootKeepsAll(rrs: seq<RR>)
    ensures OnlyWithin(rrs, []) == rrs
  {
    if rrs != [] { RootKeepsAll(rrs[1..]); }
  }

  // ---- in place ----

  lemma OnlyWithinStep(rrs: seq<RR>, i: nat, zone: Text)
    requires i < |rrs|
    ensures OnlyWithin(rrs[i..], zone)
         == (if Within(rrs[i], zone) then [rrs[i]] else []) + OnlyWithin(rrs[i + 1..], zone)
  {
    assert rrs[i..][1..] == rrs[i + 1..];
  }

  /** filterInZone: the kept records are moved to the front of the slice; n is its new length. */
  method FilterInZone(a: array<RR>, zone: Text) returns (n: nat)
    modifies a
    ensures n <= a.Length && a[..n] == OnlyWithin(old(a[..]), zone)
  {
    hide Within, OnlyWithin;
    ghost var was := a[..];
    if zone == [] {
      RootKeepsAll(was);
      return a.Length;
    }
    n := 0;
    assert was[0..] == was;
    for i := 0 to a.Length
      invariant n <= i && a[i..] == was[i..]
      invariant a[..n] + OnlyWithin(was[i..], zone) == OnlyWithin(was, zone)
    {
      OnlyWithinStep(was, i, zone);
      assert a[i] == a[i..][0] == was[i];
      if Within(a[i], zone) {
        ghost var front := a[..n];
        a[n] := a[i];
        n := n + 1;
        assert a[..n] == front + [was[i]];
      }
      assert a[i + 1..] == was[i..][1..];
    }
    assert OnlyWithin(was[a.Length..], zone) == [] by { NoneWithin(zone); }
  }

  lemma NoneWithin(zone: Text)
    ensures OnlyWithin([], zone) == []
  {}

  lemma OnlyGlueStep(rrs: seq<RR>, i: nat, hosts: set<Text>, zone: Text)
    requires i < |rrs|
    ensures OnlyGlue(rrs[i..], hosts, zone)
         == (if IsGlue(rrs[i], hosts, zone) then [rrs[i]] else []) + OnlyGlue(rrs[i + 1..], hosts, zone)
  {
    assert rrs[i..][1..] == rrs[i + 1..];
  }

  lemma NoGlue(hosts: set<Text>, zone: Text)
    ensures OnlyGlue([], hosts, zone) == []
  {}

  method FilterGlue(a: array<RR>, hosts: set<Text>, zone: Text) returns (n: nat)
    modifies a
    ensures n <= a.Length && a[..n] == OnlyGlue(old(a[..]), hosts, zone)
  {
    hide Within, OnlyGlue;
    ghost var was := a[..];
    n := 0;
    assert was[0..] == was;
    for i := 0 to a.Length
      invariant n <= i && a[i..] == was[i..]
      invariant a[..n] + OnlyGlue(was[i..], hosts, zone) == OnlyGlue(was, hosts, zone)
    {
      OnlyGlueStep(was, i, hosts, zone);
      assert a[i] == a[i..][0] == was[i];
      var keep := a[i].rtype == TYPE_OPT;
      if !keep {
        var name := Lower(a[i].name);
        keep := name in hosts && Within(a[i], zone);
      }
      if keep {
        ghost var front := a[..n];
        a[n] := a[i];
        n := n + 1;
        assert a[..n] == front + [was[i]];
      }
      assert a[i + 1..] == was[i..][1..];
    }
    assert OnlyGlue(was[a.Length..], hosts, zone) == [] by { NoGlue(hosts, zone); }
  }

  method CollectHosts(a: array<RR>, n: nat) returns (hosts: set<Text>)
    requires n <= a.Length
    ensures hosts == NsHosts(a[..n])
  {
    hide NsHost;
    hosts := {};
    ghost var rrs := a[..n];
    assert rrs[0..] == rrs;
    for i := 0 to n
      invariant hosts + NsHosts(rrs[i..]) == NsHosts(rrs)
    {
      assert rrs[i..][1..] == rrs[i + 1..];
      if a[i].rtype == TYPE_NS {
        var host := NsHost(a[i]);
        if host.Some? {
          hosts := hosts + {host.value};
        }
      }
    }
  }

  /** SanitizeBailiwick on the three record arrays of a message. */
  method SanitizeBailiwick(m: Response, zone: Text, answers: array<RR>, authority: array<RR>, additional: array<RR>)
    returns (n: nat, k: nat, g: nat)
    requires answers != authority && authority != additional && answers != additional
    requires answers[..] == m.answers && authority[..] == m.authority && additional[..] == m.additional
    modifies answers, authority, additional
    ensures n <= answers.Length && k <= authority.Length && g <= additional.Length
    ensures Sanitized(m, zone)
         == m.(answers := answers[..n], authority := authority[..k], additional := additional[..g])
  {
    hide OnlyWithin, OnlyGlue, NsHosts;
    var z := Lower(zone);
    n := FilterInZone(answers, z);
    k := FilterInZone(authority, z);
    var hosts := CollectHosts(authority, k);
    g := FilterGlue(additional, hosts, z);
  }

  /** The sanitised copy of a message. */
  method Sanitize(m: Response, zone: Text) returns (r: Response)
    ensures r == Sanitized(m, zone)
  {
    hide Sanitized;
    var answers := new RR[|m.answers|](i requires 0 <= i < |m.answers| => m.answers[i]);
    var authority := new RR[|m.authority|](i requires 0 <= i < |m.authority| => m.authority[i]);
    var additional := new RR[|m.additional|](i requires 0 <= i < |m.additional| => m.additional[i]);
    var n, k, g := SanitizeBailiwick(m, zone, answers, authority, additional);
    r := m.(answers := answers[..n], authority := authority[..k], additional := additional[..g]);
  }
}
