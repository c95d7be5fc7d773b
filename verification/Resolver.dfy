/** The iterative resolution loop (resolver/resolver.go), proved to perform exactly the runs of
    `Runs.Resolves`. */
module Resolver {
  import opened Bytes
  import opened Labels
  import opened Records
  import opened Bailiwick
  import opened Replies
  import opened TrustChain
  import opened Runs

  /** visitedSet, with the log of the steps it was filled by. */
  class VisitedSet {
    var ns: set<Text>
    var cname: set<Text>
    ghost var log: seq<Step>

    ghost predicate Valid()
      reads this
    {
      ns == KeysOf(log) && cname == TargetsOf(log)
    }

    constructor ()
      ensures Valid() && log == []
    {
      ns, cname, log := {}, {}, [];
    }

    /** A step is over: its key was added at its start, its target when it was followed. */
    ghost method Commit(s: Step)
      requires ns == KeysOf(log) + {KeyOf(s)}
      requires cname == TargetsOf(log) + if s.outcome.Redirected? then {Lower(s.outcome.target)} else {}
      modifies this`log
      ensures Valid() && log == old(log) + [s]
    {
      KeysGrow(log, s);
      log := log + [s];
    }
  }

  // ---- the pieces of a step ----

  /** removeNSByIP */
  method RemoveByIP(servers: seq<NsEntry>, ip: Text) returns (r: seq<NsEntry>)
    ensures r == Without(servers, ip)
  {
    hide Without;
    r := [];
    assert servers[0..] == servers;
    for i := 0 to |servers|
      invariant r + Without(servers[i..], ip) == Without(servers, ip)
    {
      WithoutStep(servers, i, ip);
      if servers[i].ipv4 != ip && servers[i].ipv6 != ip {
        r := r + [servers[i]];
      }
    }
    WithoutNone(servers[|servers|..], ip);
  }

  lemma WithoutStep(servers: seq<NsEntry>, i: nat, ip: Text)
    requires i < |servers|
    ensures Without(servers[i..], ip)
         == (if servers[i].ipv4 != ip && servers[i].ipv6 != ip then [servers[i]] else [])
            + Without(servers[i + 1..], ip)
  {
    assert servers[i..][1..] == servers[i + 1..];
  }

  lemma WithoutNone(servers: seq<NsEntry>, ip: Text)
    requires servers == []
    ensures Without(servers, ip) == []
  {}

  /** The questions of one step: the minimised one if minimisation is on, and the full one if
      that brought no referral. */
  method Ask(cfg: Config, net: Net, c: Cursor, ip: Text, qtype: u16) returns (t: Talk)
    ensures t == Conversation(cfg, net, c, ip, qtype)
  {
    hide MinimizeQName, KindOf, Sanitized;
    var q := (c.name, qtype);
    if cfg.qmin {
      q := MinimizeQName(c.name, qtype, c.zone);
    }
    var raw := net.reply(c.level, c.depth, ip, q.0, q.1);
    if raw.None? {
      return Talk([q], None, ServFail);
    }
    var m := Sanitize(raw.value, c.zone);
    var kind := ClassifyResponse(m, q.0, q.1);
    t := Talk([q], Some(m), kind);
    if cfg.qmin && q != (c.name, qtype) && kind != Referral {
      raw := net.reply(c.level, c.depth, ip, c.name, qtype);
      if raw.None? {
        return Talk([q] + [(c.name, qtype)], None, ServFail);
      }
      m := Sanitize(raw.value, c.zone);
      kind := ClassifyResponse(m, c.name, qtype);
      t := Talk([q] + [(c.name, qtype)], Some(m), kind);
    }
  }

  /** delegationToNSList, and the glue records that are cached: each address that reads back. */
  method FollowReferral(servers: seq<Delegation>, a: Addresses) returns (entries: seq<NsEntry>, glue: set<RR>)
    ensures |entries| == |servers|
    ensures forall i :: 0 <= i < |servers| ==> entries[i] == NsEntry(servers[i].host, servers[i].ipv4, servers[i].ipv6)
    ensures forall rr :: rr in glue <==> exists d :: d in servers && rr in GlueOf(d, a)
  {
    hide ParseIPv4, GlueOf;
    entries, glue := [], {};
    for i := 0 to |servers|
      invariant |entries| == i
      invariant forall j :: 0 <= j < i ==> entries[j] == NsEntry(servers[j].host, servers[j].ipv4, servers[j].ipv6)
      invariant forall rr :: rr in glue <==> exists j :: 0 <= j < i && rr in GlueOf(servers[j], a)
    {
      entries := entries + [NsEntry(servers[i].host, servers[i].ipv4, servers[i].ipv6)];
      var more := CacheGlue(servers[i], a);
      glue := glue + more;
    }
  }

  method CacheGlue(d: Delegation, a: Addresses) returns (glue: set<RR>)
    ensures glue == GlueOf(d, a)
  {
    hide ParseIPv4;
    glue := {};
    if d.ipv4 != [] {
      var ip := ParseIPv4Bytes(d.ipv4);
      if ip.Some? {
        glue := glue + {RR(d.host, TYPE_A, 1, d.ttl4, 4, ip.value)};
      }
    }
    if d.ipv6 != [] {
      var ip := a.ip16(d.ipv6);
      if ip.Some? {
        glue := glue + {RR(d.host, TYPE_AAAA, 1, d.ttl6, 16, ip.value)};
      }
    }
  }

  /** The new server list and the cached glue are those of the referral. */
  lemma ReferralServers(m: Response, a: Addresses, servers: seq<Delegation>, entries: seq<NsEntry>, glue: set<RR>)
    requires HostsOf(servers) == NsHosts(m.authority) - {[]} && DistinctHosts(servers)
    requires forall d :: d in servers ==> d == ServerAt(d.host, m.additional, a)
    requires |entries| == |servers|
    requires forall i :: 0 <= i < |servers| ==> entries[i] == NsEntry(servers[i].host, servers[i].ipv4, servers[i].ipv6)
    requires forall rr :: rr in glue <==> exists d :: d in servers && rr in GlueOf(d, a)
    ensures ServersFrom(entries, NsHosts(m.authority) - {[]}, m.additional, a)
    ensures glue == GlueRecords(NsHosts(m.authority) - {[]}, m.additional, a)
    ensures entries == [] <==> NsHosts(m.authority) - {[]} == {}
  {
    hide NsHosts, ServerAt, GlueOf;
    var hosts := NsHosts(m.authority) - {[]};
    forall h ensures h in hosts <==> exists e :: e in entries && e.host == h {
      if h in hosts {
        var d :| d in servers && d.host == h;
        var i :| 0 <= i < |servers| && servers[i] == d;
        assert entries[i] in entries;
      }
      if e :| e in entries && e.host == h {
        var i :| 0 <= i < |entries| && entries[i] == e;
        assert servers[i] in servers;
      }
    }
    forall e | e in entries ensures (var d := ServerAt(e.host, m.additional, a); e == NsEntry(d.host, d.ipv4, d.ipv6)) {
      var i :| 0 <= i < |entries| && entries[i] == e;
      assert servers[i] in servers;
    }
    forall rr ensures rr in glue <==> rr in GlueRecords(hosts, m.additional, a) {
      if rr in glue {
        var d :| d in servers && rr in GlueOf(d, a);
        assert d.host in hosts;
      }
      if h :| h in hosts && rr in GlueOf(ServerAt(h, m.additional, a), a) {
        var d :| d in servers && d.host == h;
      }
    }
    if servers != [] { assert servers[0] in servers && servers[0].host in hosts; }
  }

  // ---- runs in the making ----

  /** Whatever the loop does from c on completes the steps of run to a run from start. */
  ghost predicate LeadsTo(cfg: Config, net: Net, qtype: u16, prior: seq<Step>, start: Cursor, run: seq<Step>,
                          c: Cursor) {
    forall rest, r :: Resolves(cfg, net, qtype, prior + run, c, rest, r) ==>
      Resolves(cfg, net, qtype, prior, start, run + rest, r)
  }

  lemma LeadsFrom(cfg: Config, net: Net, qtype: u16, prior: seq<Step>, c: Cursor)
    ensures LeadsTo(cfg, net, qtype, prior, c, [], c)
  {
    hide Resolves;
    assert prior + [] == prior;
    assert forall rest: seq<Step> :: [] + rest == rest;
  }

  /** A step in front of a run. */
  lemma Prepend(cfg: Config, net: Net, qtype: u16, log: seq<Step>, c: Cursor, s: Step, to: Cursor,
                rest: seq<Step>, sub: Option<Resolution>)
    requires IsStep(cfg, net, qtype, log, c, s) && !Stops(s) && GoesOn(net, s, to)
    requires Resolves(cfg, net, qtype, log + [s], to, rest, sub)
    ensures Resolves(cfg, net, qtype, log, c, [s] + rest, Through(s, sub))
  {
    hide IsStep, GoesOn, Halts, Stops;
    var run := [s] + rest;
    assert run[0] == s && run[1..] == rest;
  }

  lemma LeadsOn(cfg: Config, net: Net, qtype: u16, prior: seq<Step>, start: Cursor, run: seq<Step>, c: Cursor,
                s: Step, to: Cursor)
    requires LeadsTo(cfg, net, qtype, prior, start, run, c)
    requires IsStep(cfg, net, qtype, prior + run, c, s) && !Stops(s) && !s.outcome.Redirected? && GoesOn(net, s, to)
    ensures LeadsTo(cfg, net, qtype, prior, start, run + [s], to)
  {
    hide Resolves, IsStep, GoesOn, Stops;
    forall rest, r | Resolves(cfg, net, qtype, prior + (run + [s]), to, rest, r)
      ensures Resolves(cfg, net, qtype, prior, start, run + [s] + rest, r)
    {
      assert prior + (run + [s]) == prior + run + [s];
      Prepend(cfg, net, qtype, prior + run, c, s, to, rest, r);
      assert run + ([s] + rest) == run + [s] + rest;
    }
  }

  lemma LeadsToHalt(cfg: Config, net: Net, qtype: u16, prior: seq<Step>, start: Cursor, run: seq<Step>, c: Cursor,
                    r: Option<Resolution>)
    requires LeadsTo(cfg, net, qtype, prior, start, run, c) && Halts(cfg, net, prior + run, c, r)
    ensures Resolves(cfg, net, qtype, prior, start, run, r)
  {
    hide Halts;
    assert Resolves(cfg, net, qtype, prior + run, c, [], r);
    assert run + [] == run;
  }

  lemma LeadsToStop(cfg: Config, net: Net, qtype: u16, prior: seq<Step>, start: Cursor, run: seq<Step>, c: Cursor,
                    s: Step)
    requires LeadsTo(cfg, net, qtype, prior, start, run, c) && IsStep(cfg, net, qtype, prior + run, c, s) && Stops(s)
    ensures Resolves(cfg, net, qtype, prior, start, run + [s], Some(FinalOf(cfg, s)))
  {
    hide IsStep, Stops;
    assert [s][0] == s;
    assert Resolves(cfg, net, qtype, prior + run, c, [s], Some(FinalOf(cfg, s)));
  }

  lemma LeadsThrough(cfg: Config, net: Net, qtype: u16, prior: seq<Step>, start: Cursor, run: seq<Step>, c: Cursor,
                     s: Step, to: Cursor, rest: seq<Step>, sub: Option<Resolution>)
    requires LeadsTo(cfg, net, qtype, prior, start, run, c)
    requires IsStep(cfg, net, qtype, prior + run, c, s) && !Stops(s) && GoesOn(net, s, to)
    requires Resolves(cfg, net, qtype, prior + run + [s], to, rest, sub)
    ensures Resolves(cfg, net, qtype, prior, start, run + [s] + rest, Through(s, sub))
  {
    hide Resolves, IsStep, GoesOn, Stops, Through;
    Prepend(cfg, net, qtype, prior + run, c, s, to, rest, sub);
    assert run + ([s] + rest) == run + [s] + rest;
  }

  // ---- the loop ----

  /** In the middle of a step: the server is marked visited, and the step is not in the log. */
  ghost predicate InStep(cfg: Config, net: Net, qtype: u16, v: VisitedSet, prior: seq<Step>, run: seq<Step>, c: Cursor,
                         s: Step)
    reads v
  {
    && v.log == prior + run && v.ns == KeysOf(v.log) + {KeyOf(s)} && v.cname == TargetsOf(v.log)
    && IsStep(cfg, net, qtype, v.log, c, s) && s.talk.reply.Some?
  }

  /** resolveIterativeFromInner: one level of the alias chain and everything below it. */
  method Resolve(cfg: Config, net: Net, name: Text, qtype: u16, level: nat, visited: VisitedSet,
                 initial: seq<NsEntry>, initialZone: Text)
    returns (r: Option<Resolution>, ghost run: seq<Step>)
    requires visited.Valid()
    modifies visited
    ensures visited.Valid() && visited.log == old(visited.log) + run
    ensures Resolves(cfg, net, qtype, old(visited.log), Cursor(level, 0, initial, name, initialZone), run, r)
    decreases if level > cfg.maxAliases then 0 else cfg.maxAliases + 1 - level, 1
  {
    hide Resolves, LeadsTo, Conversation, KeysOf, TargetsOf, Key, OutcomeOf, GoesOn;
    run := [];
    var c := Cursor(level, 0, initial, name, initialZone);
    ghost var start, prior := c, visited.log;
    LeadsFrom(cfg, net, qtype, prior, c);
    assert prior + [] == prior;
    if level > cfg.maxAliases {
      LeadsToHalt(cfg, net, qtype, prior, start, run, c, None);
      return None, run;
    }
    while c.depth < cfg.maxDepth
      invariant visited.Valid() && visited.log == prior + run
      invariant LeadsTo(cfg, net, qtype, prior, start, run, c)
      invariant c == Cursor(level, c.depth, c.servers, name, c.zone) && (c.depth > 0 ==> c.servers != [])
      decreases cfg.maxDepth - c.depth
    {
      var ip := net.select(level, c.depth, c.servers, c.zone);
      if ip.None? || Key(ip.value, name, c.zone) in visited.ns {
        LeadsToHalt(cfg, net, qtype, prior, start, run, c, Some(FAILURE));
        return Some(FAILURE), run;
      }
      visited.ns := visited.ns + {Key(ip.value, name, c.zone)};
      var t := Ask(cfg, net, c, ip.value, qtype);
      ghost var s := Step(c, ip.value, t, OutcomeOf(cfg, net, c, qtype, t, TargetsOf(visited.log)));
      assert IsStep(cfg, net, qtype, visited.log, c, s);
      var to;
      if t.reply.None? || t.kind == ServFail {
        to := Drop(cfg, net, qtype, c, ip.value, visited, s);
      } else if t.kind == Referral {
        to := Refer(cfg, net, qtype, t.reply.value, c, visited, prior, run, s);
        if to.None? {
          LeadsToStop(cfg, net, qtype, prior, start, run, c, s);
          return Some(FAILURE), run + [s];
        }
      } else if t.kind == Alias || t.kind == Dname {
        r, run := Hop(cfg, net, qtype, t.reply.value, t.kind == Dname, c, visited, prior, start, run, s);
        return;
      } else {
        r := Finish(cfg, net, qtype, t, c, visited, prior, run, s);
        LeadsToStop(cfg, net, qtype, prior, start, run, c, s);
        return r, run + [s];
      }
      LeadsOn(cfg, net, qtype, prior, start, run, c, s, to.value);
      run, c := run + [s], to.value;
      if |c.servers| == 0 {
        LeadsToHalt(cfg, net, qtype, prior, start, run, c, Some(FAILURE));
        return Some(FAILURE), run;
      }
    }
    LeadsToHalt(cfg, net, qtype, prior, start, run, c, Some(FAILURE));
    r := Some(FAILURE);
  }

  /** An unusable reply: the server is taken off the list. */
  method Drop(cfg: Config, net: Net, qtype: u16, c: Cursor, ip: Text, visited: VisitedSet, ghost s: Step)
    returns (to: Option<Cursor>)
    requires visited.ns == KeysOf(visited.log) + {KeyOf(s)} && visited.cname == TargetsOf(visited.log)
    requires IsStep(cfg, net, qtype, visited.log, c, s) && s.ip == ip && (s.talk.reply.None? || s.talk.kind == ServFail)
    modifies visited`log
    ensures visited.Valid() && visited.log == old(visited.log) + [s]
    ensures to.Some? && !Stops(s) && !s.outcome.Redirected? && GoesOn(net, s, to.value)
    ensures to.value == Cursor(c.level, c.depth + 1, to.value.servers, c.name, c.zone)
  {
    hide MayStep, Conversation, KeysOf, TargetsOf, Without, KeyOf;
    visited.Commit(s);
    var servers := RemoveByIP(c.servers, ip);
    to := Some(c.(depth := c.depth + 1, servers := servers));
  }

  /** A referral: the servers it names, with their glue, take over for the zone it delegates. */
  method Refer(cfg: Config, net: Net, qtype: u16, m: Response, c: Cursor, visited: VisitedSet,
               ghost prior: seq<Step>, ghost run: seq<Step>, ghost s: Step)
    returns (to: Option<Cursor>)
    requires InStep(cfg, net, qtype, visited, prior, run, c, s) && s.talk.reply.value == m && s.talk.kind == Referral
    modifies visited`log
    ensures visited.Valid() && visited.log == prior + run + [s]
    ensures match to
            case None => Stops(s) && FinalOf(cfg, s) == FAILURE
            case Some(next) =>
              && !Stops(s) && !s.outcome.Redirected? && GoesOn(net, s, next)
              && next == Cursor(c.level, c.depth + 1, next.servers, c.name, next.zone) && next.servers != []
  {
    hide MayStep, Conversation, KeysOf, TargetsOf, KeyOf, NsHosts, LastNsOwner, ServerAt, GlueRecords, ServersFrom;
    visited.Commit(s);
    var delegated, zone := ExtractDelegation(m, net.addresses);
    var entries, glue := FollowReferral(delegated, net.addresses);
    ReferralServers(m, net.addresses, delegated, entries, glue);
    if |delegated| == 0 {
      return None;
    }
    to := Some(c.(depth := c.depth + 1, servers := entries, zone := zone));
  }

  /** A CNAME or DNAME hop: the target must be new, the hop must not be Bogus, and the rest of
      the chain starts again from the root servers. */
  method Hop(cfg: Config, net: Net, qtype: u16, m: Response, dname: bool, c: Cursor, visited: VisitedSet,
             ghost prior: seq<Step>, ghost start: Cursor, ghost before: seq<Step>, ghost s: Step)
    returns (r: Option<Resolution>, ghost run: seq<Step>)
    requires InStep(cfg, net, qtype, visited, prior, before, c, s) && s.talk.reply.value == m
    requires s.talk.kind == if dname then Dname else Alias
    requires LeadsTo(cfg, net, qtype, prior, start, before, c)
    modifies visited
    ensures visited.Valid() && visited.log == prior + run && Resolves(cfg, net, qtype, prior, start, run, r)
    decreases if c.level > cfg.maxAliases then 0 else cfg.maxAliases + 1 - c.level, 0
  {
    hide Resolves, LeadsTo, Conversation, KeysOf, TargetsOf, KeyOf, HopRecords, CnameTarget, DnameTarget, Combine;
    var target;
    if dname {
      target := ExtractDNAMETarget(m, c.name);
    } else {
      target := ExtractCNAMETarget(m, c.name);
    }
    run := before + [s];
    if target == [] || Lower(target) in visited.cname {
      visited.Commit(s);
      LeadsToStop(cfg, net, qtype, prior, start, before, c, s);
      return Some(FAILURE), run;
    }
    visited.cname := visited.cname + {Lower(target)};
    var verdict := Insecure;
    if cfg.validating {
      verdict := net.validate(c.level, c.depth, m, c.name, if dname then TYPE_DNAME else TYPE_CNAME);
    }
    visited.Commit(s);
    if verdict == Bogus {
      LeadsToStop(cfg, net, qtype, prior, start, before, c, s);
      return Some(BOGUS_FAILURE), run;
    }
    var records := ExtractHopRecords(m, c.name, dname);
    var sub, rest := Resolve(cfg, net, target, qtype, c.level + 1, visited, net.roots, []);
    LeadsThrough(cfg, net, qtype, prior, start, before, c, s, Cursor(c.level + 1, 0, net.roots, target, []), rest, sub);
    run := run + rest;
    r := sub;
    if sub.Some? {
      var d := sub.value;
      r := Some(d.(answers := records + d.answers, status := Combine(VerdictToStatus(verdict), d.status)));
    }
  }

  /** An answer or a denial ends the chain with the validator's verdict. */
  method Finish(cfg: Config, net: Net, qtype: u16, t: Talk, c: Cursor, visited: VisitedSet,
                ghost prior: seq<Step>, ghost run: seq<Step>, ghost s: Step)
    returns (r: Option<Resolution>)
    requires InStep(cfg, net, qtype, visited, prior, run, c, s) && s.talk == t
    requires t.kind == Answer || t.kind == NXDomain || t.kind == NoData
    modifies visited`log
    ensures visited.Valid() && visited.log == prior + run + [s]
    ensures Stops(s) && r == Some(FinalOf(cfg, s))
  {
    hide MayStep, Conversation, KeysOf, TargetsOf, KeyOf;
    var m := t.reply.value;
    var verdict := Insecure;
    if cfg.validating {
      verdict := net.validate(c.level, c.depth, m, c.name, qtype);
    }
    visited.Commit(s);
    if verdict == Bogus {
      return Some(BOGUS_FAILURE);
    }
    r := Some(Resolution(if t.kind == Answer then m.answers else [], m.authority,
                         if t.kind == NXDomain then RCODE_NXDOMAIN else 0,
                         if cfg.validating then VerdictToStatus(verdict) else NoStatus));
  }

  /** resolveIterative: from the root servers with a fresh visited set, the result is that of a
      run, and so obeys the law of the chain verdict. */
  method ResolveIterative(cfg: Config, net: Net, name: Text, qtype: u16) returns (r: Option<Resolution>)
    ensures exists run ::
              Resolves(cfg, net, qtype, [], Cursor(0, 0, net.roots, name, []), run, r) && VerdictOk(cfg, run, r)
  {
    hide Resolves, VerdictOk;
    var visited := new VisitedSet();
    ghost var run;
    r, run := Resolve(cfg, net, name, qtype, 0, visited, net.roots, []);
    ChainVerdict(cfg, net, qtype, [], Cursor(0, 0, net.roots, name, []), run, r);
  }
}
