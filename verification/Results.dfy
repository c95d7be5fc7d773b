/** What a resolution hands back, by the replies of its run (resolver/resolver.go). */
module Results {
  import opened Bytes
  import opened Records
  import opened Bailiwick
  import opened Replies
  import opened TrustChain
  import opened Runs

  /** The records of the alias hops of a run, in order. */
  function Hops(run: seq<Step>): seq<RR> {
    if run == [] then []
    else (if run[0].outcome.Redirected? then run[0].outcome.records else []) + Hops(run[1..])
  }

  /** Each is what the reply of its step has of aliases and their signatures; a hop that is Bogus
      hands nothing on. */
  lemma HopIs(cfg: Config, net: Net, qtype: u16, log: seq<Step>, c: Cursor, s: Step)
    requires IsStep(cfg, net, qtype, log, c, s) && s.outcome.Redirected?
    ensures s.talk.reply.Some? && s.talk.kind in {Alias, Dname}
    ensures var answers := s.talk.reply.value.answers;
            s.outcome.target
            == (if s.talk.kind == Dname then DnameTarget(answers, c.name) else CnameTarget(answers, c.name))
    ensures s.outcome.target != [] && Lower(s.outcome.target) !in TargetsOf(log)
    ensures s.outcome.records
         == if s.outcome.verdict == Bogus then []
            else HopRecords(s.talk.reply.value.answers, c.name, s.talk.kind == Dname)
  {
    hide MayStep, Conversation, TargetsOf, HopRecords, DnameTarget, CnameTarget, NsHosts, LastNsOwner, GlueRecords;
  }

  /** The reply has a record of the name and the type asked for. */
  ghost predicate HasAnswer(m: Response, name: Text, qtype: u16) {
    exists rr :: rr in m.answers && Lower(rr.name) == name && rr.rtype == qtype
  }

  ghost predicate ResultOk(qtype: u16, run: seq<Step>, d: Resolution) {
    if Answered(run) then
      var last := run[|run| - 1];
      && last.talk.reply.Some?
      && var m := last.talk.reply.value;
         && d.rcode == (if m.rcode == 3 then 3 else 0)
         && d.authority == m.authority
         && d.answers == Hops(run) + if m.rcode != 3 && HasAnswer(m, last.at.name, qtype) then m.answers else []
    else d.rcode == 2 && d.authority == [] && d.answers == Hops(run)
  }

  /** The result of every run. If it ends with a response that is not Bogus, the code is that of
      the response, NXDOMAIN (3) or none; the answers are the aliases on the way followed by its
      own if they answer the question; and the authority section is its own. Otherwise the result
      is a server failure (2) with the aliases on the way. */
  lemma {:induction false} ResultIs(cfg: Config, net: Net, qtype: u16, log: seq<Step>, c: Cursor, run: seq<Step>,
                                    r: Option<Resolution>)
    requires Resolves(cfg, net, qtype, log, c, run, r) && r.Some?
    ensures ResultOk(qtype, run, r.value)
    decreases |run|
  {
    hide IsStep, GoesOn, HasAnswer;
    if run == [] {
    } else if Stops(run[0]) {
      assert run == [run[0]];
      EndIs(cfg, net, qtype, log, c, run[0]);
    } else {
      var to, sub := Rest(cfg, net, qtype, log, c, run, r);
      ResultIs(cfg, net, qtype, log + [run[0]], to, run[1..], sub);
      AddStep(qtype, run, sub.value);
    }
  }

  lemma AddStep(qtype: u16, run: seq<Step>, d: Resolution)
    requires run != [] && !Stops(run[0]) && ResultOk(qtype, run[1..], d)
    ensures ResultOk(qtype, run, Through(run[0], Some(d)).value)
  {
    hide HasAnswer, Combine;
    var rest := run[1..];
    if rest != [] { assert rest[|rest| - 1] == run[|run| - 1]; }
    var hop := if run[0].outcome.Redirected? then run[0].outcome.records else [];
    if Answered(rest) {
      var m := rest[|rest| - 1].talk.reply.value;
      var own := if m.rcode != 3 && HasAnswer(m, rest[|rest| - 1].at.name, qtype) then m.answers else [];
      assert hop + (Hops(rest) + own) == (hop + Hops(rest)) + own;
    }
    assert [] + d.answers == d.answers;
  }

  lemma EndIs(cfg: Config, net: Net, qtype: u16, log: seq<Step>, c: Cursor, s: Step)
    requires IsStep(cfg, net, qtype, log, c, s) && Stops(s)
    ensures ResultOk(qtype, [s], FinalOf(cfg, s))
  {
    hide MayStep, Conversation, KindOf, TargetsOf, HopRecords, AliasTarget, NsHosts, LastNsOwner, GlueRecords, TalkOk,
      HasAnswer;
    var run := [s];
    assert run[1..] == [] && run[0] == s;
    assert Hops(run) == [];
    if s.outcome.Ended? {
      EndedKind(cfg, net, qtype, c, s.ip, s.talk);
      var m := s.talk.reply.value;
      assert Hops(run) + m.answers == m.answers && Hops(run) + [] == [];
      assert run[|run| - 1] == s;
    }
  }

  lemma EndedKind(cfg: Config, net: Net, qtype: u16, c: Cursor, ip: Text, t: Talk)
    requires t == Conversation(cfg, net, c, ip, qtype) && t.reply.Some? && t.kind in {Answer, NXDomain, NoData}
    ensures t.kind == NXDomain <==> t.reply.value.rcode == 3
    ensures t.kind != NXDomain ==> (t.kind == Answer <==> HasAnswer(t.reply.value, c.name, qtype))
  {
    hide Conversation, KindOf, Clean, OneMoreLabel;
    ConversationOk(cfg, net, c, ip, qtype);
    KindIs(t.reply.value, c.name, qtype);
  }

  // ---- the relation leaves nothing open ----

  /** On each level of the alias chain the loop halts exactly where it cannot take a step, and there
      is one step at most. */
  lemma HaltsIff(cfg: Config, net: Net, qtype: u16, log: seq<Step>, c: Cursor)
    requires c.level <= cfg.maxAliases
    ensures Halts(cfg, net, log, c, Some(FAILURE)) <==> forall s :: !IsStep(cfg, net, qtype, log, c, s)
    ensures forall r :: Halts(cfg, net, log, c, r) ==> r == Some(FAILURE)
    ensures forall s, t :: IsStep(cfg, net, qtype, log, c, s) && IsStep(cfg, net, qtype, log, c, t) ==> s == t
  {
    hide Conversation, OutcomeOf, KeysOf, TargetsOf, Key;
    if !Halts(cfg, net, log, c, Some(FAILURE)) {
      var ip := net.select(c.level, c.depth, c.servers, c.zone).value;
      var t := Conversation(cfg, net, c, ip, qtype);
      assert IsStep(cfg, net, qtype, log, c, Step(c, ip, t, OutcomeOf(cfg, net, c, qtype, t, TargetsOf(log))));
    }
  }

  /** What a step makes of its reply, case by case. No reply, or one of no use, only costs the
      server. A referral is followed to the servers it names, and fails the resolution if it names
      none. An alias is followed unless it has no target or one that was followed before. Anything
      else ends the chain. The validator is asked with the type of the alias, CNAME (5) or DNAME
      (39), or with the type of the question. */
  lemma OutcomeIs(cfg: Config, net: Net, qtype: u16, log: seq<Step>, c: Cursor, s: Step)
    requires IsStep(cfg, net, qtype, log, c, s)
    ensures s.outcome == Dropped <==> s.talk.reply.None? || s.talk.kind == ServFail
    ensures s.outcome.Referred? <==> && s.talk.reply.Some? && s.talk.kind == Referral
                                     && NsHosts(s.talk.reply.value.authority) - {[]} != {}
    ensures s.outcome.Redirected? <==>
              && s.talk.reply.Some? && s.talk.kind in {Alias, Dname}
              && var answers := s.talk.reply.value.answers;
                 var target :=
                   if s.talk.kind == Dname then DnameTarget(answers, c.name) else CnameTarget(answers, c.name);
                 target != [] && Lower(target) !in TargetsOf(log)
    ensures s.outcome.Ended? <==> s.talk.reply.Some? && s.talk.kind in {Answer, NoData, NXDomain}
    ensures s.outcome.Referred? ==>
              var m := s.talk.reply.value;
              && s.outcome.child == LastNsOwner(m.authority) && s.outcome.hosts == NsHosts(m.authority) - {[]}
              && s.outcome.glue == GlueRecords(s.outcome.hosts, m.additional, net.addresses)
    ensures HasVerdict(s) ==>
              s.outcome.verdict
              == if !cfg.validating then Insecure
                 else net.validate(c.level, c.depth, s.talk.reply.value, c.name,
                                   if s.talk.kind == Dname then 39 else if s.talk.kind == Alias then 5 else qtype)
  {
    hide MayStep, Conversation, TargetsOf, HopRecords, DnameTarget, CnameTarget, NsHosts, LastNsOwner, GlueRecords;
    hide Lower;
  }

  /** Where the loop goes on: after a dropped server with the others, after a referral with its
      servers, and after an alias that is not Bogus from the root with its target; nothing else goes
      on. */
  lemma GoesOnIs(net: Net, s: Step, to: Cursor)
    requires GoesOn(net, s, to)
    ensures !Stops(s)
    ensures s.outcome.Redirected? ==> to == Cursor(s.at.level + 1, 0, net.roots, s.outcome.target, [])
    ensures !s.outcome.Redirected? ==> to.level == s.at.level && to.depth == s.at.depth + 1 && to.name == s.at.name
    ensures s.outcome.Dropped? ==> to.zone == s.at.zone
    ensures s.outcome.Dropped? ==>
              forall e :: e in to.servers <==> e in s.at.servers && e.ipv4 != s.ip && e.ipv6 != s.ip
    ensures s.outcome.Referred? ==> to.zone == s.outcome.child
    ensures s.outcome.Referred? ==> forall h :: h in s.outcome.hosts <==> exists e :: e in to.servers && e.host == h
    ensures s.outcome.Referred? ==>
              forall i, j :: 0 <= i < j < |to.servers| ==> to.servers[i].host != to.servers[j].host
    ensures s.outcome.Referred? ==> s.talk.reply.Some?
    ensures s.outcome.Referred? ==>
              forall e :: e in to.servers ==>
                var d := ServerAt(e.host, s.talk.reply.value.additional, net.addresses);
                e.ipv4 == d.ipv4 && e.ipv6 == d.ipv6
  {
    hide ServerAt;
    if s.outcome.Dropped? {
      forall e ensures e in to.servers <==> e in s.at.servers && e.ipv4 != s.ip && e.ipv6 != s.ip {
        WithoutIs(s.at.servers, s.ip, e);
      }
    }
  }

  lemma {:induction false} WithoutIs(servers: seq<NsEntry>, ip: Text, e: NsEntry)
    ensures e in Without(servers, ip) <==> e in servers && e.ipv4 != ip && e.ipv6 != ip
  {
    if servers != [] {
      WithoutIs(servers[1..], ip, e);
      assert e in servers <==> e == servers[0] || e in servers[1..];
    }
  }
}
