/** The runs of the resolution loop against an arbitrary upstream (resolver/resolver.go).

    The selection of a server, the replies and the validator are functions of the level of the
    alias chain and the depth within it, so they may answer differently at every step. `Resolves`
    says exactly which runs there are and how each of them ends; the claims about all runs follow
    from it. */
module Runs {
  import opened Bytes
  import opened Labels
  import opened Records
  import opened Bailiwick
  import opened Replies
  import opened TrustChain

  const BAR: byte := 124

  datatype NsEntry = NsEntry(host: Text, ipv4: Text, ipv6: Text)

  datatype Config = Config(maxDepth: int, maxAliases: int, qmin: bool, validating: bool)

  datatype Net = Net(select: (nat, nat, seq<NsEntry>, Text) -> Option<Text>,
                     reply: (nat, nat, Text, Text, u16) -> Option<Response>,
                     validate: (nat, nat, Response, Text, u16) -> Validation,
                     addresses: Addresses, roots: seq<NsEntry>)

  // ---- status along the chain ----

  /** The status strings: empty, secure, insecure, bogus. */
  datatype Status = NoStatus | StatusSecure | StatusInsecure | StatusBogus

  /** verdictToStatus */
  function VerdictToStatus(v: Validation): Status {
    match v
    case Secure => StatusSecure
    case Bogus => StatusBogus
    case _ => StatusInsecure
  }

  /** combineDNSSECStatus */
  function Combine(a: Status, b: Status): Status {
    if a == StatusBogus || b == StatusBogus then StatusBogus
    else if a == StatusSecure && b == StatusSecure then StatusSecure
    else if a == NoStatus then b
    else if b == NoStatus then a
    else StatusInsecure
  }

  datatype Resolution = Resolution(answers: seq<RR>, authority: seq<RR>, rcode: byte, status: Status)

  const FAILURE: Resolution := Resolution([], [], RCODE_SERVFAIL, NoStatus)
  const BOGUS_FAILURE: Resolution := Resolution([], [], RCODE_SERVFAIL, StatusBogus)

  // ---- one step ----

  /** Where the loop is: the level of the alias chain, the depth within it, the servers to choose
      from, the name asked for and the current zone. */
  datatype Cursor = Cursor(level: nat, depth: nat, servers: seq<NsEntry>, name: Text, zone: Text)

  /** How a step ends: the server is dropped; a referral is followed; an alias is found; the
      chain ends with an answer or a denial; or the resolution fails without a verdict. */
  datatype Outcome =
    | Dropped
    | Referred(child: Text, hosts: set<Text>, glue: set<RR>, delegation: seq<RR>)
    | Redirected(target: Text, records: seq<RR>, verdict: Validation)
    | Ended(records: seq<RR>, verdict: Validation)
    | Broken

  /** The questions of a step, the sanitised reply to the last of them, and its class. */
  datatype Talk = Talk(asked: seq<(Text, u16)>, reply: Option<Response>, kind: Kind)

  datatype Step = Step(at: Cursor, ip: Text, talk: Talk, outcome: Outcome)

  /** The visited key of a step. */
  function Key(ip: Text, name: Text, zone: Text): Text {
    ip + [BAR] + name + [BAR] + zone
  }

  function KeyOf(s: Step): Text {
    Key(s.ip, s.at.name, s.at.zone)
  }

  /** What the two visited sets hold after a log of steps. */
  function KeysOf(log: seq<Step>): set<Text> {
    set s | s in log :: KeyOf(s)
  }

  function TargetsOf(log: seq<Step>): set<Text> {
    set s | s in log && s.outcome.Redirected? :: Lower(s.outcome.target)
  }

  /** One step asks the minimised question if minimisation is on, and then the full one unless a
      referral came back. */
  ghost function Conversation(cfg: Config, net: Net, c: Cursor, ip: Text, qtype: u16): Talk {
    var full := (c.name, qtype);
    var q := if cfg.qmin then MinimizeQName(c.name, qtype, c.zone) else full;
    var first := Exchange(net, c, ip, [], q);
    if first.reply.None? || q == full || first.kind == Referral then first else Exchange(net, c, ip, [q], full)
  }

  ghost function Exchange(net: Net, c: Cursor, ip: Text, before: seq<(Text, u16)>, q: (Text, u16)): Talk {
    match net.reply(c.level, c.depth, ip, q.0, q.1)
    case None => Talk(before + [q], None, ServFail)
    case Some(raw) =>
      var m := Sanitized(raw, c.zone);
      Talk(before + [q], Some(m), KindOf(m, q.0, q.1))
  }

  function VerdictAt(cfg: Config, net: Net, c: Cursor, m: Response, qtype: u16): Validation {
    if cfg.validating then net.validate(c.level, c.depth, m, c.name, qtype) else Insecure
  }

  /** The address records cached for the hosts of a referral. */
  function GlueRecords(hosts: set<Text>, additional: seq<RR>, a: Addresses): set<RR> {
    set h, rr | h in hosts && rr in GlueOf(ServerAt(h, additional, a), a) :: rr
  }

  function AliasTarget(m: Response, name: Text, dname: bool): Text {
    if dname then DnameTarget(m.answers, name) else CnameTarget(m.answers, name)
  }

  /** What a reply of each class leads to; followed are the alias targets seen before. */
  ghost function OutcomeOf(cfg: Config, net: Net, c: Cursor, qtype: u16, t: Talk, followed: set<Text>): Outcome {
    if t.reply.None? then Dropped
    else
      var m := t.reply.value;
      match t.kind
      case ServFail => Dropped
      case Referral =>
        var hosts := NsHosts(m.authority) - {[]};
        if hosts == {} then Broken
        else Referred(LastNsOwner(m.authority), hosts, GlueRecords(hosts, m.additional, net.addresses), m.authority)
      case Alias => AliasOutcome(cfg, net, c, m, false, followed)
      case Dname => AliasOutcome(cfg, net, c, m, true, followed)
      case _ =>
        var v := VerdictAt(cfg, net, c, m, qtype);
        Ended(if v == Bogus then [] else (if t.kind == Answer then m.answers else []) + m.authority, v)
  }

  ghost function AliasOutcome(cfg: Config, net: Net, c: Cursor, m: Response, dname: bool,
                              followed: set<Text>): Outcome {
    var target := AliasTarget(m, c.name, dname);
    if target == [] || Lower(target) in followed then Broken
    else
      var v := VerdictAt(cfg, net, c, m, if dname then TYPE_DNAME else TYPE_CNAME);
      Redirected(target, if v == Bogus then [] else HopRecords(m.answers, c.name, dname), v)
  }

  ghost predicate MayStep(cfg: Config, net: Net, log: seq<Step>, c: Cursor, ip: Text) {
    && c.level <= cfg.maxAliases && c.depth < cfg.maxDepth && (c.depth > 0 ==> c.servers != [])
    && net.select(c.level, c.depth, c.servers, c.zone) == Some(ip) && Key(ip, c.name, c.zone) !in KeysOf(log)
  }

  /** s is the step the loop takes at c after the steps of log. */
  ghost predicate IsStep(cfg: Config, net: Net, qtype: u16, log: seq<Step>, c: Cursor, s: Step) {
    && s.at == c && MayStep(cfg, net, log, c, s.ip)
    && s.talk == Conversation(cfg, net, c, s.ip, qtype)
    && s.outcome == OutcomeOf(cfg, net, c, qtype, s.talk, TargetsOf(log))
  }

  /** The servers of a referral, in any order, with the addresses of the additional section. */
  ghost predicate ServersFrom(servers: seq<NsEntry>, hosts: set<Text>, additional: seq<RR>, a: Addresses) {
    && (forall h :: h in hosts <==> exists e :: e in servers && e.host == h)
    && (forall i, j :: 0 <= i < j < |servers| ==> servers[i].host != servers[j].host)
    && (forall e :: e in servers ==>
          var d := ServerAt(e.host, additional, a);
          e == NsEntry(d.host, d.ipv4, d.ipv6))
  }

  /** Where the loop goes on after a step: with the remaining servers, with those of the
      referral in the zone it delegates, or with the target of the alias from the root. */
  ghost predicate GoesOn(net: Net, s: Step, to: Cursor) {
    match s.outcome
    case Dropped => to == s.at.(depth := s.at.depth + 1, servers := Without(s.at.servers, s.ip))
    case Referred(child, hosts, _, _) =>
      && to == s.at.(depth := s.at.depth + 1, servers := to.servers, zone := child)
      && s.talk.reply.Some? && ServersFrom(to.servers, hosts, s.talk.reply.value.additional, net.addresses)
    case Redirected(target, _, v) => v != Bogus && to == Cursor(s.at.level + 1, 0, net.roots, target, [])
    case _ => false
  }

  function Without(servers: seq<NsEntry>, ip: Text): seq<NsEntry> {
    if servers == [] then []
    else (if servers[0].ipv4 != ip && servers[0].ipv6 != ip then [servers[0]] else []) + Without(servers[1..], ip)
  }

  // ---- whole runs ----

  /** The loop stops without a step: the alias chain is too long, which is an error; or the depth
      is used up, no server is left or can be selected, or the visit would be a repetition. */
  ghost predicate Halts(cfg: Config, net: Net, log: seq<Step>, c: Cursor, r: Option<Resolution>) {
    if c.level > cfg.maxAliases then r == None
    else
      && r == Some(FAILURE)
      && (|| c.depth >= cfg.maxDepth
          || (c.depth > 0 && c.servers == [])
          || net.select(c.level, c.depth, c.servers, c.zone) == None
          || Key(net.select(c.level, c.depth, c.servers, c.zone).value, c.name, c.zone) in KeysOf(log))
  }

  /** The step ends the run with a result. */
  predicate Stops(s: Step) {
    s.outcome.Ended? || s.outcome.Broken? || (s.outcome.Redirected? && s.outcome.verdict == Bogus)
  }

  function FinalOf(cfg: Config, s: Step): Resolution
    requires Stops(s)
  {
    if s.outcome.Broken? || s.talk.reply.None? then FAILURE
    else if s.outcome.verdict == Bogus then BOGUS_FAILURE
    else
      var m := s.talk.reply.value;
      Resolution(if s.talk.kind == Answer then m.answers else [], m.authority,
                 if s.talk.kind == NXDomain then RCODE_NXDOMAIN else 0,
                 if cfg.validating then VerdictToStatus(s.outcome.verdict) else NoStatus)
  }

  /** An alias hop puts its records in front of the result and its verdict into the status. */
  function Through(s: Step, r: Option<Resolution>): Option<Resolution> {
    if s.outcome.Redirected? && r.Some?
    then Some(r.value.(answers := s.outcome.records + r.value.answers,
                       status := Combine(VerdictToStatus(s.outcome.verdict), r.value.status)))
    else r
  }

  /** From c, after the steps of log, the loop takes the steps of run and returns r. */
  ghost predicate Resolves(cfg: Config, net: Net, qtype: u16, log: seq<Step>, c: Cursor, run: seq<Step>,
                           r: Option<Resolution>)
    decreases |run|
  {
    if run == [] then Halts(cfg, net, log, c, r)
    else
      && IsStep(cfg, net, qtype, log, c, run[0])
      && if Stops(run[0]) then |run| == 1 && r == Some(FinalOf(cfg, run[0]))
         else exists to, sub ::
           && GoesOn(net, run[0], to) && Resolves(cfg, net, qtype, log + [run[0]], to, run[1..], sub)
           && r == Through(run[0], sub)
  }

  // ---- what every step keeps ----

  /** At or below; a zone as given at the start may be in any case, later ones are lower case. */
  predicate Below(child: Text, zone: Text) {
    child == zone || InZone(child, Lower(zone))
  }

  ghost predicate AllWithin(rrs: seq<RR>, zone: Text) {
    forall rr :: rr in rrs ==> Within(rr, Lower(zone))
  }

  /** A sanitised reply: its records lie in the zone, its glue at a server it names. */
  ghost predicate Clean(m: Response, zone: Text) {
    && AllWithin(m.answers, zone) && AllWithin(m.authority, zone)
    && forall rr :: rr in m.additional ==> IsGlue(rr, NsHosts(m.authority), Lower(zone))
  }

  lemma SanitizedIsClean(m: Response, zone: Text)
    ensures Clean(Sanitized(m, zone), zone)
  {
    hide OnlyWithin, OnlyGlue, NsHosts, InZone, Lower;
    var r, z := Sanitized(m, zone), Lower(zone);
    forall rr | rr in r.answers ensures Within(rr, z) {
      OnlyWithinExact(m.answers, z, rr);
      assert rr in multiset(r.answers);
    }
    forall rr | rr in r.authority ensures Within(rr, z) {
      OnlyWithinExact(m.authority, z, rr);
      assert rr in multiset(r.authority);
    }
    forall rr | rr in r.additional ensures IsGlue(rr, NsHosts(r.authority), z) {
      OnlyGlueExact(m.additional, NsHosts(r.authority), z, rr);
      assert rr in multiset(r.additional);
    }
  }

  ghost predicate TalkOk(t: Talk, c: Cursor, qtype: u16) {
    && 1 <= |t.asked| <= 2
    && (forall q :: q in t.asked ==> q.0 == c.name || OneMoreLabel(q.0, c.name, c.zone))
    && (t.reply.Some? ==>
          && Clean(t.reply.value, c.zone)
          && t.kind == KindOf(t.reply.value, t.asked[|t.asked| - 1].0, t.asked[|t.asked| - 1].1)
          && (t.kind != Referral ==> t.asked[|t.asked| - 1] == (c.name, qtype)))
  }

  lemma ConversationOk(cfg: Config, net: Net, c: Cursor, ip: Text, qtype: u16)
    ensures TalkOk(Conversation(cfg, net, c, ip, qtype), c, qtype)
  {
    hide MinimizeQName, OneMoreLabel, Clean, KindOf, Sanitized;
    MinimizeReveals(c.name, qtype, c.zone);
    var q := if cfg.qmin then MinimizeQName(c.name, qtype, c.zone) else (c.name, qtype);
    ExchangeClean(net, c, ip, q);
    ExchangeClean(net, c, ip, (c.name, qtype));
  }

  lemma ExchangeClean(net: Net, c: Cursor, ip: Text, q: (Text, u16))
    ensures var raw := net.reply(c.level, c.depth, ip, q.0, q.1);
            raw.Some? ==> Clean(Sanitized(raw.value, c.zone), c.zone)
  {
    hide Clean, Sanitized;
    if net.reply(c.level, c.depth, ip, q.0, q.1).Some? {
      SanitizedIsClean(net.reply(c.level, c.depth, ip, q.0, q.1).value, c.zone);
    }
  }

  /** What every step keeps. At most two questions go out, each for the full name or one that
      shows a single label below the zone; a referral leads down; cached glue belongs to a server
      that the referral names and lies in the zone; and every record used, the delegation
      included, lies in the zone. */
  ghost predicate StepOk(s: Step) {
    && |s.talk.asked| <= 2
    && (forall q :: q in s.talk.asked ==> q.0 == s.at.name || OneMoreLabel(q.0, s.at.name, s.at.zone))
    && match s.outcome
       case Referred(child, hosts, glue, delegation) =>
         && InZone(child, Lower(s.at.zone)) && Lower(child) == child && AllWithin(delegation, s.at.zone)
         && hosts <= NsHosts(delegation)
         && forall rr :: rr in glue ==> rr.name in hosts && InZone(rr.name, Lower(s.at.zone))
       case Redirected(_, records, _) => AllWithin(records, s.at.zone)
       case Ended(records, _) => AllWithin(records, s.at.zone)
       case _ => true
  }

  lemma StepIsOk(cfg: Config, net: Net, qtype: u16, log: seq<Step>, c: Cursor, s: Step)
    requires IsStep(cfg, net, qtype, log, c, s)
    ensures StepOk(s)
  {
    hide Conversation, MayStep, KindOf, OneMoreLabel, InZone, TargetsOf, NsHosts, LastNsOwner, GlueRecords, HopRecords,
      AliasTarget, Clean;
    ConversationOk(cfg, net, c, s.ip, qtype);
    if s.outcome.Referred? {
      ReferralOk(s.talk.reply.value, c.zone, s.talk.asked[|s.talk.asked| - 1], net.addresses);
    } else if s.outcome.Redirected? {
      HopWithin(s.talk.reply.value, c.name, s.talk.kind == Dname, c.zone);
    } else if s.outcome.Ended? {
      EndWithin(s.talk.reply.value, c.zone);
    }
  }

  lemma EndWithin(m: Response, zone: Text)
    requires Clean(m, zone)
    ensures AllWithin(m.answers + m.authority, zone) && AllWithin(m.authority, zone)
    ensures AllWithin([] + m.authority, zone)
  {
    hide Within, IsGlue;
  }

  lemma HopWithin(m: Response, name: Text, dname: bool, zone: Text)
    requires Clean(m, zone)
    ensures AllWithin(HopRecords(m.answers, name, dname), zone)
  {
    hide Within, IsGlue, HopRecords, IsHopRecord;
    forall rr | rr in HopRecords(m.answers, name, dname) ensures Within(rr, Lower(zone)) {
      HopRecordsWithin(m.answers, name, dname, rr);
    }
  }

  /** A referral in a clean reply leads into the zone, and its glue is in the zone. */
  lemma ReferralOk(m: Response, zone: Text, q: (Text, u16), a: Addresses)
    requires Clean(m, zone) && KindOf(m, q.0, q.1) == Referral
    ensures var hosts := NsHosts(m.authority) - {[]};
            var child, glue := LastNsOwner(m.authority), GlueRecords(hosts, m.additional, a);
            && InZone(child, Lower(zone)) && Lower(child) == child && AllWithin(m.authority, zone)
            && hosts <= NsHosts(m.authority)
            && forall rr :: rr in glue ==> rr.name in hosts && InZone(rr.name, Lower(zone))
  {
    hide InZone, NsHosts, LastNsOwner, ServerAt, GlueOf, IsAnswer, IsDnameAbove, IsCoveringSOA;
    LastNsOwnerFrom(m.authority);
    var hosts := NsHosts(m.authority) - {[]};
    forall g | g in GlueRecords(hosts, m.additional, a) ensures g.name in hosts && InZone(g.name, Lower(zone)) {
      var h :| h in hosts && g in GlueOf(ServerAt(h, m.additional, a), a);
      GlueRecord(h, m.additional, a, g);
      var rr :| rr in m.additional && rr.rtype != TYPE_OPT && Lower(rr.name) == h;
      assert IsGlue(rr, NsHosts(m.authority), Lower(zone));
    }
  }

  lemma GlueRecord(host: Text, additional: seq<RR>, a: Addresses, g: RR)
    requires g in GlueOf(ServerAt(host, additional, a), a)
    ensures exists rr :: rr in additional && rr.rtype != TYPE_OPT && Lower(rr.name) == host
  {
    hide LastGlue, ParseIPv4;
    if LastGlue(additional, host, TYPE_A, a.v4).0 != [] { GlueFrom(additional, host, TYPE_A, a.v4); }
    if LastGlue(additional, host, TYPE_AAAA, a.v6).0 != [] { GlueFrom(additional, host, TYPE_AAAA, a.v6); }
  }

  // ---- what every run keeps ----

  /** The rest of a run after its first step. */
  lemma Rest(cfg: Config, net: Net, qtype: u16, log: seq<Step>, c: Cursor, run: seq<Step>, r: Option<Resolution>)
    returns (to: Cursor, sub: Option<Resolution>)
    requires run != [] && !Stops(run[0]) && Resolves(cfg, net, qtype, log, c, run, r)
    ensures GoesOn(net, run[0], to) && Resolves(cfg, net, qtype, log + [run[0]], to, run[1..], sub)
    ensures r == Through(run[0], sub)
  {
    hide IsStep, GoesOn, Halts, Through;
    to, sub :| GoesOn(net, run[0], to) && Resolves(cfg, net, qtype, log + [run[0]], to, run[1..], sub)
               && r == Through(run[0], sub);
  }

  lemma KeysGrow(log: seq<Step>, s: Step)
    ensures KeysOf(log + [s]) == KeysOf(log) + {KeyOf(s)}
    ensures TargetsOf(log + [s]) == TargetsOf(log) + if s.outcome.Redirected? then {Lower(s.outcome.target)} else {}
  {
    hide KeyOf;
    assert forall x :: x in log + [s] <==> x in log || x == s;
  }

  /** In every run each step is in order: see StepOk. */
  lemma {:induction false} StepsAreOk(cfg: Config, net: Net, qtype: u16, log: seq<Step>, c: Cursor, run: seq<Step>,
                                      r: Option<Resolution>, i: nat)
    requires Resolves(cfg, net, qtype, log, c, run, r) && i < |run|
    ensures StepOk(run[i])
    decreases |run|
  {
    hide IsStep, GoesOn, Halts, Through, StepOk;
    StepIsOk(cfg, net, qtype, log, c, run[0]);
    if i > 0 {
      var to, sub := Rest(cfg, net, qtype, log, c, run, r);
      StepsAreOk(cfg, net, qtype, log + [run[0]], to, run[1..], sub, i - 1);
    }
  }

  /** No visited key of the log or the run is visited again. */
  lemma {:induction false} KeysAreNew(cfg: Config, net: Net, qtype: u16, log: seq<Step>, c: Cursor, run: seq<Step>,
                                      r: Option<Resolution>, j: nat)
    requires Resolves(cfg, net, qtype, log, c, run, r) && j < |run|
    ensures KeyOf(run[j]) !in KeysOf(log) && forall i :: 0 <= i < j ==> KeyOf(run[i]) != KeyOf(run[j])
    decreases |run|
  {
    hide GoesOn, Halts, Through, Conversation, OutcomeOf, KeysOf, TargetsOf, Key;
    if j > 0 {
      var to, sub := Rest(cfg, net, qtype, log, c, run, r);
      var rest := run[1..];
      KeysAreNew(cfg, net, qtype, log + [run[0]], to, rest, sub, j - 1);
      KeysGrow(log, run[0]);
      forall i | 0 < i < j ensures KeyOf(run[i]) != KeyOf(run[j]) { assert run[i] == rest[i - 1]; }
    }
  }

  /** No (server, name, zone) triple is visited twice. */
  lemma TriplesDistinct(cfg: Config, net: Net, qtype: u16, log: seq<Step>, c: Cursor, run: seq<Step>,
                        r: Option<Resolution>, i: nat, j: nat)
    requires Resolves(cfg, net, qtype, log, c, run, r) && i < j < |run|
    ensures (run[i].ip, run[i].at.name, run[i].at.zone) != (run[j].ip, run[j].at.name, run[j].at.zone)
  {
    hide Resolves;
    KeysAreNew(cfg, net, qtype, log, c, run, r, j);
  }

  lemma OutcomeIsNew(cfg: Config, net: Net, qtype: u16, log: seq<Step>, c: Cursor, s: Step)
    requires IsStep(cfg, net, qtype, log, c, s) && s.outcome.Redirected?
    ensures Lower(s.outcome.target) !in TargetsOf(log)
  {
    hide MayStep, Conversation, TargetsOf, HopRecords, AliasTarget, VerdictAt, NsHosts, LastNsOwner, GlueRecords;
  }

  /** No alias target is followed twice. */
  lemma {:induction false} TargetsAreNew(cfg: Config, net: Net, qtype: u16, log: seq<Step>, c: Cursor, run: seq<Step>,
                                         r: Option<Resolution>, j: nat)
    requires Resolves(cfg, net, qtype, log, c, run, r) && j < |run| && run[j].outcome.Redirected?
    ensures Lower(run[j].outcome.target) !in TargetsOf(log)
    ensures forall i :: 0 <= i < j && run[i].outcome.Redirected? ==>
              Lower(run[i].outcome.target) != Lower(run[j].outcome.target)
    decreases |run|
  {
    hide GoesOn, Halts, Through, IsStep, KeysOf, TargetsOf, Lower;
    if j == 0 {
      OutcomeIsNew(cfg, net, qtype, log, c, run[0]);
    } else {
      var to, sub := Rest(cfg, net, qtype, log, c, run, r);
      var rest := run[1..];
      TargetsAreNew(cfg, net, qtype, log + [run[0]], to, rest, sub, j - 1);
      KeysGrow(log, run[0]);
      forall i | 0 < i < j && run[i].outcome.Redirected?
        ensures Lower(run[i].outcome.target) != Lower(run[j].outcome.target)
      {
        assert run[i] == rest[i - 1];
      }
    }
  }

  /** Levels only grow, and within one level zones only get narrower. */
  lemma {:induction false} ZonesNarrow(cfg: Config, net: Net, qtype: u16, log: seq<Step>, c: Cursor, run: seq<Step>,
                                       r: Option<Resolution>, j: nat)
    requires Resolves(cfg, net, qtype, log, c, run, r) && j < |run|
    ensures run[j].at.level >= c.level && (run[j].at.level == c.level ==> Below(run[j].at.zone, c.zone))
    ensures forall i :: 0 <= i < j && run[i].at.level == run[j].at.level ==> Below(run[j].at.zone, run[i].at.zone)
    decreases |run|
  {
    hide Halts, Through, IsStep, GoesOn, InZone, StepOk, Lower;
    InLevel(cfg, net, qtype, log, c, run[0]);
    if j > 0 {
      var to, sub := Rest(cfg, net, qtype, log, c, run, r);
      var rest := run[1..];
      ZonesNarrow(cfg, net, qtype, log + [run[0]], to, rest, sub, j - 1);
      StepIsOk(cfg, net, qtype, log, c, run[0]);
      StepNarrows(net, run[0], to, run[j].at);
      forall i | 0 < i < j && run[i].at.level == run[j].at.level ensures Below(run[j].at.zone, run[i].at.zone) {
        assert run[i] == rest[i - 1];
      }
    }
  }

  lemma StepNarrows(net: Net, s: Step, to: Cursor, later: Cursor)
    requires StepOk(s) && GoesOn(net, s, to)
    requires later.level >= to.level && (later.level == to.level ==> Below(later.zone, to.zone))
    ensures later.level >= s.at.level && (later.level == s.at.level ==> Below(later.zone, s.at.zone))
  {
    hide InZone, AllWithin, OneMoreLabel;
    if s.outcome.Referred? && later.level == s.at.level && later.zone != to.zone {
      InZoneTransitive(later.zone, to.zone, Lower(s.at.zone));
    }
  }

  // ---- how long a run is ----

  function Positive(n: int): nat {
    if n > 0 then n else 0
  }

  /** Steps that the loop may still take from a level and depth on. */
  function Budget(cfg: Config, level: nat, depth: nat): nat {
    if level > cfg.maxAliases then 0
    else Positive(cfg.maxDepth - depth) + Positive(cfg.maxDepth) * (cfg.maxAliases - level)
  }

  lemma NextLevel(cfg: Config, level: nat)
    requires level <= cfg.maxAliases
    ensures Budget(cfg, level + 1, 0) <= Positive(cfg.maxDepth) * (cfg.maxAliases - level)
  {
    var d, n := Positive(cfg.maxDepth), cfg.maxAliases - level;
    if n > 0 { assert d * n == d + d * (n - 1); }
  }

  lemma {:induction false} RunIsBounded(cfg: Config, net: Net, qtype: u16, log: seq<Step>, c: Cursor, run: seq<Step>,
                                        r: Option<Resolution>)
    requires Resolves(cfg, net, qtype, log, c, run, r)
    ensures |run| <= Budget(cfg, c.level, c.depth)
    decreases |run|
  {
    hide Halts, Through, IsStep, GoesOn, Budget;
    if run == [] {
    } else if Stops(run[0]) {
      InLevel(cfg, net, qtype, log, c, run[0]);
      BudgetSteps(cfg, c.level, c.depth);
    } else {
      InLevel(cfg, net, qtype, log, c, run[0]);
      BudgetSteps(cfg, c.level, c.depth);
      var to, sub := Rest(cfg, net, qtype, log, c, run, r);
      RunIsBounded(cfg, net, qtype, log + [run[0]], to, run[1..], sub);
      GoesFurther(net, run[0], to);
    }
  }

  /** A step uses up one unit of the budget, on its level or by going to the next. */
  lemma BudgetSteps(cfg: Config, level: nat, depth: nat)
    requires level <= cfg.maxAliases && depth < cfg.maxDepth
    ensures Budget(cfg, level, depth) >= 1 + Budget(cfg, level, depth + 1)
    ensures Budget(cfg, level, depth) >= 1 + Budget(cfg, level + 1, 0)
  {
    NextLevel(cfg, level);
    PositiveStep(cfg.maxDepth - depth);
    NotNegative(cfg, level);
  }

  lemma GoesFurther(net: Net, s: Step, to: Cursor)
    requires GoesOn(net, s, to)
    ensures (to.level == s.at.level && to.depth == s.at.depth + 1) || (to.level == s.at.level + 1 && to.depth == 0)
  {
    hide Without, ServersFrom;
  }

  lemma PositiveStep(n: int)
    requires n > 0
    ensures Positive(n) == Positive(n - 1) + 1
  {}

  lemma NotNegative(cfg: Config, level: nat)
    requires level <= cfg.maxAliases
    ensures Positive(cfg.maxDepth) * (cfg.maxAliases - level) >= 0
  {}

  /** The questions sent upstream in a run. */
  function Questions(run: seq<Step>): nat {
    if run == [] then 0 else |run[0].talk.asked| + Questions(run[1..])
  }

  lemma {:induction false} QuestionsAtMost(run: seq<Step>)
    requires forall i :: 0 <= i < |run| ==> |run[i].talk.asked| <= 2
    ensures Questions(run) <= 2 * |run|
  {
    if run != [] { QuestionsAtMost(run[1..]); }
  }

  /** At most 2 * MaxDepth * (MaxCNAMEDepth + 1) questions go out in one resolution. */
  lemma QuestionBound(cfg: Config, net: Net, qtype: u16, log: seq<Step>, c: Cursor, run: seq<Step>,
                      r: Option<Resolution>)
    requires Resolves(cfg, net, qtype, log, c, run, r) && c.level == 0 && c.depth == 0
    requires cfg.maxDepth >= 0 && cfg.maxAliases >= 0
    ensures Questions(run) <= 2 * cfg.maxDepth * (cfg.maxAliases + 1)
  {
    hide Resolves, OneMoreLabel, AllWithin, InZone;
    forall i | 0 <= i < |run| ensures |run[i].talk.asked| <= 2 { StepsAreOk(cfg, net, qtype, log, c, run, r, i); }
    QuestionsAtMost(run);
    RunIsBounded(cfg, net, qtype, log, c, run, r);
    Doubled(Questions(run), |run|, cfg.maxDepth, cfg.maxAliases);
  }

  lemma Doubled(q: nat, n: nat, d: nat, a: nat)
    requires q <= 2 * n && n <= d + d * a
    ensures q <= 2 * d * (a + 1)
  {
    assert 2 * d * (a + 1) == 2 * (d + d * a);
  }

  // ---- the verdict of the chain ----

  predicate HasVerdict(s: Step) {
    s.outcome.Redirected? || s.outcome.Ended?
  }

  /** Every alias hop and the end of the chain validated Secure. */
  ghost predicate AllSecure(run: seq<Step>) {
    forall i :: 0 <= i < |run| && HasVerdict(run[i]) ==> run[i].outcome.verdict == Secure
  }

  ghost predicate SomeBogus(run: seq<Step>) {
    exists i :: 0 <= i < |run| && HasVerdict(run[i]) && run[i].outcome.verdict == Bogus
  }

  ghost predicate SomeVerdict(run: seq<Step>) {
    exists i :: 0 <= i < |run| && HasVerdict(run[i])
  }

  ghost predicate SomeHop(run: seq<Step>) {
    exists i :: 0 <= i < |run| && run[i].outcome.Redirected?
  }

  /** The run ends with a response whose verdict is not Bogus. */
  predicate Answered(run: seq<Step>) {
    run != [] && run[|run| - 1].outcome.Ended? && run[|run| - 1].outcome.verdict != Bogus
  }

  /** The status of a run by the verdicts on its way, whatever its result is. */
  ghost function StatusOf(cfg: Config, run: seq<Step>): Status {
    if !cfg.validating then (if SomeHop(run) then StatusInsecure else NoStatus)
    else if SomeBogus(run) then StatusBogus
    else if !SomeVerdict(run) then NoStatus
    else if AllSecure(run) then StatusSecure
    else StatusInsecure
  }

  /** The law of the chain verdict. There is no result only when the alias chain was too long, and
      then no verdict was Bogus. Otherwise the status is exactly that of the verdicts, and the
      result is other than a server failure exactly if the run was answered. */
  ghost predicate VerdictOk(cfg: Config, run: seq<Step>, r: Option<Resolution>) {
    match r
    case None => !SomeBogus(run) && (run == [] || run[|run| - 1].outcome.Redirected?)
    case Some(d) => d.status == StatusOf(cfg, run) && (d.rcode != RCODE_SERVFAIL <==> Answered(run))
  }

  lemma {:induction false} ChainVerdict(cfg: Config, net: Net, qtype: u16, log: seq<Step>, c: Cursor, run: seq<Step>,
                                        r: Option<Resolution>)
    requires Resolves(cfg, net, qtype, log, c, run, r)
    ensures VerdictOk(cfg, run, r)
    decreases |run|
  {
    hide GoesOn, Conversation, MayStep, KeysOf, Combine, IsStep, StatusOf, SomeBogus, Answered;
    if run == [] {
      NothingJudged(cfg);
    } else if Stops(run[0]) {
      StopVerdict(cfg, net, qtype, log, c, run[0]);
      assert run == [run[0]];
    } else {
      var to, sub := Rest(cfg, net, qtype, log, c, run, r);
      ChainVerdict(cfg, net, qtype, log + [run[0]], to, run[1..], sub);
      if HasVerdict(run[0]) { NotValidating(cfg, net, qtype, log, c, run[0]); }
      InLevel(cfg, net, qtype, log, c, run[0]);
      if run[1..] == [] { LastHalts(cfg, net, qtype, log, run[0], to, sub); }
      AddVerdict(cfg, run[0], run[1..], sub);
      assert run == [run[0]] + run[1..];
    }
  }

  lemma NothingJudged(cfg: Config)
    ensures StatusOf(cfg, []) == NoStatus && !SomeBogus([]) && !Answered([])
  {}

  lemma InLevel(cfg: Config, net: Net, qtype: u16, log: seq<Step>, c: Cursor, s: Step)
    requires IsStep(cfg, net, qtype, log, c, s)
    ensures s.at == c && c.level <= cfg.maxAliases && c.depth < cfg.maxDepth
  {
    hide Conversation, OutcomeOf, KeysOf;
  }

  /** The loop stops right behind a step: only behind an alias can the chain be too long. */
  lemma LastHalts(cfg: Config, net: Net, qtype: u16, log: seq<Step>, s: Step, to: Cursor, sub: Option<Resolution>)
    requires GoesOn(net, s, to) && Resolves(cfg, net, qtype, log + [s], to, [], sub) && s.at.level <= cfg.maxAliases
    ensures sub.None? ==> s.outcome.Redirected?
  {}

  lemma StopVerdict(cfg: Config, net: Net, qtype: u16, log: seq<Step>, c: Cursor, s: Step)
    requires IsStep(cfg, net, qtype, log, c, s) && Stops(s)
    ensures VerdictOk(cfg, [s], Some(FinalOf(cfg, s)))
  {
    hide IsStep;
    var run := [s];
    assert run[0] == s;
    assert SomeVerdict(run) <==> HasVerdict(s);
    assert HasVerdict(s) ==> (AllSecure(run) <==> s.outcome.verdict == Secure);
    assert SomeBogus(run) <==> HasVerdict(s) && s.outcome.verdict == Bogus;
    assert SomeHop(run) <==> s.outcome.Redirected?;
    if HasVerdict(s) { NotValidating(cfg, net, qtype, log, c, s); }
  }

  /** A verdict comes with a reply, and without the validator it is Insecure. */
  lemma NotValidating(cfg: Config, net: Net, qtype: u16, log: seq<Step>, c: Cursor, s: Step)
    requires IsStep(cfg, net, qtype, log, c, s) && HasVerdict(s)
    ensures s.talk.reply.Some? && (cfg.validating || s.outcome.verdict == Insecure)
  {
    hide Conversation, TargetsOf, HopRecords, AliasTarget, NsHosts, LastNsOwner, GlueRecords;
  }

  /** One more step in front of a run. */
  lemma AddVerdict(cfg: Config, s: Step, rest: seq<Step>, sub: Option<Resolution>)
    requires VerdictOk(cfg, rest, sub) && !Stops(s)
    requires s.outcome.Redirected? ==> cfg.validating || s.outcome.verdict == Insecure
    requires rest == [] && sub.None? ==> s.outcome.Redirected?
    ensures VerdictOk(cfg, [s] + rest, Through(s, sub))
  {
    hide AllSecure, SomeBogus, SomeVerdict, SomeHop;
    VerdictParts(s, rest);
    assert rest != [] ==> ([s] + rest)[|rest|] == rest[|rest| - 1];
    if rest == [] { NothingJudged(cfg); }
  }

  lemma VerdictParts(s: Step, rest: seq<Step>)
    ensures AllSecure([s] + rest) <==> (HasVerdict(s) ==> s.outcome.verdict == Secure) && AllSecure(rest)
    ensures SomeBogus([s] + rest) <==> (HasVerdict(s) && s.outcome.verdict == Bogus) || SomeBogus(rest)
    ensures SomeVerdict([s] + rest) <==> HasVerdict(s) || SomeVerdict(rest)
    ensures SomeHop([s] + rest) <==> s.outcome.Redirected? || SomeHop(rest)
    ensures !SomeVerdict(rest) ==> AllSecure(rest)
  {
    var all := [s] + rest;
    assert all[0] == s;
    assert forall i :: 0 <= i < |rest| ==> all[i + 1] == rest[i];
    assert forall i :: 0 < i < |all| ==> all[i] == rest[i - 1];
  }

  /** A server failure is marked "secure", exactly, if there was a verdict on the way, all of them
      were Secure, and the run does not end with a response. */
  lemma SecureFailureIff(cfg: Config, net: Net, qtype: u16, log: seq<Step>, c: Cursor, run: seq<Step>,
                         r: Option<Resolution>)
    requires Resolves(cfg, net, qtype, log, c, run, r) && cfg.validating && r.Some? && r.value.rcode == RCODE_SERVFAIL
    ensures r.value.status == StatusSecure
       <==> SomeVerdict(run) && AllSecure(run) && !run[|run| - 1].outcome.Ended?
  {
    hide Resolves;
    ChainVerdict(cfg, net, qtype, log, c, run, r);
    assert run != [] && run[|run| - 1].outcome.Ended? ==> HasVerdict(run[|run| - 1]);
  }

  /** Every record handed back was used in some step, and so lies in the zone of that step. */
  lemma {:induction false} RecordsWereUsed(cfg: Config, net: Net, qtype: u16, log: seq<Step>, c: Cursor, run: seq<Step>,
                                           r: Option<Resolution>, rr: RR)
    requires Resolves(cfg, net, qtype, log, c, run, r) && r.Some? && (rr in r.value.answers || rr in r.value.authority)
    ensures exists i :: 0 <= i < |run| && HasVerdict(run[i]) && rr in run[i].outcome.records
                        && Within(rr, Lower(run[i].at.zone))
    decreases |run|
  {
    hide GoesOn, MayStep, Conversation, KeysOf, Combine, IsStep, Within;
    if run != [] {
      StepIsOk(cfg, net, qtype, log, c, run[0]);
      if Stops(run[0]) {
        FinalRecords(cfg, net, qtype, log, c, run[0]);
      } else if !(run[0].outcome.Redirected? && rr in run[0].outcome.records) {
        var to, sub := Rest(cfg, net, qtype, log, c, run, r);
        var rest := run[1..];
        RecordsWereUsed(cfg, net, qtype, log + [run[0]], to, rest, sub, rr);
        var i :| 0 <= i < |rest| && HasVerdict(rest[i]) && rr in rest[i].outcome.records
            && Within(rr, Lower(rest[i].at.zone));
        assert run[i + 1] == rest[i];
      }
    }
  }

  lemma FinalRecords(cfg: Config, net: Net, qtype: u16, log: seq<Step>, c: Cursor, s: Step)
    requires IsStep(cfg, net, qtype, log, c, s) && Stops(s)
    ensures var r := FinalOf(cfg, s);
            r.answers + r.authority == if s.outcome.Ended? then s.outcome.records else []
  {
    hide MayStep, Conversation, TargetsOf, HopRecords, AliasTarget, NsHosts, LastNsOwner, GlueRecords;
  }

  // ---- keys and statuses ----

  /** The text key stands for the triple, as long as addresses and names have no bar in them, so
      that a loop is reported exactly when the triple was visited. */
  lemma KeyIsTriple(ip: Text, name: Text, zone: Text, ip': Text, name': Text, zone': Text)
    requires BAR !in ip && BAR !in ip' && BAR !in name && BAR !in name'
    ensures Key(ip, name, zone) == Key(ip', name', zone') <==> (ip, name, zone) == (ip', name', zone')
  {
    if Key(ip, name, zone) == Key(ip', name', zone') {
      assert ip + [BAR] + name + [BAR] + zone == ip + [BAR] + (name + [BAR] + zone);
      assert ip' + [BAR] + name' + [BAR] + zone' == ip' + [BAR] + (name' + [BAR] + zone');
      BarSplits(ip, name + [BAR] + zone, ip', name' + [BAR] + zone');
      BarSplits(name, zone, name', zone');
    }
  }

  lemma BarSplits(a: Text, b: Text, a': Text, b': Text)
    requires BAR !in a && BAR !in a' && a + [BAR] + b == a' + [BAR] + b'
    ensures a == a' && b == b'
  {
    var s, s' := a + [BAR] + b, a' + [BAR] + b';
    assert s[|a|] == BAR && s'[|a'|] == BAR;
    assert forall i :: 0 <= i < |a| ==> s[i] == a[i];
    assert forall i :: 0 <= i < |a'| ==> s'[i] == a'[i];
    assert |a| == |a'|;
    assert a == s[..|a|] && a' == s'[..|a'|];
    assert b == s[|a| + 1..] && b' == s'[|a'| + 1..];
  }

  // ---- an example ----

  const ALIAS: RR := RR([97], TYPE_CNAME, 1, 0, 3, [1, 98, 0])

  /** The root server answers "a" with an alias to "b" that validates Secure; no server can be
      selected for "b". */
  const SMALL_NET: Net := Net((level, depth, servers, zone) => if level == 0 then Some([49]) else None,
                              (level, depth, ip, name, qtype) => Some(Response(0, true, [ALIAS], [], [])),
                              (level, depth, m, name, qtype) => Secure,
                              Addresses(d => None, d => None, t => None), [])

  const SMALL_CONFIG: Config := Config(1, 1, false, true)
  const START: Cursor := Cursor(0, 0, [], [97], [])

  function HopStepOf(): Step {
    Step(START, [49], Talk([([97], TYPE_A)], Some(Response(0, true, [ALIAS], [], [])), Alias),
         Redirected([98], [ALIAS], Secure))
  }

  lemma SmallReply()
    ensures Sanitized(Response(0, true, [ALIAS], [], []), []) == Response(0, true, [ALIAS], [], [])
    ensures KindOf(Response(0, true, [ALIAS], [], []), [97], TYPE_A) == Alias
  {
    RootKeepsAll([ALIAS]);
    assert Lower([]) == [] && Lower([97]) == [97];
    assert ALIAS in [ALIAS] && IsAnswer(ALIAS, [97], TYPE_CNAME);
  }

  lemma SmallAlias()
    ensures CnameTarget([ALIAS], [97]) == [98] && HopRecords([ALIAS], [97], false) == [ALIAS]
  {
    assert Lower([97]) == [97] && Lower([98]) == [98];
    assert TargetIn(ALIAS) == [98] by { SmallTarget(); }
    var rest: seq<RR> := [ALIAS][1..];
    assert rest == [] && HopRecords(rest, [97], false) == [];
  }

  lemma SmallTarget()
    ensures NsHost(ALIAS) == Some([98])
  {
    var d := ALIAS.rdata;
    assert d[1..2] == [98];
    assert Lower([98]) == [98];
  }

  lemma SmallStep()
    ensures IsStep(SMALL_CONFIG, SMALL_NET, TYPE_A, [], START, HopStepOf())
  {
    hide Sanitized, KindOf, CnameTarget, HopRecords;
    SmallReply();
    SmallAlias();
    assert [] + [([97], TYPE_A)] == [([97], TYPE_A)];
    assert KeysOf([]) == {} && TargetsOf([]) == {};
  }

  /** A run that fails behind a secure alias: its result is a server failure marked "secure". */
  lemma SecureFailureCounterexample()
    ensures Resolves(SMALL_CONFIG, SMALL_NET, TYPE_A, [], START, [HopStepOf()],
                     Some(Resolution([ALIAS], [], RCODE_SERVFAIL, StatusSecure)))
  {
    hide IsStep;
    SmallStep();
    var s := HopStepOf();
    var to := Cursor(1, 0, [], [98], []);
    assert Resolves(SMALL_CONFIG, SMALL_NET, TYPE_A, [] + [s], to, [s][1..], Some(FAILURE));
    assert GoesOn(SMALL_NET, s, to);
    assert [ALIAS] + [] == [ALIAS];
  }
}
