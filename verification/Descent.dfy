/** Whether the current zone of the resolution loop stays at or above the name it asks for
    (resolver/resolver.go, resolver/delegation.go). A referral may delegate any zone below the
    current one, the name's own side of the tree or not. */
module Descent {
  import opened Bytes
  import opened Labels
  import opened Records
  import opened Bailiwick
  import opened Replies
  import opened TrustChain
  import opened Runs

  function Canonical(t: Text): Text {
    Lower(TrimDot(t))
  }

  /** The current zone is at or above the name. */
  predicate OnPath(c: Cursor) {
    InZone(Canonical(c.name), Canonical(c.zone))
  }

  // ---- the tree relation up to case and a final dot ----

  lemma TrimInZone(a: Text, z: Text)
    requires InZone(a, z)
    ensures InZone(TrimDot(a), TrimDot(z))
  {
    if z != [] && a != z {
      var n := |a| - |z|;
      assert a[n - 1..] == [DOT] + z;
      assert a[|a| - 1] == ([DOT] + z)[|z|] == z[|z| - 1];
      if z[|z| - 1] == DOT {
        assert a[..|a| - 1][n - 1..] == ([DOT] + z)[..|z|] == [DOT] + z[..|z| - 1];
      }
    }
  }

  lemma LowerInZone(a: Text, z: Text)
    requires InZone(a, z)
    ensures InZone(Lower(a), Lower(z))
  {
    if z != [] && a != z {
      var n := |a| - |z|;
      var s := [DOT] + z;
      assert a[n - 1..] == s;
      forall i | 0 <= i < |s| ensures Lower(a)[n - 1..][i] == ([DOT] + Lower(z))[i] {
        assert a[n - 1..][i] == s[i];
      }
      assert Lower(a)[n - 1..] == [DOT] + Lower(z);
    }
  }

  lemma CanonicalForms(t: Text)
    ensures Canonical(Lower(t)) == Canonical(t) && Lower(Canonical(t)) == Canonical(t)
  {
    assert Lower(Lower(t)) == Lower(t);
    assert t != [] ==> (Lower(t)[|t| - 1] == DOT <==> t[|t| - 1] == DOT);
    if t != [] && t[|t| - 1] == DOT { assert Lower(t)[..|t| - 1] == Lower(t[..|t| - 1]); }
    assert Lower(Lower(TrimDot(t))) == Lower(TrimDot(t));
  }

  /** The tests of the code, which compare lower case texts as they are, imply the relation. */
  lemma CanonicalInZone(a: Text, z: Text)
    requires InZone(a, Lower(z)) || InZone(Lower(a), Lower(z))
    ensures InZone(Canonical(a), Canonical(z))
  {
    hide Lower, TrimDot, InZone;
    CanonicalForms(a);
    CanonicalForms(z);
    if InZone(a, Lower(z)) {
      TrimInZone(a, Lower(z));
      LowerInZone(TrimDot(a), TrimDot(Lower(z)));
    } else {
      TrimInZone(Lower(a), Lower(z));
      LowerInZone(TrimDot(Lower(a)), TrimDot(Lower(z)));
    }
  }

  lemma Rises(name: Text, zone: Text, above: Text)
    requires InZone(Canonical(name), Canonical(zone)) && Below(zone, above)
    ensures InZone(Canonical(name), Canonical(above))
  {
    hide Canonical, InZone, Lower;
    if zone != above {
      CanonicalInZone(zone, above);
      InZoneTransitive(Canonical(name), Canonical(zone), Canonical(above));
    }
  }

  // ---- off the path ----

  /** A record of the zone that answers, aliases or denies the name puts the zone above it. */
  lemma UsableIsOnPath(c: Cursor, rr: RR, qtype: u16)
    requires Within(rr, Lower(c.zone))
    requires IsAnswer(rr, c.name, qtype) || IsDnameAbove(rr, c.name) || IsCoveringSOA(rr, c.name)
    ensures OnPath(c)
  {
    hide Lower, TrimDot;
    var owner, zone := Lower(rr.name), Lower(c.zone);
    if IsAnswer(rr, c.name, qtype) {
      CanonicalInZone(c.name, c.zone);
    } else if IsDnameAbove(rr, c.name) {
      InZoneTransitive(c.name, owner, zone);
      CanonicalInZone(c.name, c.zone);
    } else {
      CanonicalInZone(rr.name, c.zone);
      InZoneTransitive(Canonical(c.name), Canonical(rr.name), Canonical(c.zone));
    }
  }

  /** So off the path a clean reply can only deny the name, refer further, or be of no use. */
  lemma OffPathKind(c: Cursor, m: Response, qtype: u16)
    requires Clean(m, c.zone) && !OnPath(c)
    ensures KindOf(m, c.name, qtype) in {NXDomain, Referral, ServFail}
  {
    hide Within, IsAnswer, IsDnameAbove, IsCoveringSOA, IsGlue, NsHosts, OnPath;
    forall rr | rr in m.answers
      ensures !IsAnswer(rr, c.name, qtype) && !IsAnswer(rr, c.name, TYPE_CNAME) && !IsDnameAbove(rr, c.name)
    {
      if IsAnswer(rr, c.name, qtype) || IsDnameAbove(rr, c.name) { UsableIsOnPath(c, rr, qtype); }
      if IsAnswer(rr, c.name, TYPE_CNAME) { UsableIsOnPath(c, rr, TYPE_CNAME); }
    }
    forall rr | rr in m.authority ensures !IsCoveringSOA(rr, c.name) {
      if IsCoveringSOA(rr, c.name) { UsableIsOnPath(c, rr, qtype); }
    }
  }

  lemma OffPathStep(cfg: Config, net: Net, qtype: u16, log: seq<Step>, c: Cursor, s: Step)
    requires IsStep(cfg, net, qtype, log, c, s) && !OnPath(c)
    ensures !s.outcome.Redirected? && (s.outcome.Ended? ==> s.talk.kind == NXDomain)
  {
    hide Conversation, MayStep, KindOf, OneMoreLabel, TargetsOf, NsHosts, LastNsOwner, GlueRecords, HopRecords, OnPath;
    hide AliasTarget, Clean, VerdictAt;
    ConversationOk(cfg, net, c, s.ip, qtype);
    if s.talk.reply.Some? && s.talk.kind != Referral { OffPathKind(c, s.talk.reply.value, qtype); }
  }

  lemma StaysOff(net: Net, s: Step, to: Cursor)
    requires StepOk(s) && GoesOn(net, s, to) && !s.outcome.Redirected?
    ensures to.level == s.at.level && to.name == s.at.name && Below(to.zone, s.at.zone)
    ensures OnPath(to) ==> OnPath(s.at)
  {
    hide InZone, AllWithin, OneMoreLabel, Canonical, ServersFrom, Without;
    if OnPath(to) { Rises(to.name, to.zone, s.at.zone); }
  }

  /** Once off the path, always off it, and the resolution ends in a denial or a failure: a zone
      beside the name can deny it but never answer for it. */
  lemma {:induction false} OffPathResult(cfg: Config, net: Net, qtype: u16, log: seq<Step>, c: Cursor, run: seq<Step>,
                                         r: Option<Resolution>)
    requires Resolves(cfg, net, qtype, log, c, run, r) && !OnPath(c) && c.level <= cfg.maxAliases
    ensures r.Some? && r.value.answers == [] && r.value.rcode in {RCODE_SERVFAIL, RCODE_NXDOMAIN}
    ensures forall i :: 0 <= i < |run| ==> !OnPath(run[i].at)
    decreases |run|
  {
    hide IsStep, GoesOn, OnPath, StepOk;
    if run != [] {
      OffPathStep(cfg, net, qtype, log, c, run[0]);
      StepAt(cfg, net, qtype, log, c, run[0]);
      if !Stops(run[0]) {
        var to, sub := Rest(cfg, net, qtype, log, c, run, r);
        StepIsOk(cfg, net, qtype, log, c, run[0]);
        StaysOff(net, run[0], to);
        var rest := run[1..];
        OffPathResult(cfg, net, qtype, log + [run[0]], to, rest, sub);
        forall i | 0 < i < |run| ensures !OnPath(run[i].at) { assert run[i] == rest[i - 1]; }
      }
    }
  }

  lemma StepAt(cfg: Config, net: Net, qtype: u16, log: seq<Step>, c: Cursor, s: Step)
    requires IsStep(cfg, net, qtype, log, c, s)
    ensures s.at == c
  {
    hide MayStep, Conversation, OutcomeOf;
  }

  /** Any other result was found on the path: every step of the run was taken in a zone at or
      above the name it asked for. */
  lemma {:induction false} AnswersAreOnPath(cfg: Config, net: Net, qtype: u16, log: seq<Step>, c: Cursor,
                                            run: seq<Step>, r: Option<Resolution>)
    requires Resolves(cfg, net, qtype, log, c, run, r)
    requires r.Some? && r.value.rcode !in {RCODE_SERVFAIL, RCODE_NXDOMAIN}
    ensures forall i :: 0 <= i < |run| ==> OnPath(run[i].at)
    decreases |run|
  {
    hide IsStep, GoesOn, OnPath, MayStep;
    if run != [] {
      InLevel(cfg, net, qtype, log, c, run[0]);
      if !OnPath(c) { OffPathResult(cfg, net, qtype, log, c, run, r); }
      if !Stops(run[0]) {
        var to, sub := Rest(cfg, net, qtype, log, c, run, r);
        var rest := run[1..];
        AnswersAreOnPath(cfg, net, qtype, log + [run[0]], to, rest, sub);
        forall i | 0 < i < |run| ensures OnPath(run[i].at) { assert run[i] == rest[i - 1]; }
      }
    }
  }

  // ---- the exact condition ----

  /** The step was a referral to a zone that is not at or above the name. */
  predicate Sideways(s: Step) {
    s.outcome.Referred? && !InZone(Canonical(s.at.name), Canonical(s.outcome.child))
  }

  /** Where a step from the path leads: off it exactly if it was a sideways referral. */
  lemma LeavesIff(net: Net, s: Step, to: Cursor)
    requires GoesOn(net, s, to) && OnPath(s.at)
    ensures OnPath(to) <==> !Sideways(s)
  {
    hide ServersFrom, Without;
    assert Canonical([]) == [];
  }

  /** Every step is taken at or above its name, exactly, if the run starts there and no referral
      but the last step is sideways: what the last NS record of the filtered authority section is
      owned by decides, and the code never compares it with the name. */
  lemma {:induction false} OnPathIff(cfg: Config, net: Net, qtype: u16, log: seq<Step>, c: Cursor, run: seq<Step>,
                                     r: Option<Resolution>)
    requires Resolves(cfg, net, qtype, log, c, run, r) && run != []
    ensures (forall i :: 0 <= i < |run| ==> OnPath(run[i].at))
       <==> OnPath(c) && forall i :: 0 <= i < |run| - 1 ==> !Sideways(run[i])
    decreases |run|
  {
    hide IsStep, GoesOn, OnPath, Sideways;
    StepAt(cfg, net, qtype, log, c, run[0]);
    if |run| > 1 {
      var to, sub := Rest(cfg, net, qtype, log, c, run, r);
      var rest := run[1..];
      OnPathIff(cfg, net, qtype, log + [run[0]], to, rest, sub);
      if OnPath(c) { LeavesIff(net, run[0], to); }
      NextAt(cfg, net, qtype, log + [run[0]], to, rest, sub);
      assert forall i :: 0 < i < |run| ==> run[i] == rest[i - 1];
      assert forall i :: 0 <= i < |rest| ==> rest[i] == run[i + 1];
    }
  }

  lemma NextAt(cfg: Config, net: Net, qtype: u16, log: seq<Step>, c: Cursor, run: seq<Step>, r: Option<Resolution>)
    requires Resolves(cfg, net, qtype, log, c, run, r) && run != []
    ensures run[0].at == c
  {
    hide GoesOn, Halts, Through;
    StepAt(cfg, net, qtype, log, c, run[0]);
  }

  // ---- an example ----

  const SIDE_NS: RR := RR([98], TYPE_NS, 1, 0, 3, [1, 110, 0])
  const REFERRAL: Response := Response(0, false, [], [SIDE_NS], [])
  const DENIAL: Response := Response(RCODE_NXDOMAIN, true, [], [], [])

  /** Asked for "a", the root server refers to the zone "b", whose server denies "a". */
  const SIDE_NET: Net := Net((level, depth, servers, zone) => Some([49]),
                             (level, depth, ip, name, qtype) => Some(if depth == 0 then REFERRAL else DENIAL),
                             (level, depth, m, name, qtype) => Insecure,
                             Addresses(d => None, d => None, t => None), [])

  const SIDE_CONFIG: Config := Config(2, 0, false, false)
  const SIDE_SERVERS: seq<NsEntry> := [NsEntry([110], [], [])]

  function FirstStep(): Step {
    Step(START, [49], Talk([([97], TYPE_A)], Some(REFERRAL), Referral), Referred([98], {[110]}, {}, [SIDE_NS]))
  }

  function SecondStep(): Step {
    Step(Cursor(0, 1, SIDE_SERVERS, [97], [98]), [49], Talk([([97], TYPE_A)], Some(DENIAL), NXDomain),
         Ended([], Insecure))
  }

  lemma SideReferral()
    ensures Sanitized(REFERRAL, []) == REFERRAL && KindOf(REFERRAL, [97], TYPE_A) == Referral
    ensures NsHosts([SIDE_NS]) == {[110]} && LastNsOwner([SIDE_NS]) == [98]
  {
    RootKeepsAll([SIDE_NS]);
    assert Lower([]) == [] && Lower([98]) == [98] && Lower([110]) == [110];
    var d := SIDE_NS.rdata;
    assert d[1..2] == [110];
    assert NsHost(SIDE_NS) == Some([110]);
    assert SIDE_NS in [SIDE_NS];
    NsHostsExact([SIDE_NS], [110]);
    forall h | h in NsHosts([SIDE_NS]) ensures h == [110] { NsHostsExact([SIDE_NS], h); }
  }

  lemma SideServer()
    ensures ServerAt([110], [], SIDE_NET.addresses) == Delegation([110], [], [], 0, 0)
    ensures GlueRecords({[110]}, [], SIDE_NET.addresses) == {}
    ensures ServersFrom(SIDE_SERVERS, {[110]}, [], SIDE_NET.addresses)
  {
    var e := SIDE_SERVERS[0];
    assert e in SIDE_SERVERS && e.host == [110];
  }

  lemma SideFirst()
    ensures IsStep(SIDE_CONFIG, SIDE_NET, TYPE_A, [], START, FirstStep())
  {
    hide Sanitized, KindOf, NsHosts, LastNsOwner, GlueRecords;
    SideReferral();
    SideServer();
    assert [] + [([97], TYPE_A)] == [([97], TYPE_A)];
    assert {[110]} - {[]} == {[110]};
    assert KeysOf([]) == {} && TargetsOf([]) == {};
  }

  lemma SideSecond()
    ensures IsStep(SIDE_CONFIG, SIDE_NET, TYPE_A, [FirstStep()], SecondStep().at, SecondStep())
  {
    hide NsHosts, LastNsOwner, GlueRecords;
    var c := SecondStep().at;
    assert Sanitized(DENIAL, c.zone) == DENIAL;
    assert [] + [([97], TYPE_A)] == [([97], TYPE_A)];
    SideKeys();
  }

  lemma SideKeys()
    ensures KeysOf([FirstStep()]) == {Runs.Key([49], [97], [])} && TargetsOf([FirstStep()]) == {}
    ensures Runs.Key([49], [97], [98]) != Runs.Key([49], [97], [])
  {
    var log := [FirstStep()];
    assert log[0] in log && forall s :: s in log ==> s == FirstStep();
    assert |Runs.Key([49], [97], [98])| == 5 && |Runs.Key([49], [97], [])| == 4;
  }

  /** The run follows the sideways referral and ends in a denial of "a" by a zone beside it. */
  lemma SidewaysRun()
    ensures Resolves(SIDE_CONFIG, SIDE_NET, TYPE_A, [], START, [FirstStep(), SecondStep()],
                     Some(Resolution([], [], RCODE_NXDOMAIN, NoStatus)))
    ensures OnPath(START) && Sideways(FirstStep()) && !OnPath(SecondStep().at)
  {
    hide IsStep, ServersFrom;
    SideFirst();
    SideSecond();
    SideServer();
    var a, b := FirstStep(), SecondStep();
    var run := [a, b];
    var rest := run[1..];
    var result := Some(Resolution([], [], RCODE_NXDOMAIN, NoStatus));
    assert rest == [b] && [] + [a] == [a];
    assert Resolves(SIDE_CONFIG, SIDE_NET, TYPE_A, [] + [a], b.at, rest, result);
    assert GoesOn(SIDE_NET, a, b.at);
  }
}
