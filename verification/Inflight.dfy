/** The request coalescer (resolver/inflight.go) as the atomic steps of any number of callers.

    A caller's critical sections under the mutex, the end of fn, wg.Done and the reads after
    wg.Wait are one step each; steps of different callers interleave freely. */
module Inflight {
  import opened Bytes

  type CallKey = Text

  /** How one run of fn ends: it returns a result and an error, or it panics. */
  datatype Ending = Returns(result: Option<Text>, err: Option<Text>) | Panics(message: Text)

  /** The fields a call holds once fn has ended; a panic leaves the result nil. */
  datatype Fields = Fields(result: Option<Text>, err: Option<Text>)

  function FieldsOf(e: Ending): Fields {
    match e
    case Returns(result, err) => Fields(result, err)
    case Panics(message) => Fields(None, Some(message))
  }

  /** One execution of fn: its key, the caller running it, how it ended, and whether the wait
      group is released. */
  datatype Call = Call(key: CallKey, leader: nat, ending: Option<Ending>, done: bool)

  datatype Phase =
    | Idle(key: CallKey)
    | Running(key: CallKey, id: nat)
    | Settled(key: CallKey, id: nat)
    | Released(key: CallKey, id: nat)
    | Removed(key: CallKey, id: nat)
    | Waiting(key: CallKey, id: nat)
    | Finished(key: CallKey, id: nat, got: Fields)

  datatype State = State(slots: map<CallKey, nat>, calls: seq<Call>, callers: seq<Phase>)

  datatype Action = Enter | End(ending: Ending) | Release | Remove | Return | Wake

  predicate Enabled(s: State, t: nat, a: Action) {
    && t < |s.callers|
    && match a
       case Enter => s.callers[t].Idle?
       case End(_) => s.callers[t].Running? && s.callers[t].id < |s.calls|
       case Release => s.callers[t].Settled? && s.callers[t].id < |s.calls|
       case Remove => s.callers[t].Released?
       case Return => s.callers[t].Removed? && Ended(s, s.callers[t].id)
       case Wake => s.callers[t].Waiting? && Ended(s, s.callers[t].id) && s.calls[s.callers[t].id].done
  }

  predicate Ended(s: State, id: nat) {
    id < |s.calls| && s.calls[id].ending.Some?
  }

  function Apply(s: State, t: nat, a: Action): State
    requires Enabled(s, t, a)
  {
    var p := s.callers[t];
    var k := p.key;
    match a
    case Enter =>
      if k in s.slots then s.(callers := s.callers[t := Waiting(k, s.slots[k])])
      else
        var id := |s.calls|;
        State(s.slots[k := id], s.calls + [Call(k, t, None, false)], s.callers[t := Running(k, id)])
    case End(e) =>
      s.(calls := s.calls[p.id := s.calls[p.id].(ending := Some(e))],
         callers := s.callers[t := Settled(k, p.id)])
    case Release =>
      s.(calls := s.calls[p.id := s.calls[p.id].(done := true)],
         callers := s.callers[t := Released(k, p.id)])
    case Remove => s.(slots := s.slots - {k}, callers := s.callers[t := Removed(k, p.id)])
    case Return => s.(callers := s.callers[t := Finished(k, p.id, FieldsOf(s.calls[p.id].ending.value))])
    case Wake => s.(callers := s.callers[t := Finished(k, p.id, FieldsOf(s.calls[p.id].ending.value))])
  }

  predicate Initial(s: State) {
    s.slots == map[] && s.calls == [] && forall t :: 0 <= t < |s.callers| ==> s.callers[t].Idle?
  }

  /** The caller owns the slot of its key. */
  predicate Owns(p: Phase) {
    p.Running? || p.Settled? || p.Released?
  }

  /** What holds for one caller. */
  predicate CallerOk(s: State, t: nat)
    requires t < |s.callers|
  {
    var p := s.callers[t];
    p.Idle? ||
    (&& p.id < |s.calls| && s.calls[p.id].key == p.key
     && (Owns(p) || p.Removed? ==> s.calls[p.id].leader == t)
     && (Owns(p) ==> p.key in s.slots && s.slots[p.key] == p.id)
     && (p.Running? ==> s.calls[p.id].ending.None?)
     && (p.Settled? || p.Released? || p.Removed? ==> s.calls[p.id].ending.Some?)
     && (p.Running? || p.Settled? ==> !s.calls[p.id].done)
     && (p.Finished? ==> s.calls[p.id].ending.Some? && p.got == FieldsOf(s.calls[p.id].ending.value)))
  }

  /** What holds for one execution: until the wait group is released its leader is still at
      work on it, and a released execution has ended. */
  predicate CallOk(s: State, id: nat)
    requires id < |s.calls|
  {
    var c := s.calls[id];
    && c.leader < |s.callers|
    && (c.done ==> c.ending.Some?)
    && (!c.done ==> var p := s.callers[c.leader]; (p.Running? || p.Settled?) && p.id == id)
  }

  /** A slot belongs to the caller that leads its execution. */
  predicate SlotOk(s: State, k: CallKey)
    requires k in s.slots
  {
    var id := s.slots[k];
    id < |s.calls| && s.calls[id].leader < |s.callers|
    && var p := s.callers[s.calls[id].leader]; Owns(p) && p.key == k && p.id == id
  }

  predicate Inv(s: State) {
    && (forall t :: 0 <= t < |s.callers| ==> CallerOk(s, t))
    && (forall id :: 0 <= id < |s.calls| ==> CallOk(s, id))
    && (forall k :: k in s.slots ==> SlotOk(s, k))
  }

  lemma CallerKept(s: State, t: nat, a: Action, u: nat)
    requires Inv(s) && Enabled(s, t, a) && u < |s.callers|
    ensures CallerOk(Apply(s, t, a), u)
  {
    hide Apply, Inv, CallerOk, Enabled;
    if t == u { ActorKept(s, t, a); } else { OtherKept(s, t, a, u); }
  }

  lemma ActorKept(s: State, t: nat, a: Action)
    requires Inv(s) && Enabled(s, t, a)
    ensures t < |Apply(s, t, a).callers| && CallerOk(Apply(s, t, a), t)
  {
    assert CallerOk(s, t);
    if a.Enter? && s.callers[t].key in s.slots {
      assert SlotOk(s, s.callers[t].key);
      assert CallerOk(s, s.calls[s.slots[s.callers[t].key]].leader);
    }
  }

  lemma OtherKept(s: State, t: nat, a: Action, u: nat)
    requires Inv(s) && Enabled(s, t, a) && u < |s.callers| && u != t
    ensures u < |Apply(s, t, a).callers| && CallerOk(Apply(s, t, a), u)
  {
    assert CallerOk(s, t) && CallerOk(s, u);
  }

  lemma CallKept(s: State, t: nat, a: Action, id: nat)
    requires Inv(s) && Enabled(s, t, a) && id < |Apply(s, t, a).calls|
    ensures CallOk(Apply(s, t, a), id)
  {
    assert CallerOk(s, t);
    if id < |s.calls| { assert CallOk(s, id); }
  }

  lemma SlotKept(s: State, t: nat, a: Action, k: CallKey)
    requires Inv(s) && Enabled(s, t, a) && k in Apply(s, t, a).slots
    ensures SlotOk(Apply(s, t, a), k)
  {
    assert CallerOk(s, t);
    if k in s.slots { assert SlotOk(s, k); }
  }

  /** Every step of every caller keeps the invariant. */
  lemma StepKeepsInv(s: State, t: nat, a: Action)
    requires Inv(s) && Enabled(s, t, a)
    ensures Inv(Apply(s, t, a))
  {
    var s' := Apply(s, t, a);
    hide CallerOk, CallOk, SlotOk;
    forall u | 0 <= u < |s'.callers| ensures CallerOk(s', u) { CallerKept(s, t, a, u); }
    forall id | 0 <= id < |s'.calls| ensures CallOk(s', id) { CallKept(s, t, a, id); }
    forall k | k in s'.slots ensures SlotOk(s', k) { SlotKept(s, t, a, k); }
  }

  // ---- runs ----

  datatype Move = Move(caller: nat, action: Action)

  ghost predicate IsRun(s: State, moves: seq<Move>)
    decreases |moves|
  {
    moves == [] ||
    (Enabled(s, moves[0].caller, moves[0].action)
     && IsRun(Apply(s, moves[0].caller, moves[0].action), moves[1..]))
  }

  ghost function Final(s: State, moves: seq<Move>): State
    requires IsRun(s, moves)
    decreases |moves|
  {
    if moves == [] then s else Final(Apply(s, moves[0].caller, moves[0].action), moves[1..])
  }

  lemma {:induction false} RunKeepsInv(s: State, moves: seq<Move>)
    requires Inv(s) && IsRun(s, moves)
    ensures Inv(Final(s, moves))
    decreases |moves|
  {
    hide Inv, Apply;
    if moves != [] {
      StepKeepsInv(s, moves[0].caller, moves[0].action);
      RunKeepsInv(Apply(s, moves[0].caller, moves[0].action), moves[1..]);
    }
  }

  ghost predicate Reachable(s: State) {
    exists s0, moves :: Initial(s0) && IsRun(s0, moves) && Final(s0, moves) == s
  }

  lemma ReachableInv(s: State)
    requires Reachable(s)
    ensures Inv(s)
  {
    var s0, moves :| Initial(s0) && IsRun(s0, moves) && Final(s0, moves) == s;
    RunKeepsInv(s0, moves);
  }

  // ---- safety ----

  /** At most one execution of fn per key at a time. */
  lemma OneExecutionPerKey(s: State, t: nat, u: nat)
    requires Reachable(s) && t < |s.callers| && u < |s.callers|
    requires s.callers[t].Running? && s.callers[u].Running? && s.callers[t].key == s.callers[u].key
    ensures t == u
  {
    ReachableInv(s);
    assert CallerOk(s, t) && CallerOk(s, u);
  }

  /** The final delete finds the leader's own slot, never that of a later execution. */
  lemma RemovesOwnSlot(s: State, t: nat)
    requires Reachable(s) && Enabled(s, t, Remove)
    ensures var k := s.callers[t].key;
            && k in s.slots && s.slots[k] == s.callers[t].id
            && s.callers[t].id < |s.calls| && s.calls[s.callers[t].id].leader == t
    ensures Apply(s, t, Remove).slots == s.slots - {s.callers[t].key}
  {
    ReachableInv(s);
    assert CallerOk(s, t);
  }

  /** Once the wait group is released an execution never changes again. */
  lemma ReleasedIsFinal(s: State, t: nat, a: Action, id: nat)
    requires Reachable(s) && Enabled(s, t, a) && id < |s.calls| && s.calls[id].done
    ensures id < |Apply(s, t, a).calls| && Apply(s, t, a).calls[id] == s.calls[id]
  {
    ReachableInv(s);
    assert CallerOk(s, t) && CallOk(s, id);
  }

  /** Leader and followers alike return exactly what the execution they joined ended with, a
      panic included; two callers of one execution return the same. */
  lemma EveryoneGetsTheEnding(s: State, t: nat)
    requires Reachable(s) && t < |s.callers| && s.callers[t].Finished?
    ensures s.callers[t].id < |s.calls|
    ensures var c := s.calls[s.callers[t].id];
            c.key == s.callers[t].key && c.ending.Some? && s.callers[t].got == FieldsOf(c.ending.value)
  {
    ReachableInv(s);
    assert CallerOk(s, t);
  }

  /** One step: callers stay with their execution, and executions keep their key and leader. */
  lemma StepStays(s: State, u: nat, a: Action, t: nat)
    requires Enabled(s, u, a) && t < |s.callers| && !s.callers[t].Idle?
    ensures var s' := Apply(s, u, a);
            && |s'.callers| == |s.callers| && |s'.calls| >= |s.calls|
            && !s'.callers[t].Idle? && s'.callers[t].id == s.callers[t].id
            && forall id :: 0 <= id < |s.calls| ==> s'.calls[id].leader == s.calls[id].leader
  {}

  lemma {:induction false} RunStays(s: State, moves: seq<Move>, t: nat)
    requires IsRun(s, moves) && t < |s.callers| && !s.callers[t].Idle?
    ensures var f := Final(s, moves);
            && |f.callers| == |s.callers| && |f.calls| >= |s.calls|
            && !f.callers[t].Idle? && f.callers[t].id == s.callers[t].id
            && forall id :: 0 <= id < |s.calls| ==> f.calls[id].leader == s.calls[id].leader
    decreases |moves|
  {
    hide Apply, Enabled;
    if moves != [] {
      StepStays(s, moves[0].caller, moves[0].action, t);
      RunStays(Apply(s, moves[0].caller, moves[0].action), moves[1..], t);
    }
  }

  /** A caller that enters while its key has a slot returns, in whatever run it does, exactly what
      the execution in that slot ended with, the one of the leader that was at work then. */
  lemma FollowerShares(s: State, t: nat, moves: seq<Move>)
    requires Reachable(s) && Enabled(s, t, Enter) && s.callers[t].key in s.slots
    requires IsRun(Apply(s, t, Enter), moves) && t < |Final(Apply(s, t, Enter), moves).callers|
    requires Final(Apply(s, t, Enter), moves).callers[t].Finished?
    ensures var id, f := s.slots[s.callers[t].key], Final(Apply(s, t, Enter), moves);
            && id < |s.calls| && id < |f.calls| && f.calls[id].leader == s.calls[id].leader
            && f.calls[id].ending.Some? && f.callers[t].got == FieldsOf(f.calls[id].ending.value)
  {
    var s1 := Apply(s, t, Enter);
    ReachableInv(s);
    assert SlotOk(s, s.callers[t].key);
    ReachableStep(s, t, Enter);
    RunStays(s1, moves, t);
    RunKeepsReach(s1, moves);
    EveryoneGetsTheEnding(Final(s1, moves), t);
  }

  lemma {:induction false} RunKeepsReach(s: State, moves: seq<Move>)
    requires Reachable(s) && IsRun(s, moves)
    ensures Reachable(Final(s, moves))
    decreases |moves|
  {
    hide Reachable, Apply, Enabled;
    if moves != [] {
      ReachableStep(s, moves[0].caller, moves[0].action);
      RunKeepsReach(Apply(s, moves[0].caller, moves[0].action), moves[1..]);
    }
  }

  // ---- progress ----

  predicate AllFinished(s: State) {
    forall t :: 0 <= t < |s.callers| ==> s.callers[t].Finished?
  }

  /** While some caller has not returned, some step is possible: fn ending counts as a step,
      so no caller waits for anything but fn. */
  lemma NoDeadlock(s: State) returns (t: nat, a: Action)
    requires Reachable(s) && !AllFinished(s)
    ensures Enabled(s, t, a)
  {
    ReachableInv(s);
    t :| 0 <= t < |s.callers| && !s.callers[t].Finished?;
    assert CallerOk(s, t);
    match s.callers[t]
    case Idle(_) => a := Enter;
    case Running(_, _) => a := End(Returns(None, None));
    case Settled(_, _) => a := Release;
    case Released(_, _) => a := Remove;
    case Removed(_, _) => a := Return;
    case Waiting(_, id) =>
      assert CallOk(s, id);
      if s.calls[id].done {
        a := Wake;
      } else {
        t := s.calls[id].leader;
        a := if s.callers[t].Running? then End(Returns(None, None)) else Release;
      }
  }

  function Rank(p: Phase): nat {
    match p
    case Idle(_) => 5
    case Running(_, _) => 4
    case Settled(_, _) => 3
    case Released(_, _) => 2
    case Removed(_, _) => 1
    case Waiting(_, _) => 1
    case Finished(_, _, _) => 0
  }

  function TotalRank(ps: seq<Phase>): nat {
    if ps == [] then 0 else Rank(ps[0]) + TotalRank(ps[1..])
  }

  lemma {:induction false} RankOfUpdate(ps: seq<Phase>, t: nat, p: Phase)
    requires t < |ps|
    ensures TotalRank(ps[t := p]) + Rank(ps[t]) == TotalRank(ps) + Rank(p)
  {
    if t == 0 {
      assert ps[t := p][1..] == ps[1..];
    } else {
      assert ps[t := p][1..] == ps[1..][t - 1 := p];
      RankOfUpdate(ps[1..], t - 1, p);
    }
  }

  lemma StepDecreases(s: State, t: nat, a: Action)
    requires Enabled(s, t, a)
    ensures TotalRank(Apply(s, t, a).callers) < TotalRank(s.callers)
  {
    RankOfUpdate(s.callers, t, Apply(s, t, a).callers[t]);
    assert Apply(s, t, a).callers == s.callers[t := Apply(s, t, a).callers[t]];
  }

  /** Every run of n callers has at most 5n steps, whatever the interleaving. */
  lemma {:induction false} RunsAreShort(s: State, moves: seq<Move>)
    requires IsRun(s, moves)
    ensures |moves| + TotalRank(Final(s, moves).callers) <= TotalRank(s.callers) <= 5 * |s.callers|
    decreases |moves|
  {
    hide Apply;
    RankBound(s.callers);
    if moves != [] {
      StepDecreases(s, moves[0].caller, moves[0].action);
      RunsAreShort(Apply(s, moves[0].caller, moves[0].action), moves[1..]);
    }
  }

  lemma {:induction false} RankBound(ps: seq<Phase>)
    ensures TotalRank(ps) <= 5 * |ps|
  {
    if ps != [] { RankBound(ps[1..]); }
  }

  /** So every run can be continued until all callers have returned. */
  lemma EveryoneReturns(s: State) returns (moves: seq<Move>)
    requires Reachable(s)
    ensures IsRun(s, moves) && AllFinished(Final(s, moves))
    decreases TotalRank(s.callers)
  {
    hide Apply, Enabled, Reachable;
    if AllFinished(s) {
      moves := [];
    } else {
      var t, a := NoDeadlock(s);
      StepDecreases(s, t, a);
      ReachableStep(s, t, a);
      var rest := EveryoneReturns(Apply(s, t, a));
      moves := [Move(t, a)] + rest;
      assert moves[1..] == rest;
    }
  }

  lemma ReachableStep(s: State, t: nat, a: Action)
    requires Reachable(s) && Enabled(s, t, a)
    ensures Reachable(Apply(s, t, a))
  {
    hide Apply, Enabled;
    var s0, moves :| Initial(s0) && IsRun(s0, moves) && Final(s0, moves) == s;
    RunSnoc(s0, moves, Move(t, a));
  }

  lemma {:induction false} RunSnoc(s: State, moves: seq<Move>, m: Move)
    requires IsRun(s, moves) && Enabled(Final(s, moves), m.caller, m.action)
    ensures IsRun(s, moves + [m])
    ensures Final(s, moves + [m]) == Apply(Final(s, moves), m.caller, m.action)
    decreases |moves|
  {
    hide Apply, Enabled;
    if moves == [] {
      assert moves + [m] == [m];
    } else {
      assert (moves + [m])[1..] == moves[1..] + [m];
      RunSnoc(Apply(s, moves[0].caller, moves[0].action), moves[1..], m);
    }
  }
}
