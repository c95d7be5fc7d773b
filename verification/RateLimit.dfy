/** The per-client token bucket (security/ratelimit.go). Time is in seconds and, like tokens,
    a real number: float rounding is not modelled. */
module RateLimit {
  import opened Bytes

  type Client = Text

  datatype Bucket = Bucket(tokens: real, last: real)

  datatype Config = Config(rate: real, burst: int, cleanup: real)

  predicate ValidConfig(c: Config) {
    c.rate >= 0.0 && c.burst >= 1 && c.cleanup > 0.0
  }

  type Clients = map<Client, Bucket>

  /** The tokens in a bucket at a later time. */
  function Refill(c: Config, b: Bucket, now: real): real {
    var t := b.tokens + (now - b.last) * c.rate;
    if t > c.burst as real then c.burst as real else t
  }

  function Allow(c: Config, m: Clients, ip: Client, now: real): (bool, Clients) {
    if ip !in m then (true, m[ip := Bucket(c.burst as real - 1.0, now)])
    else
      var t := Refill(c, m[ip], now);
      if t >= 1.0 then (true, m[ip := Bucket(t - 1.0, now)]) else (false, m[ip := Bucket(t, now)])
  }

  /** One round of StartCleanup. */
  function Sweep(c: Config, m: Clients, now: real): Clients {
    map ip | ip in m && !(m[ip].last < now - c.cleanup) :: m[ip]
  }

  class RateLimiter {
    const config: Config
    var clients: Clients

    constructor (rate: real, burst: int)
      ensures config == Config(rate, burst, 300.0) && clients == map[]
    {
      config := Config(rate, burst, 300.0);
      clients := map[];
    }

    method AllowRequest(ip: Client, now: real) returns (ok: bool)
      modifies this
      ensures (ok, clients) == Allow(config, old(clients), ip, now)
    {
      if ip !in clients {
        clients := clients[ip := Bucket(config.burst as real - 1.0, now)];
        return true;
      }
      var tb := clients[ip];
      var elapsed := now - tb.last;
      tb := tb.(tokens := tb.tokens + elapsed * config.rate);
      if tb.tokens > config.burst as real {
        tb := tb.(tokens := config.burst as real);
      }
      tb := tb.(last := now);
      assert tb.tokens == Refill(config, clients[ip], now);
      ok := tb.tokens >= 1.0;
      if ok {
        tb := tb.(tokens := tb.tokens - 1.0);
      }
      clients := clients[ip := tb];
    }

    method CleanupOnce(now: real)
      modifies this
      ensures clients == Sweep(config, old(clients), now)
    {
      var cutoff := now - config.cleanup;
      var todo := clients.Keys;
      while todo != {}
        invariant todo <= clients.Keys <= old(clients).Keys
        invariant forall ip :: ip in clients ==> clients[ip] == old(clients)[ip]
        invariant forall ip :: ip in old(clients) && ip !in todo ==>
                    (ip in clients <==> !(old(clients)[ip].last < cutoff))
        decreases todo
      {
        var ip :| ip in todo;
        if clients[ip].last < cutoff {
          clients := clients - {ip};
        }
        todo := todo - {ip};
      }
    }
  }

  // ---- runs ----

  datatype Event = Request(ip: Client, time: real) | Cleanup(time: real)

  predicate Sorted(es: seq<Event>, lo: real, hi: real) {
    && (forall i :: 0 <= i < |es| ==> lo <= es[i].time <= hi)
    && (forall i, j :: 0 <= i < j < |es| ==> es[i].time <= es[j].time)
  }

  function Step(c: Config, m: Clients, e: Event): Clients {
    match e
    case Request(ip, now) => Allow(c, m, ip, now).1
    case Cleanup(now) => Sweep(c, m, now)
  }

  /** The answers to the requests of a run. */
  function Answers(c: Config, m: Clients, es: seq<Event>): seq<bool>
    decreases |es|
  {
    if es == [] then []
    else (if es[0].Request? then [Allow(c, m, es[0].ip, es[0].time).0] else []) + Answers(c, Step(c, m, es[0]), es[1..])
  }

  /** How many requests of one client a run allows. */
  function Allowed(c: Config, m: Clients, es: seq<Event>, ip: Client): nat
    decreases |es|
  {
    if es == [] then 0
    else
      (if es[0].Request? && es[0].ip == ip && Allow(c, m, ip, es[0].time).0 then 1 else 0)
      + Allowed(c, Step(c, m, es[0]), es[1..], ip)
  }

  function After(c: Config, m: Clients, es: seq<Event>): Clients
    decreases |es|
  {
    if es == [] then m else After(c, Step(c, m, es[0]), es[1..])
  }

  predicate NoCleanup(es: seq<Event>) {
    forall i :: 0 <= i < |es| ==> es[i].Request?
  }

  /** Every bucket holds between none and burst tokens and was last touched by now. */
  predicate Inv(c: Config, m: Clients, now: real) {
    forall ip :: ip in m ==> 0.0 <= m[ip].tokens <= c.burst as real && m[ip].last <= now
  }

  lemma Product(a: real, b: real)
    requires a >= 0.0 && b >= 0.0
    ensures a * b >= 0.0
  {}

  lemma RefillBounds(c: Config, b: Bucket, now: real)
    requires ValidConfig(c) && 0.0 <= b.tokens <= c.burst as real && b.last <= now
    ensures b.tokens <= Refill(c, b, now) <= c.burst as real
  {
    Product(now - b.last, c.rate);
  }

  lemma StepKeepsInv(c: Config, m: Clients, e: Event, now: real)
    requires ValidConfig(c) && Inv(c, m, now) && now <= e.time
    ensures Inv(c, Step(c, m, e), e.time)
  {
    if e.Request? && e.ip in m { RefillBounds(c, m[e.ip], e.time); }
  }

  /** The tokens the client can count on at a time. */
  function Available(c: Config, m: Clients, ip: Client, now: real): real {
    if ip in m then Refill(c, m[ip], now) else c.burst as real
  }

  /** Waiting earns at most rate tokens a second. */
  lemma AvailableGrows(c: Config, m: Clients, ip: Client, s: real, u: real)
    requires ValidConfig(c) && s <= u
    ensures Available(c, m, ip, u) <= Available(c, m, ip, s) + (u - s) * c.rate
  {
    Product(u - s, c.rate);
    if ip in m {
      assert (u - m[ip].last) * c.rate == (s - m[ip].last) * c.rate + (u - s) * c.rate;
    }
  }

  /** An idle bucket that cleanup drops is full again anyway. */
  lemma DroppedIsFull(c: Config, m: Clients, ip: Client, now: real)
    requires ValidConfig(c) && c.rate * c.cleanup >= c.burst as real
    requires Inv(c, m, now) && ip in m && m[ip].last < now - c.cleanup
    ensures Refill(c, m[ip], now) == c.burst as real
  {
    var idle := now - m[ip].last;
    Product(idle - c.cleanup, c.rate);
    assert idle * c.rate == (idle - c.cleanup) * c.rate + c.rate * c.cleanup;
  }

  lemma RefillNow(c: Config, b: Bucket)
    ensures b.tokens <= c.burst as real ==> Refill(c, b, b.last) == b.tokens
  {
    assert (b.last - b.last) * c.rate == 0.0;
  }

  lemma StepSpends(c: Config, m: Clients, e: Event, ip: Client)
    requires ValidConfig(c) && Inv(c, m, e.time)
    requires e.Request? || c.rate * c.cleanup >= c.burst as real
    ensures var spent := if e.Request? && e.ip == ip && Allow(c, m, ip, e.time).0 then 1.0 else 0.0;
            Available(c, Step(c, m, e), ip, e.time) == Available(c, m, ip, e.time) - spent
  {
    var after := Step(c, m, e);
    if ip in after && after[ip].last == e.time { RefillNow(c, after[ip]); }
    if e.Request? && ip in m {
      RefillBounds(c, m[ip], e.time);
    } else if e.Cleanup? && ip in m && m[ip].last < e.time - c.cleanup {
      DroppedIsFull(c, m, ip, e.time);
    }
  }

  /** What a client earns in d seconds. */
  function Earned(c: Config, d: real): real {
    d * c.rate
  }

  lemma EarnedAdds(c: Config, d: real, e: real)
    ensures Earned(c, d + e) == Earned(c, d) + Earned(c, e)
  {}

  lemma EarnedIsPositive(c: Config, d: real)
    requires ValidConfig(c) && d >= 0.0
    ensures Earned(c, d) >= 0.0
  {
    Product(d, c.rate);
  }

  /** An idle client refills within the cleanup period. */
  predicate Refills(c: Config) {
    c.rate * c.cleanup >= c.burst as real
  }

  lemma {:induction false} AllowedByPotential(c: Config, m: Clients, es: seq<Event>, ip: Client, s: real, t: real)
    requires ValidConfig(c) && Inv(c, m, s) && Sorted(es, s, t) && s <= t
    requires NoCleanup(es) || Refills(c)
    ensures Allowed(c, m, es, ip) as real <= Available(c, m, ip, s) + Earned(c, t - s)
    decreases |es|
  {
    hide Available, Step, Earned, Refills, Inv, Allow;
    if es == [] {
      AvailableIsPositive(c, m, ip, s);
      EarnedIsPositive(c, t - s);
      assert Allowed(c, m, es, ip) == 0;
    } else {
      var e, rest := es[0], es[1..];
      var u, next := e.time, Step(c, m, e);
      PotentialStep(c, m, e, ip, s);
      AllowedByPotential(c, next, rest, ip, u, t);
      EarnedAdds(c, u - s, t - u);
      assert (u - s) + (t - u) == t - s;
    }
  }

  /** One event: what is available grows by what is earned and drops by what is spent. */
  lemma PotentialStep(c: Config, m: Clients, e: Event, ip: Client, s: real)
    requires ValidConfig(c) && Inv(c, m, s) && s <= e.time && (e.Request? || Refills(c))
    ensures Inv(c, Step(c, m, e), e.time)
    ensures var spent := if e.Request? && e.ip == ip && Allow(c, m, ip, e.time).0 then 1.0 else 0.0;
            Available(c, Step(c, m, e), ip, e.time) <= Available(c, m, ip, s) + Earned(c, e.time - s) - spent
  {
    hide Available, Step, Allow;
    AvailableGrows(c, m, ip, s, e.time);
    StepSpends(c, m, e, ip);
    StepKeepsInv(c, m, e, s);
  }

  lemma AvailableIsPositive(c: Config, m: Clients, ip: Client, s: real)
    requires ValidConfig(c) && Inv(c, m, s)
    ensures 0.0 <= Available(c, m, ip, s) <= c.burst as real
  {
    if ip in m { RefillBounds(c, m[ip], s); }
  }

  lemma {:induction false} AfterKeepsInv(c: Config, m: Clients, es: seq<Event>, s: real, t: real)
    requires ValidConfig(c) && Inv(c, m, s) && Sorted(es, s, t) && s <= t
    ensures Inv(c, After(c, m, es), t)
    decreases |es|
  {
    if es != [] {
      StepKeepsInv(c, m, es[0], s);
      AfterKeepsInv(c, Step(c, m, es[0]), es[1..], es[0].time, t);
    }
  }

  /** The bound, after any earlier run: in a window from s to t a client gets at most
      burst + rate * (t - s) requests through. */
  lemma WindowBound(c: Config, earlier: seq<Event>, window: seq<Event>, ip: Client, s0: real, s: real, t: real)
    requires ValidConfig(c) && s0 <= s <= t && Sorted(earlier, s0, s) && Sorted(window, s, t)
    requires NoCleanup(window) || Refills(c)
    ensures Allowed(c, After(c, map[], earlier), window, ip) as real <= c.burst as real + (t - s) * c.rate
  {
    hide Available, Allowed, After, Inv, Earned, Sorted, NoCleanup, Refills;
    BoundOf(c, earlier, window, ip, s0, s, t);
    EarnedIs(c, t - s);
  }

  lemma EarnedIs(c: Config, d: real)
    ensures Earned(c, d) == d * c.rate
  {}

  lemma BoundOf(c: Config, earlier: seq<Event>, window: seq<Event>, ip: Client, s0: real, s: real, t: real)
    requires ValidConfig(c) && s0 <= s <= t && Sorted(earlier, s0, s) && Sorted(window, s, t)
    requires NoCleanup(window) || Refills(c)
    ensures Allowed(c, After(c, map[], earlier), window, ip) as real <= c.burst as real + Earned(c, t - s)
  {
    hide Available, Allowed, After, Inv, Earned, Sorted, NoCleanup, Refills;
    EmptyInv(c, s0);
    AfterKeepsInv(c, map[], earlier, s0, s);
    AllowedByPotential(c, After(c, map[], earlier), window, ip, s, t);
    AvailableIsPositive(c, After(c, map[], earlier), ip, s);
  }

  lemma EmptyInv(c: Config, now: real)
    ensures Inv(c, map[], now)
  {}

  // ---- cleanup cannot be observed ----

  function WithoutCleanup(es: seq<Event>): seq<Event> {
    if es == [] then []
    else (if es[0].Request? then [es[0]] else []) + WithoutCleanup(es[1..])
  }

  /** m is m' except for clients whose bucket in m' is already full. */
  predicate Similar(c: Config, m: Clients, m': Clients, now: real) {
    && m.Keys <= m'.Keys
    && (forall ip :: ip in m ==> m[ip] == m'[ip])
    && (forall ip :: ip in m' && ip !in m ==> Refill(c, m'[ip], now) == c.burst as real)
  }

  lemma FullStaysFull(c: Config, b: Bucket, s: real, u: real)
    requires ValidConfig(c) && Refill(c, b, s) == c.burst as real && s <= u
    ensures Refill(c, b, u) == c.burst as real
  {
    Product(u - s, c.rate);
    assert (u - b.last) * c.rate == (s - b.last) * c.rate + (u - s) * c.rate;
  }

  lemma SimilarStep(c: Config, m: Clients, m': Clients, e: Event, s: real)
    requires ValidConfig(c) && Similar(c, m, m', s) && Inv(c, m, s) && s <= e.time
    requires c.rate * c.cleanup >= c.burst as real
    ensures e.Request? ==> Allow(c, m, e.ip, e.time).0 == Allow(c, m', e.ip, e.time).0
    ensures Similar(c, Step(c, m, e), if e.Request? then Step(c, m', e) else m', e.time)
  {
    hide Refill;
    forall ip | ip in m' && ip !in m ensures Refill(c, m'[ip], e.time) == c.burst as real {
      FullStaysFull(c, m'[ip], s, e.time);
    }
    if e.Cleanup? {
      forall ip | ip in m && ip !in Sweep(c, m, e.time) ensures Refill(c, m'[ip], e.time) == c.burst as real {
        DroppedIsFull(c, m, ip, e.time);
      }
    }
  }

  lemma {:induction false} CleanupUnseen(c: Config, m: Clients, m': Clients, es: seq<Event>, s: real, t: real)
    requires ValidConfig(c) && c.rate * c.cleanup >= c.burst as real
    requires Sorted(es, s, t) && Similar(c, m, m', s) && Inv(c, m, s)
    ensures Answers(c, m, es) == Answers(c, m', WithoutCleanup(es))
    decreases |es|
  {
    hide Similar;
    if es != [] {
      var e := es[0];
      SimilarStep(c, m, m', e, s);
      StepKeepsInv(c, m, e, s);
      var n' := if e.Request? then Step(c, m', e) else m';
      CleanupUnseen(c, Step(c, m, e), n', es[1..], e.time, t);
      var rest := WithoutCleanup(es[1..]);
      if e.Request? {
        assert ([e] + rest)[1..] == rest;
      } else {
        assert [] + rest == rest;
      }
    }
  }

  // ---- and the condition is exact ----

  /** n requests of one client at one time. */
  function Burst(n: nat, ip: Client, now: real): (es: seq<Event>)
    ensures |es| == n
    ensures forall i :: 0 <= i < n ==> es[i] == Request(ip, now)
  {
    seq(n, i => Request(ip, now))
  }

  lemma {:induction false} BurstAllowed(c: Config, m: Clients, n: nat, ip: Client, now: real, more: seq<Event>)
    requires ValidConfig(c) && n <= c.burst && Inv(c, m, now) && Available(c, m, ip, now) >= n as real
    ensures Allowed(c, m, Burst(n, ip, now) + more, ip)
         == n + Allowed(c, After(c, m, Burst(n, ip, now)), more, ip)
    ensures Inv(c, After(c, m, Burst(n, ip, now)), now)
    ensures n > 0 ==> var m' := After(c, m, Burst(n, ip, now)); ip in m' && m'[ip].last == now
    decreases n
  {
    hide Available, Step;
    if n == 0 {
      assert Burst(n, ip, now) + more == more;
    } else {
      var e, es := Request(ip, now), Burst(n, ip, now);
      assert es[0] == e && es[1..] == Burst(n - 1, ip, now) && (es + more)[1..] == es[1..] + more;
      StepKeepsInv(c, m, e, now);
      StepSpends(c, m, e, ip);
      OneAllowed(c, m, ip, now);
      BurstAllowed(c, Step(c, m, e), n - 1, ip, now, more);
    }
  }

  lemma OneAllowed(c: Config, m: Clients, ip: Client, now: real)
    requires ValidConfig(c) && Available(c, m, ip, now) >= 1.0
    ensures Allow(c, m, ip, now).0
    ensures var m' := Step(c, m, Request(ip, now)); ip in m' && m'[ip].last == now
  {}

  /** Use up the burst, wait until cleanup drops the bucket, and use it up again. */
  function Refresh(c: Config, ip: Client, later: real): seq<Event>
    requires c.burst >= 0
  {
    Burst(c.burst, ip, 0.0) + ([Cleanup(later)] + Burst(c.burst, ip, later))
  }

  lemma RefreshAllowsTwice(c: Config, ip: Client, later: real)
    requires ValidConfig(c) && later > c.cleanup
    ensures Allowed(c, map[], Refresh(c, ip, later), ip) == 2 * c.burst
  {
    hide Step;
    var n := c.burst;
    var tail := [Cleanup(later)] + Burst(n, ip, later);
    BurstAllowed(c, map[], n, ip, 0.0, tail);
    var m := After(c, map[], Burst(n, ip, 0.0));
    var m' := Step(c, m, Cleanup(later));
    assert m' == Sweep(c, m, later) by { StepCleanup(c, m, later); }
    assert ip !in m';
    assert tail[1..] == Burst(n, ip, later) && tail[0] == Cleanup(later);
    BurstAllowed(c, m', n, ip, later, []);
    assert Burst(n, ip, later) + [] == Burst(n, ip, later);
  }

  lemma RefreshSorted(c: Config, ip: Client, later: real)
    requires c.burst >= 0 && later >= 0.0
    ensures Sorted(Refresh(c, ip, later), 0.0, later)
  {}

  lemma StepCleanup(c: Config, m: Clients, now: real)
    ensures Step(c, m, Cleanup(now)) == Sweep(c, m, now)
  {}

  /** A time at which the bucket is dropped although it has not refilled. */
  function Early(c: Config): real
    requires ValidConfig(c) && c.rate * c.cleanup < c.burst as real
  {
    if c.rate == 0.0 then c.cleanup + 1.0 else c.cleanup + (c.burst as real / c.rate - c.cleanup) / 2.0
  }

  lemma EarlyIsEarly(c: Config)
    requires ValidConfig(c) && c.rate * c.cleanup < c.burst as real
    ensures Early(c) > c.cleanup && Early(c) * c.rate < c.burst as real
  {
    if c.rate > 0.0 {
      var full := c.burst as real / c.rate;
      assert full * c.rate == c.burst as real;
      assert (full - c.cleanup) * c.rate == c.burst as real - c.rate * c.cleanup;
      PositiveFactor(full - c.cleanup, c.rate);
      var gap := (full - c.cleanup) / 2.0;
      assert Early(c) * c.rate == (full - gap) * c.rate == c.burst as real - gap * c.rate;
      Positive(gap, c.rate);
    }
  }

  lemma PositiveFactor(a: real, b: real)
    requires b > 0.0 && a * b > 0.0
    ensures a > 0.0
  {
    if a <= 0.0 { Product(-a, b); }
  }

  lemma Positive(a: real, b: real)
    requires a > 0.0 && b > 0.0
    ensures a * b > 0.0
  {}

  /** The window bound holds in every run with cleanup. */
  ghost predicate BoundHolds(c: Config) {
    forall es: seq<Event>, ip, t :: t >= 0.0 && Sorted(es, 0.0, t) ==>
      Allowed(c, map[], es, ip) as real <= c.burst as real + t * c.rate
  }

  /** Cleanup changes no answer in any run. */
  ghost predicate CleanupInvisible(c: Config) {
    forall es: seq<Event>, t :: Sorted(es, 0.0, t) ==> Answers(c, map[], es) == Answers(c, map[], WithoutCleanup(es))
  }

  /** Both promises hold exactly when an idle client refills within the cleanup period. */
  lemma CleanupIff(c: Config)
    requires ValidConfig(c)
    ensures BoundHolds(c) <==> c.rate * c.cleanup >= c.burst as real
    ensures CleanupInvisible(c) <==> c.rate * c.cleanup >= c.burst as real
  {
    if c.rate * c.cleanup >= c.burst as real {
      forall es: seq<Event>, ip, t | t >= 0.0 && Sorted(es, 0.0, t)
        ensures Allowed(c, map[], es, ip) as real <= c.burst as real + t * c.rate
      {
        WindowBound(c, [], es, ip, 0.0, 0.0, t);
      }
      forall es: seq<Event>, t | Sorted(es, 0.0, t)
        ensures Answers(c, map[], es) == Answers(c, map[], WithoutCleanup(es))
      {
        CleanupUnseen(c, map[], map[], es, 0.0, t);
      }
    } else {
      CleanupVisible(c);
    }
  }

  lemma CleanupVisible(c: Config)
    requires ValidConfig(c) && c.rate * c.cleanup < c.burst as real
    ensures !BoundHolds(c) && !CleanupInvisible(c)
  {
    hide Refresh, Allowed, Answers, Early, BoundHolds, CleanupInvisible, WithoutCleanup, Sorted, OnlyFrom;
    EarlyIsEarly(c);
    var ip: Client, t := [], Early(c);
    var es := Refresh(c, ip, t);
    RefreshAllowsTwice(c, ip, t);
    RefreshSorted(c, ip, t);
    var earned := t * c.rate;
    ExceedsBound(c, es, ip, t, earned);
    WithoutCleanupSorted(es, 0.0, t);
    CleanAllowsLess(c, WithoutCleanup(es), ip, t, earned);
    RefreshOnlyFrom(c, ip, t);
    DifferentAnswers(c, es, ip, t);
  }

  lemma ExceedsBound(c: Config, es: seq<Event>, ip: Client, t: real, earned: real)
    requires t >= 0.0 && Sorted(es, 0.0, t) && earned == t * c.rate
    requires Allowed(c, map[], es, ip) as real > c.burst as real + earned
    ensures !BoundHolds(c)
  {}

  lemma CleanAllowsLess(c: Config, es: seq<Event>, ip: Client, t: real, earned: real)
    requires ValidConfig(c) && t >= 0.0 && Sorted(es, 0.0, t) && NoCleanup(es) && earned == t * c.rate
    ensures Allowed(c, map[], es, ip) as real <= c.burst as real + earned
  {
    AllowedByPotential(c, map[], es, ip, 0.0, t);
    assert (t - 0.0) * c.rate == t * c.rate;
  }

  lemma SortedCons(e: Event, es: seq<Event>, s: real, t: real)
    requires s <= e.time <= t && Sorted(es, e.time, t)
    ensures Sorted([e] + es, s, t) && Sorted(es, s, t)
  {}

  lemma SortedTail(es: seq<Event>, s: real, t: real)
    requires es != [] && Sorted(es, s, t)
    ensures s <= es[0].time <= t && Sorted(es[1..], es[0].time, t)
  {}

  lemma {:induction false} WithoutCleanupSorted(es: seq<Event>, s: real, t: real)
    requires Sorted(es, s, t)
    ensures Sorted(WithoutCleanup(es), s, t) && NoCleanup(WithoutCleanup(es))
    decreases |es|
  {
    hide Sorted;
    if es == [] {
      assert WithoutCleanup(es) == es;
    } else {
      SortedTail(es, s, t);
      WithoutCleanupSorted(es[1..], es[0].time, t);
      var rest := WithoutCleanup(es[1..]);
      SortedCons(es[0], rest, s, t);
      assert [] + rest == rest;
    }
  }

  predicate OnlyFrom(es: seq<Event>, ip: Client) {
    forall i :: 0 <= i < |es| && es[i].Request? ==> es[i].ip == ip
  }

  function CountTrue(bs: seq<bool>): nat {
    if bs == [] then 0 else (if bs[0] then 1 else 0) + CountTrue(bs[1..])
  }

  lemma {:induction false} AllowedIsCount(c: Config, m: Clients, es: seq<Event>, ip: Client)
    requires OnlyFrom(es, ip)
    ensures Allowed(c, m, es, ip) == CountTrue(Answers(c, m, es))
    decreases |es|
  {
    hide Allow, Step;
    if es != [] {
      AllowedIsCount(c, Step(c, m, es[0]), es[1..], ip);
      var rest := Answers(c, Step(c, m, es[0]), es[1..]);
      if es[0].Request? {
        assert Answers(c, m, es)[1..] == rest;
      } else {
        assert [] + rest == rest;
      }
    }
  }

  lemma {:induction false} WithoutCleanupOnlyFrom(es: seq<Event>, ip: Client)
    requires OnlyFrom(es, ip)
    ensures OnlyFrom(WithoutCleanup(es), ip)
  {
    if es != [] { WithoutCleanupOnlyFrom(es[1..], ip); }
  }

  lemma RefreshOnlyFrom(c: Config, ip: Client, later: real)
    requires c.burst >= 0
    ensures OnlyFrom(Refresh(c, ip, later), ip)
  {}

  /** Different numbers of allowed requests mean different answers. */
  lemma DifferentAnswers(c: Config, es: seq<Event>, ip: Client, t: real)
    requires OnlyFrom(es, ip) && Sorted(es, 0.0, t)
    requires Allowed(c, map[], es, ip) != Allowed(c, map[], WithoutCleanup(es), ip)
    ensures !CleanupInvisible(c)
  {
    hide Answers, Allowed, WithoutCleanup, Sorted, OnlyFrom;
    WithoutCleanupOnlyFrom(es, ip);
    AllowedIsCount(c, map[], es, ip);
    AllowedIsCount(c, map[], WithoutCleanup(es), ip);
  }
}
