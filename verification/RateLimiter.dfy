/**
 The per-key rate limiter: a token bucket for each key, dropped once the key has been idle for longer than the
 time to live. Eviction is proved invisible exactly when an idle bucket refills within that time. Times are in
 seconds, and arithmetic is over the reals.
 */
module RateLimiter {

  datatype Config = Config(rate: real, burst: nat, ttl: real)

  /** Tokens held at the instant `at`. */
  datatype Bucket = Bucket(tokens: real, at: real)

  datatype Entry = Entry(bucket: Bucket, lastSeen: real)

  predicate Sensible(c: Config) { c.rate >= 0.0 && c.ttl >= 0.0 }

  /** An idle bucket is full again by the time it may be evicted. */
  predicate Covers(c: Config) { c.ttl * c.rate >= c.burst as real }

  /** The tokens that flow in over a time span. */
  function Refill(c: Config, span: real): real { span * c.rate }

  /** Linear refill up to the burst. */
  function Level(c: Config, b: Bucket, now: real): real {
    var refilled := b.tokens + Refill(c, now - b.at);
    if refilled > c.burst as real then c.burst as real else refilled
  }

  function NewBucket(c: Config, now: real): Bucket { Bucket(c.burst as real, now) }

  /** One call: take a token if there is one. */
  function Take(c: Config, b: Bucket, now: real): (bool, Bucket) {
    if Level(c, b, now) >= 1.0 then (true, Bucket(Level(c, b, now) - 1.0, now)) else (false, b)
  }

  type Limiter = map<string, Entry>

  predicate Idle(c: Config, e: Entry, now: real) { now - e.lastSeen > c.ttl }

  function AllowOn(c: Config, s: Limiter, key: string, now: real): (bool, Limiter) {
    var b := if key in s then s[key].bucket else NewBucket(c, now);
    var r := Take(c, b, now);
    (r.0, s[key := Entry(r.1, now)])
  }

  function Evict(c: Config, s: Limiter, now: real): Limiter { map k | k in s && !Idle(c, s[k], now) :: s[k] }

  class IPRateLimiter {
    const config: Config
    var ips: Limiter

    constructor (c: Config)
      ensures config == c && ips == map[]
    {
      config := c;
      ips := map[];
    }

    method Allow(ip: string, now: real) returns (ok: bool)
      modifies this
      ensures (ok, ips) == AllowOn(config, old(ips), ip, now)
      ensures ip in ips && ips[ip].lastSeen == now && ips == old(ips)[ip := ips[ip]]
      ensures ip !in old(ips) ==> (ok <==> config.burst >= 1)
    {
      if ip !in ips {
        var r := Take(config, NewBucket(config, now), now);
        ips := ips[ip := Entry(r.1, now)];
        return r.0;
      }
      var r := Take(config, ips[ip].bucket, now);
      ips := ips[ip := Entry(r.1, now)];
      ok := r.0;
    }

    method Cleanup(now: real)
      modifies this
      ensures ips == Evict(config, old(ips), now)
      ensures forall k :: k in ips <==> k in old(ips) && now - old(ips)[k].lastSeen <= config.ttl
      ensures forall k :: k in ips ==> ips[k] == old(ips)[k]
    {
      var rest := ips.Keys;
      while rest != {}
        invariant rest <= ips.Keys <= old(ips).Keys
        invariant forall k :: k in old(ips) ==> (k in ips <==> k in rest || !Idle(config, old(ips)[k], now))
        invariant forall k :: k in ips ==> ips[k] == old(ips)[k]
        decreases rest
      {
        var ip :| ip in rest;
        if Idle(config, ips[ip], now) { ips := ips - {ip}; }
        rest := rest - {ip};
      }
    }
  }

  // ----- runs -----

  datatype Event = Call(key: string, now: real) | Sweep(now: real)

  /** The evicting limiter, or one that keeps every bucket forever. */
  function Step(c: Config, evicts: bool, s: Limiter, e: Event): Limiter {
    match e
    case Call(key, now) => AllowOn(c, s, key, now).1
    case Sweep(now) => if evicts then Evict(c, s, now) else s
  }

  function Answers(c: Config, evicts: bool, s: Limiter, events: seq<Event>): seq<bool>
    decreases |events|
  {
    if events == [] then []
    else
      var e := events[0];
      (if e.Call? then [AllowOn(c, s, e.key, e.now).0] else []) + Answers(c, evicts, Step(c, evicts, s, e), events[1..])
  }

  function After(c: Config, evicts: bool, s: Limiter, events: seq<Event>): Limiter
    decreases |events|
  {
    if events == [] then s else After(c, evicts, Step(c, evicts, s, events[0]), events[1..])
  }

  /** The clock never runs backwards and starts no earlier than t. */
  predicate Timed(events: seq<Event>, t: real) {
    events != [] ==> t <= events[0].now && Timed(events[1..], events[0].now)
  }

  /** Any run under a clock that never runs backwards. */
  predicate IsRun(events: seq<Event>) { events != [] ==> Timed(events, events[0].now) }

  // ----- what a step keeps -----

  ghost predicate EntryOk(c: Config, e: Entry, now: real) {
    0.0 <= e.bucket.tokens <= c.burst as real && e.bucket.at <= e.lastSeen <= now
  }

  ghost predicate Inv(c: Config, s: Limiter, now: real) { forall k :: k in s ==> EntryOk(c, s[k], now) }

  /** The tokens a key can draw on: an unknown key has a full bucket. */
  function KeyLevel(c: Config, s: Limiter, key: string, now: real): real {
    if key in s then Level(c, s[key].bucket, now) else c.burst as real
  }

  /** Refilling in two stages is refilling in one. */
  lemma LevelAdvances(c: Config, b: Bucket, t: real, u: real)
    requires Sensible(c) && t <= u
    ensures Level(c, b, u) == Level(c, Bucket(Level(c, b, t), t), u)
    ensures Level(c, b, t) <= Level(c, b, u) <= Level(c, b, t) + Refill(c, u - t)
  {
    RefillSplits(c, b.at, t, u);
    RefillNonNegative(c, u - t);
  }

  lemma RefillNonNegative(c: Config, span: real)
    requires c.rate >= 0.0 && span >= 0.0
    ensures Refill(c, span) >= 0.0
  {
  }

  lemma InvStep(c: Config, evicts: bool, s: Limiter, e: Event, t: real)
    requires Sensible(c) && Inv(c, s, t) && t <= e.now
    ensures Inv(c, Step(c, evicts, s, e), e.now)
  {
    if e.Call? && e.key in s {
      var b := s[e.key].bucket;
      RefillNonNegative(c, e.now - b.at);
    }
  }

  /** A call draws one token from its key when it is allowed, and leaves every other level alone. */
  lemma CallLevel(c: Config, s: Limiter, key: string, now: real, k: string)
    requires Sensible(c)
    ensures AllowOn(c, s, key, now).0 <==> KeyLevel(c, s, key, now) >= 1.0
    ensures KeyLevel(c, AllowOn(c, s, key, now).1, k, now)
         == KeyLevel(c, s, k, now) - (if k == key && AllowOn(c, s, key, now).0 then 1.0 else 0.0)
  {
    var b := if key in s then s[key].bucket else NewBucket(c, now);
    TakeLevel(c, NewBucket(c, now), now);
    TakeLevel(c, b, now);
  }

  /** Taking from a bucket depends on its level alone, and a new bucket is full. */
  lemma TakeLevel(c: Config, b: Bucket, now: real)
    ensures Level(c, NewBucket(c, now), now) == c.burst as real
    ensures Level(c, Take(c, b, now).1, now) == Level(c, b, now) - (if Take(c, b, now).0 then 1.0 else 0.0)
  {
    AtOnce(c, NewBucket(c, now));
    var level := Level(c, b, now);
    assert level <= c.burst as real;
    AtOnce(c, Bucket(level - 1.0, now));
  }

  /** No time passes, nothing is refilled. */
  lemma AtOnce(c: Config, b: Bucket)
    ensures Level(c, b, b.at) == if b.tokens > c.burst as real then c.burst as real else b.tokens
  {
    assert (b.at - b.at) * c.rate == 0.0;
  }

  /** Under the condition, eviction changes no level. */
  lemma EvictLevel(c: Config, s: Limiter, now: real, t: real, k: string)
    requires Sensible(c) && Covers(c) && Inv(c, s, t) && t <= now
    ensures KeyLevel(c, Evict(c, s, now), k, now) == KeyLevel(c, s, k, now)
  {
    if k in s && Idle(c, s[k], now) {
      var b := s[k].bucket;
      assert EntryOk(c, s[k], t);
      RefillNonNegative(c, now - b.at - c.ttl);
      RefillSplits(c, 0.0, c.ttl, now - b.at);
    }
  }

  // ----- eviction is invisible -----

  ghost predicate SameLevels(c: Config, s: Limiter, u: Limiter, t: real) {
    forall k :: KeyLevel(c, s, k, t) == KeyLevel(c, u, k, t)
  }

  lemma SameLevelsLater(c: Config, s: Limiter, u: Limiter, t: real, now: real)
    requires Sensible(c) && SameLevels(c, s, u, t) && t <= now
    ensures SameLevels(c, s, u, now)
  {
    forall k ensures KeyLevel(c, s, k, now) == KeyLevel(c, u, k, now) {
      KeyLevelLater(c, s, k, t, now);
      KeyLevelLater(c, u, k, t, now);
      assert KeyLevel(c, s, k, t) == KeyLevel(c, u, k, t);
    }
  }

  /** The level at a later time follows from the level now. */
  lemma KeyLevelLater(c: Config, s: Limiter, k: string, t: real, now: real)
    requires Sensible(c) && t <= now
    ensures KeyLevel(c, s, k, now) == Level(c, Bucket(KeyLevel(c, s, k, t), t), now)
    ensures KeyLevel(c, s, k, now) <= KeyLevel(c, s, k, t) + Refill(c, now - t)
  {
    RefillNonNegative(c, now - t);
    if k in s { LevelAdvances(c, s[k].bucket, t, now); }
  }

  lemma SameLevelsStep(c: Config, s: Limiter, u: Limiter, e: Event, t: real)
    requires Sensible(c) && Covers(c) && Inv(c, s, t) && t <= e.now && SameLevels(c, s, u, t)
    ensures SameLevels(c, Step(c, true, s, e), Step(c, false, u, e), e.now)
    ensures e.Call? ==> AllowOn(c, s, e.key, e.now).0 == AllowOn(c, u, e.key, e.now).0
  {
    SameLevelsLater(c, s, u, t, e.now);
    assert e.Call? ==> KeyLevel(c, s, e.key, e.now) == KeyLevel(c, u, e.key, e.now);
    forall k ensures KeyLevel(c, Step(c, true, s, e), k, e.now) == KeyLevel(c, Step(c, false, u, e), k, e.now) {
      assert KeyLevel(c, s, k, e.now) == KeyLevel(c, u, k, e.now);
      if e.Call? {
        CallLevel(c, s, e.key, e.now, k);
        CallLevel(c, u, e.key, e.now, k);
      } else {
        EvictLevel(c, s, e.now, t, k);
      }
    }
    if e.Call? {
      CallLevel(c, s, e.key, e.now, e.key);
      CallLevel(c, u, e.key, e.now, e.key);
    }
  }

  lemma {:induction false} SameAnswers(c: Config, s: Limiter, u: Limiter, events: seq<Event>, t: real)
    requires Sensible(c) && Covers(c) && Inv(c, s, t) && SameLevels(c, s, u, t) && Timed(events, t)
    ensures Answers(c, true, s, events) == Answers(c, false, u, events)
    decreases |events|
  {
    if events != [] {
      var e := events[0];
      SameLevelsStep(c, s, u, e, t);
      InvStep(c, true, s, e, t);
      SameAnswers(c, Step(c, true, s, e), Step(c, false, u, e), events[1..], e.now);
    }
  }

  // ----- and visible otherwise -----

  function Calls(key: string, now: real, n: nat): seq<Event> {
    if n == 0 then [] else [Call(key, now)] + Calls(key, now, n - 1)
  }

  lemma {:induction false} CallsTimed(key: string, now: real, n: nat, t: real, rest: seq<Event>)
    requires t <= now && Timed(rest, now)
    ensures Timed(Calls(key, now, n) + rest, t)
    decreases n
  {
    if n == 0 {
      assert Calls(key, now, n) + rest == rest;
    } else {
      CallsTimed(key, now, n - 1, now, rest);
      assert (Calls(key, now, n) + rest)[1..] == Calls(key, now, n - 1) + rest;
    }
  }

  lemma {:induction false} AnswersSplit(c: Config, evicts: bool, s: Limiter, a: seq<Event>, b: seq<Event>)
    ensures Answers(c, evicts, s, a + b) == Answers(c, evicts, s, a) + Answers(c, evicts, After(c, evicts, s, a), b)
    decreases |a|
  {
    if a == [] {
      assert a + b == b;
    } else {
      assert (a + b)[1..] == a[1..] + b;
      AnswersSplit(c, evicts, Step(c, evicts, s, a[0]), a[1..], b);
    }
  }

  /** n calls at one instant with tokens for all of them: each is allowed and takes one. */
  lemma {:induction false} BurstAllowed(c: Config, evicts: bool, s: Limiter, key: string, now: real, n: nat)
    requires Sensible(c) && KeyLevel(c, s, key, now) >= n as real
    ensures Answers(c, evicts, s, Calls(key, now, n)) == seq(n, _ => true)
    ensures KeyLevel(c, After(c, evicts, s, Calls(key, now, n)), key, now) == KeyLevel(c, s, key, now) - n as real
    decreases n
  {
    if n > 0 {
      CallLevel(c, s, key, now, key);
      assert Calls(key, now, n)[1..] == Calls(key, now, n - 1);
      BurstAllowed(c, evicts, AllowOn(c, s, key, now).1, key, now, n - 1);
    }
  }

  /** n calls at one instant with tokens for fewer: the last one is refused. */
  lemma {:induction false} BurstRefused(c: Config, evicts: bool, s: Limiter, key: string, now: real, n: nat)
    requires Sensible(c) && 0.0 <= KeyLevel(c, s, key, now) < n as real
    ensures |Answers(c, evicts, s, Calls(key, now, n))| == n && !Answers(c, evicts, s, Calls(key, now, n))[n - 1]
    decreases n
  {
    CallLevel(c, s, key, now, key);
    assert Calls(key, now, n)[1..] == Calls(key, now, n - 1);
    var u := AllowOn(c, s, key, now).1;
    if n > 1 {
      BurstRefused(c, evicts, u, key, now, n - 1);
    } else {
      assert Answers(c, evicts, u, Calls(key, now, 0)) == [];
    }
  }

  lemma {:induction false} CallsSeen(c: Config, evicts: bool, s: Limiter, key: string, now: real, n: nat)
    requires n > 0
    ensures key in After(c, evicts, s, Calls(key, now, n))
    ensures After(c, evicts, s, Calls(key, now, n))[key].lastSeen == now
    decreases n
  {
    assert Calls(key, now, n)[1..] == Calls(key, now, n - 1);
    var u := AllowOn(c, s, key, now).1;
    if n > 1 { CallsSeen(c, evicts, u, key, now, n - 1); } else { assert After(c, evicts, u, Calls(key, now, 0)) == u; }
  }

  /** The level after a burst at time zero and a sweep at time t, just past the time to live. */
  lemma LevelAfterSweep(c: Config, evicts: bool, key: string, t: real, s: Limiter)
    requires Sensible(c) && c.burst > 0 && t > c.ttl && t * c.rate < c.burst as real
    requires s == After(c, evicts, map[], Calls(key, 0.0, c.burst))
    ensures KeyLevel(c, Step(c, evicts, s, Sweep(t)), key, t) == if evicts then c.burst as real else t * c.rate
  {
    CallsSeen(c, evicts, map[], key, 0.0, c.burst);
    BurstAllowed(c, evicts, map[], key, 0.0, c.burst);
    KeyLevelLater(c, s, key, 0.0, t);
  }

  /** The last call of two bursts around a sweep is allowed by the evicting limiter only. */
  lemma LastCallTells(c: Config, evicts: bool, key: string, t: real)
    requires Sensible(c) && c.burst > 0 && t > c.ttl && t * c.rate < c.burst as real
    ensures var a := Answers(c, evicts, map[], Calls(key, 0.0, c.burst) + ([Sweep(t)] + Calls(key, t, c.burst)));
      |a| == 2 * c.burst && a[2 * c.burst - 1] == evicts
  {
    var n := c.burst;
    var first, second := Calls(key, 0.0, n), Calls(key, t, n);
    var s := After(c, evicts, map[], first);
    BurstAllowed(c, evicts, map[], key, 0.0, n);
    AnswersSplit(c, evicts, map[], first, [Sweep(t)] + second);
    assert ([Sweep(t)] + second)[1..] == second;
    var u := Step(c, evicts, s, Sweep(t));
    assert Answers(c, evicts, s, [Sweep(t)] + second) == Answers(c, evicts, u, second);
    LevelAfterSweep(c, evicts, key, t, s);
    if evicts {
      BurstAllowed(c, evicts, u, key, t, n);
    } else {
      RefillNonNegative(c, t);
      BurstRefused(c, evicts, u, key, t, n);
    }
  }

  /** Two full bursts with an eviction between them, before the bucket has refilled. */
  lemma UncoveredIsVisible(c: Config) returns (events: seq<Event>)
    requires Sensible(c) && !Covers(c)
    ensures Timed(events, 0.0) && !Alike(c, events)
  {
    var n, key := c.burst, "k";
    var t := c.ttl + (c.burst as real - c.ttl * c.rate) / (2.0 * (c.rate + 1.0));
    EvictionInstant(c, t);
    var first, second := Calls(key, 0.0, n), Calls(key, t, n);
    events := first + ([Sweep(t)] + second);
    CallsTimed(key, t, n, t, []);
    assert second + [] == second;
    assert ([Sweep(t)] + second)[1..] == second;
    CallsTimed(key, 0.0, n, 0.0, [Sweep(t)] + second);
    LastCallTells(c, true, key, t);
    LastCallTells(c, false, key, t);
  }

  lemma EvictionInstant(c: Config, t: real)
    requires Sensible(c) && !Covers(c) && t == c.ttl + (c.burst as real - c.ttl * c.rate) / (2.0 * (c.rate + 1.0))
    ensures t > c.ttl && t * c.rate < c.burst as real && c.burst > 0
  {
    var gap := c.burst as real - c.ttl * c.rate;
    var d := gap / (2.0 * (c.rate + 1.0));
    RefillNonNegative(c, c.ttl);
    assert d * (2.0 * (c.rate + 1.0)) == gap;
    assert d > 0.0;
    assert t * c.rate == c.ttl * c.rate + d * c.rate;
    assert gap == 2.0 * (d * c.rate) + 2.0 * d;
    RefillNonNegative(c, d);
  }

  /** From the start, the evicting limiter answers these events as the keeping one does. */
  ghost predicate Alike(c: Config, events: seq<Event>) {
    Answers(c, true, map[], events) == Answers(c, false, map[], events)
  }

  /** Dropping idle buckets never changes an answer, in any run, exactly when the time to live covers a refill. */
  lemma EvictionInvisibleExactly(c: Config)
    requires Sensible(c)
    ensures Covers(c) <==> forall events :: IsRun(events) ==> Alike(c, events)
  {
    if Covers(c) {
      forall events: seq<Event> | IsRun(events) ensures Alike(c, events) {
        if events != [] { SameAnswers(c, map[], map[], events, events[0].now); }
      }
    } else {
      var events := UncoveredIsVisible(c);
      assert IsRun(events) && !Alike(c, events);
    }
  }

  // ----- how much a window admits -----

  /** The calls of one key that are allowed. */
  function Admitted(c: Config, evicts: bool, s: Limiter, events: seq<Event>, key: string): nat
    decreases |events|
  {
    if events == [] then 0
    else
      var e := events[0];
      (if e.Call? && e.key == key && AllowOn(c, s, e.key, e.now).0 then 1 else 0)
      + Admitted(c, evicts, Step(c, evicts, s, e), events[1..], key)
  }

  predicate EndsBy(events: seq<Event>, end: real) { forall i :: 0 <= i < |events| ==> events[i].now <= end }

  lemma StepLevel(c: Config, evicts: bool, s: Limiter, e: Event, t: real, k: string)
    requires Sensible(c) && (evicts ==> Covers(c)) && Inv(c, s, t) && t <= e.now
    ensures var one := if e.Call? && e.key == k && AllowOn(c, s, e.key, e.now).0 then 1.0 else 0.0;
            KeyLevel(c, Step(c, evicts, s, e), k, e.now) <= KeyLevel(c, s, k, t) + Refill(c, e.now - t) - one
  {
    KeyLevelLater(c, s, k, t, e.now);
    if e.Call? { CallLevel(c, s, e.key, e.now, k); } else if evicts { EvictLevel(c, s, e.now, t, k); }
  }

  lemma KeyLevelBounds(c: Config, s: Limiter, k: string, t: real)
    requires Sensible(c) && Inv(c, s, t)
    ensures 0.0 <= KeyLevel(c, s, k, t) <= c.burst as real
  {
    if k in s {
      var b := s[k].bucket;
      assert EntryOk(c, s[k], t);
      RefillNonNegative(c, t - b.at);
    }
  }

  lemma RoomLeft(c: Config, s: Limiter, k: string, t: real, end: real)
    requires Sensible(c) && Inv(c, s, t) && t <= end
    ensures 0.0 <= KeyLevel(c, s, k, t) + Refill(c, end - t)
  {
    KeyLevelBounds(c, s, k, t);
    RefillNonNegative(c, end - t);
  }

  lemma {:induction false} AdmittedBound(c: Config, evicts: bool, s: Limiter, events: seq<Event>, key: string, t: real,
                                         end: real)
    requires Sensible(c) && (evicts ==> Covers(c)) && Inv(c, s, t) && Timed(events, t) && EndsBy(events, end)
    requires t <= end
    ensures Admitted(c, evicts, s, events, key) as real <= KeyLevel(c, s, key, t) + Refill(c, end - t)
    decreases |events|
  {
    if events == [] {
      RoomLeft(c, s, key, t, end);
    } else {
      var e := events[0];
      InvStep(c, evicts, s, e, t);
      StepLevel(c, evicts, s, e, t, key);
      var u := Step(c, evicts, s, e);
      AdmittedBound(c, evicts, u, events[1..], key, e.now, end);
      RefillSplits(c, t, e.now, end);
      var one := if e.Call? && e.key == key && AllowOn(c, s, e.key, e.now).0 then 1 else 0;
      assert Admitted(c, evicts, s, events, key) == one + Admitted(c, evicts, u, events[1..], key);
    }
  }

  lemma RefillSplits(c: Config, t: real, now: real, end: real)
    ensures Refill(c, end - t) == Refill(c, end - now) + Refill(c, now - t)
  {
  }

  lemma {:induction false} InvAfter(c: Config, evicts: bool, s: Limiter, events: seq<Event>, t: real, u: real)
    requires Sensible(c) && Inv(c, s, t) && Timed(events, t) && EndsBy(events, u) && t <= u
    ensures Inv(c, After(c, evicts, s, events), u)
    decreases |events|
  {
    if events != [] {
      InvStep(c, evicts, s, events[0], t);
      InvAfter(c, evicts, Step(c, evicts, s, events[0]), events[1..], events[0].now, u);
    }
  }

  /** Tokens flow in at the configured rate. */
  lemma RefillIsLinear(c: Config, span: real)
    ensures Refill(c, span) == span * c.rate
  {
  }

  /** In any run, at most burst + rate * (end - t) calls of one key are admitted between the instants t and end. */
  lemma WindowBound(c: Config, before: seq<Event>, window: seq<Event>, key: string, start: real, t: real, end: real)
    requires Sensible(c) && Covers(c) && start <= t <= end
    requires Timed(before, start) && EndsBy(before, t) && Timed(window, t) && EndsBy(window, end)
    ensures var s := After(c, true, map[], before);
            Admitted(c, true, s, window, key) as real <= c.burst as real + Refill(c, end - t)
  {
    InvAfter(c, true, map[], before, start, t);
    var s := After(c, true, map[], before);
    AdmittedBound(c, true, s, window, key, t, end);
    KeyLevelBounds(c, s, key, t);
  }

  // ----- the limiters in use -----

  const PUBLIC: Config := Config(2.0, 60, 600.0)
  const AUTH: Config := Config(5.0, 10, 900.0)
  const MFA_USER: Config := Config(1.0 / 60.0, 5, 3600.0)
  const PAIR_INITIATE: Config := Config(5.0 / 60.0, 3, 900.0)
  const PAIR_VERIFY: Config := Config(10.0 / 60.0, 5, 900.0)

  /** Every limiter the server configures hides its evictions. */
  lemma ConfiguredLimitersHideEviction(c: Config, events: seq<Event>)
    requires c in {PUBLIC, AUTH, MFA_USER, PAIR_INITIATE, PAIR_VERIFY} && IsRun(events)
    ensures Alike(c, events)
  {
    assert Sensible(c) && Covers(c);
    EvictionInvisibleExactly(c);
  }
}
