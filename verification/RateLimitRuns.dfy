// What the token bucket promises over whole runs: any sequence of requests, for any keys, with
// Cleanup calls anywhere, at times that never go back.
module RateLimitRuns {
  import opened RateLimiting

  datatype Event = Call(key: string, now: int) | Clean(now: int)

  ghost predicate Monotone(events: seq<Event>) {
    forall i, j | 0 <= i < j < |events| :: events[i].now <= events[j].now
  }

  function Apply(c: Config, v: Buckets, e: Event): Buckets {
    match e
    case Call(key, now) => AllowIn(c, v, key, now).0
    case Clean(now) => CleanedUp(c, v, now)
  }

  /** The buckets after a run that starts with none. */
  function After(c: Config, events: seq<Event>): Buckets {
    if events == [] then map[] else Apply(c, After(c, events[..|events| - 1]), events[|events| - 1])
  }

  predicate Admits(c: Config, v: Buckets, key: string, e: Event) {
    e.Call? && e.key == key && AllowIn(c, v, key, e.now).1
  }

  /** How many of the requests for the key from position lo on are admitted. */
  function Admitted(c: Config, events: seq<Event>, key: string, lo: nat): nat {
    if |events| <= lo then 0
    else
      var n := |events| - 1;
      Admitted(c, events[..n], key, lo) + (if Admits(c, After(c, events[..n]), key, events[n]) then 1 else 0)
  }

  /** An evicted bucket would have been full again at its next request. */
  predicate EvictionSafe(c: Config) {
    c.requests + c.burst <= (2 * c.window + 1) * c.requests / c.window
  }

  ghost predicate NoCleaning(events: seq<Event>) {
    forall e | e in events :: e.Call?
  }

  lemma DivisionBounds(x: int, w: int)
    requires w > 0
    ensures x / w * w <= x < x / w * w + w
  {
  }

  lemma CancelFactor(a: int, b: int, w: int)
    requires w > 0 && a * w < b * w
    ensures a < b
  {
    assert (b - a) * w > 0;
  }

  lemma QuotientAtLeast(x: int, k: int, w: int)
    requires w > 0
    ensures x / w >= k <==> x >= k * w
  {
    DivisionBounds(x, w);
    var q := x / w;
    if x >= k * w {
      assert (q + 1) * w == q * w + w;
      CancelFactor(k, q + 1, w);
    }
    if q >= k {
      assert (q - k) * w >= 0 && (q - k) * w == q * w - k * w;
    }
  }

  lemma ProductAtLeast(a: int, b: int, k: nat)
    requires a >= b
    ensures a * k >= b * k
  {
    assert (a - b) * k >= 0;
  }

  lemma Distribute(a: int, b: int, k: int)
    ensures (a + b) * k == a * k + b * k
  {
  }

  lemma Swap(a: int, b: int)
    ensures 2 * a * b == 2 * b * a
  {
  }

  lemma SafeMeans(c: Config)
    ensures EvictionSafe(c) <==> (2 * c.window + 1) * c.requests >= (c.requests + c.burst) * c.window
  {
    QuotientAtLeast((2 * c.window + 1) * c.requests, c.requests + c.burst, c.window);
  }

  /** A burst no larger than the rate makes eviction safe. */
  lemma SmallBurstIsSafe(c: Config)
    requires c.burst <= c.requests
    ensures EvictionSafe(c)
  {
    hide EvictionSafe;
    SafeMeans(c);
    ProductAtLeast(2 * c.requests, c.requests + c.burst, c.window);
    Distribute(2 * c.window, 1, c.requests);
    Swap(c.window, c.requests);
  }

  // ---- never more permissive than an ideal bucket

  /** Tokens of an ideal bucket, in units of one window-th of a token, right after the run: it starts
      full, gains requests per nanosecond up to its capacity, and pays for every admitted request. */
  function Ideal(c: Config, events: seq<Event>, key: string): int
    decreases |events|, 1
  {
    if events == [] then (c.requests + c.burst) * c.window
    else
      var n := |events| - 1;
      IdealBefore(c, events, key)
      - (if Admits(c, After(c, events[..n]), key, events[n]) then c.window else 0)
  }

  /** The level of the ideal bucket at the time of the last event, before paying for it. */
  function IdealBefore(c: Config, events: seq<Event>, key: string): int
    requires events != []
    decreases |events|, 0
  {
    var n := |events| - 1;
    Risen(c, Ideal(c, events[..n], key), if n == 0 then 0 else events[n].now - events[n - 1].now)
  }

  /** Tokens and unspent elapsed time of a bucket, in the units of Ideal. */
  function Worth(c: Config, b: Level, now: int): int {
    b.tokens * c.window + (now - b.lastUpdate) * c.requests
  }

  /** A bucket as a request leaves it: never full, since a full one admits. */
  predicate Spent(c: Config, b: Level, now: int) {
    && 0 <= b.tokens <= c.requests + c.burst && b.lastUpdate <= now
    && (c.requests + c.burst > 0 ==> b.tokens < c.requests + c.burst)
  }

  lemma RefillWorth(c: Config, b: Level, now: int)
    requires Spent(c, b, now)
    ensures Worth(c, Refilled(c, b, now), now) <= Worth(c, b, now)
    ensures Worth(c, Refilled(c, b, now), now) <= (c.requests + c.burst) * c.window
    ensures 0 <= Refilled(c, b, now).tokens <= c.requests + c.burst && Refilled(c, b, now).lastUpdate <= now
  {
    var earned, w, r := (now - b.lastUpdate) * c.requests, c.window, Refilled(c, b, now);
    var add := earned / w;
    DivisionBounds(earned, w);
    ProductAtLeast(now - b.lastUpdate, 0, c.requests);
    QuotientAtLeast(earned, 0, w);
    hide Worth;
    if add > 0 {
      assert r == Level(if b.tokens + add > c.requests + c.burst then c.requests + c.burst else b.tokens + add, now);
      ProductAtLeast(b.tokens + add, r.tokens, w);
      ProductAtLeast(c.requests + c.burst, r.tokens, w);
      Distribute(b.tokens, add, w);
      WorthNow(c, r);
      WorthIs(c, b, now, earned);
    } else {
      assert r == b;
      var most := c.requests + c.burst - 1;
      ProductAtLeast(most, if most >= 0 then b.tokens else most, w);
      Distribute(c.requests + c.burst, -1, w);
      WorthIs(c, b, now, earned);
    }
  }

  lemma WorthNow(c: Config, b: Level)
    ensures Worth(c, b, b.lastUpdate) == b.tokens * c.window
  {
  }

  lemma WorthIs(c: Config, b: Level, now: int, earned: int)
    requires earned == (now - b.lastUpdate) * c.requests
    ensures Worth(c, b, now) == b.tokens * c.window + earned
    ensures c.requests + c.burst == 0 && b.tokens == 0 ==> Worth(c, b, now) == 0 == (c.requests + c.burst) * c.window
  {
    assert c.requests == 0 ==> earned == 0;
  }

  lemma TakenWorth(c: Config, b: Level, now: int)
    requires Spent(c, b, now)
    ensures Spent(c, Taken(c, b, now).0, now)
    ensures Taken(c, b, now).1 ==> c.requests + c.burst > 0 && Worth(c, Refilled(c, b, now), now) >= c.window
    ensures Worth(c, Taken(c, b, now).0, now)
         == Worth(c, Refilled(c, b, now), now) - (if Taken(c, b, now).1 then c.window else 0)
  {
    RefillWorth(c, b, now);
    var r := Refilled(c, b, now);
    var idle := (now - r.lastUpdate) * c.requests;
    ProductAtLeast(now - r.lastUpdate, 0, c.requests);
    hide Refilled, Worth;
    WorthIs(c, r, now, idle);
    WorthIs(c, Level(r.tokens - 1, r.lastUpdate), now, idle);
    Distribute(r.tokens, -1, c.window);
    if r.tokens > 0 {
      ProductAtLeast(r.tokens, 1, c.window);
    }
  }

  /** The real bucket of the key, where there is one, is worth no more than the ideal bucket unless that is full. */
  ghost predicate Below(c: Config, v: Buckets, key: string, now: int, ideal: int) {
    && 0 <= ideal <= (c.requests + c.burst) * c.window
    && (key in v ==>
          Spent(c, v[key], now) && (Worth(c, v[key], now) <= ideal || ideal == (c.requests + c.burst) * c.window))
    && (key !in v ==> ideal == (c.requests + c.burst) * c.window)
  }

  function Risen(c: Config, ideal: int, elapsed: int): int {
    if ideal + elapsed * c.requests > (c.requests + c.burst) * c.window then (c.requests + c.burst) * c.window
        else ideal + elapsed * c.requests
  }

  lemma WorthLater(c: Config, b: Level, now: int, later: int)
    requires now <= later
    ensures Worth(c, b, later) == Worth(c, b, now) + (later - now) * c.requests && (later - now) * c.requests >= 0
  {
    assert (later - b.lastUpdate) * c.requests == (now - b.lastUpdate) * c.requests + (later - now) * c.requests;
  }

  lemma BelowLater(c: Config, v: Buckets, key: string, now: int, later: int, ideal: int)
    requires Below(c, v, key, now, ideal) && now <= later
    ensures Below(c, v, key, later, Risen(c, ideal, later - now))
  {
    hide Worth;
    WorthLater(c, if key in v then v[key] else FullBucket(c, now), now, later);
  }

  lemma FullBucketTaken(c: Config, now: int)
    ensures Spent(c, Taken(c, FullBucket(c, now), now).0, now)
    ensures Worth(c, Taken(c, FullBucket(c, now), now).0, now)
         == (c.requests + c.burst) * c.window - (if Taken(c, FullBucket(c, now), now).1 then c.window else 0)
    ensures Taken(c, FullBucket(c, now), now).1 ==> (c.requests + c.burst) * c.window >= c.window
  {
    assert (now - now) * c.requests == 0 && Earned(c, 0) == 0;
    assert (c.requests + c.burst - 1) * c.window == (c.requests + c.burst) * c.window - c.window;
  }

  lemma BelowCall(c: Config, v: Buckets, key: string, now: int, ideal: int)
    requires Below(c, v, key, now, ideal)
    ensures AllowIn(c, v, key, now).1 ==> ideal >= c.window
    ensures Below(c, AllowIn(c, v, key, now).0, key, now, ideal - (if AllowIn(c, v, key, now).1 then c.window else 0))
  {
    hide Worth, Taken, Refilled, Spent;
    if key in v {
      RefillWorth(c, v[key], now);
      TakenWorth(c, v[key], now);
      WorthNotNegative(c, Taken(c, v[key], now).0, now);
    } else {
      FullBucketTaken(c, now);
      WorthNotNegative(c, Taken(c, FullBucket(c, now), now).0, now);
    }
  }

  lemma WorthNotNegative(c: Config, b: Level, now: int)
    requires Spent(c, b, now)
    ensures Worth(c, b, now) >= 0
  {
    assert b.tokens * c.window >= 0 && (now - b.lastUpdate) * c.requests >= 0;
  }

  lemma EvictedWorth(c: Config, b: Level, now: int)
    requires Spent(c, b, now) && Evictable(c, b, now) && EvictionSafe(c)
    ensures Worth(c, b, now) >= (c.requests + c.burst) * c.window
  {
    hide Earned, EvictionSafe;
    SafeMeans(c);
    ProductAtLeast(now - b.lastUpdate, 2 * c.window + 1, c.requests);
    ProductAtLeast(b.tokens, 0, c.window);
  }

  lemma BelowClean(c: Config, v: Buckets, key: string, now: int, ideal: int)
    requires Below(c, v, key, now, ideal) && EvictionSafe(c)
    ensures Below(c, CleanedUp(c, v, now), key, now, ideal)
  {
    hide Worth, Earned;
    if key in v && Evictable(c, v[key], now) {
      EvictedWorth(c, v[key], now);
    }
  }

  lemma MonotonePrefix(events: seq<Event>)
    requires Monotone(events) && events != []
    ensures Monotone(events[..|events| - 1])
  {
  }

  /** After every run the limiter has granted no more than the ideal bucket could pay for. */
  lemma {:induction false} NeverAboveIdeal(c: Config, events: seq<Event>, key: string)
    requires Monotone(events) && events != [] && (EvictionSafe(c) || NoCleaning(events))
    ensures Below(c, After(c, events), key, events[|events| - 1].now, Ideal(c, events, key))
    ensures Admits(c, After(c, events[..|events| - 1]), key, events[|events| - 1]) ==>
            IdealBefore(c, events, key) >= c.window
  {
    hide Below, Admitted, Risen;
    var n := |events| - 1;
    var e, v := events[n], After(c, events[..n]);
    if n == 0 {
      assert events[..n] == [];
      BelowStart(c, key, e.now);
    } else {
      MonotonePrefix(events);
      assert NoCleaning(events) ==> NoCleaning(events[..n]);
      NeverAboveIdeal(c, events[..n], key);
      BelowLater(c, v, key, events[n - 1].now, e.now, Ideal(c, events[..n], key));
    }
    var before := IdealBefore(c, events, key);
    assert before == Risen(c, Ideal(c, events[..n], key), if n == 0 then 0 else events[n].now - events[n - 1].now);
    assert Below(c, v, key, e.now, before);
    match e {
      case Call(k, now) =>
        if k == key {
          BelowCall(c, v, key, now, before);
        } else {
          BelowOther(c, v, key, k, now, before);
        }
      case Clean(now) =>
        assert e in events;
        BelowClean(c, v, key, now, before);
    }
  }

  lemma BelowStart(c: Config, key: string, now: int)
    ensures Below(c, map[], key, now, Risen(c, (c.requests + c.burst) * c.window, 0))
  {
  }

  lemma BelowOther(c: Config, v: Buckets, key: string, k: string, now: int, ideal: int)
    requires Below(c, v, key, now, ideal) && k != key
    ensures Below(c, AllowIn(c, v, k, now).0, key, now, ideal)
  {
  }

  function Gain(c: Config, elapsed: int): int {
    elapsed * c.requests
  }

  function Price(c: Config, requests: int): int {
    requests * c.window
  }

  lemma GainAdds(c: Config, a: int, b: int)
    ensures Gain(c, a + b) == Gain(c, a) + Gain(c, b) && Gain(c, 0) == 0
  {
  }

  lemma PriceAdds(c: Config, a: int, b: int)
    ensures Price(c, a + b) == Price(c, a) + Price(c, b) && Price(c, 0) == 0 && Price(c, 1) == c.window
  {
  }

  lemma IdealStep(c: Config, events: seq<Event>, key: string)
    requires events != []
    ensures IdealBefore(c, events, key) <= Price(c, c.requests + c.burst)
    ensures |events| == 1 || IdealBefore(c, events, key) - Ideal(c, events[..|events| - 1], key)
                             <= Gain(c, events[|events| - 1].now - events[|events| - 2].now)
  {
  }

  lemma {:induction false} IdealPays(c: Config, events: seq<Event>, key: string, lo: nat)
    requires Monotone(events) && lo < |events|
    ensures Ideal(c, events, key) + Price(c, Admitted(c, events, key, lo))
         <= Price(c, c.requests + c.burst) + Gain(c, events[|events| - 1].now - events[lo].now)
    decreases |events|
  {
    hide Admits, Price, Gain, IdealBefore;
    var n := |events| - 1;
    var paid := if Admits(c, After(c, events[..n]), key, events[n]) then 1 else 0;
    var earlier := Admitted(c, events[..n], key, lo);
    assert Admitted(c, events, key, lo) == earlier + paid;
    PriceAdds(c, earlier, paid);
    IdealStep(c, events, key);
    if lo < n {
      MonotonePrefix(events);
      IdealPays(c, events[..n], key, lo);
      GainAdds(c, events[n - 1].now - events[lo].now, events[n].now - events[n - 1].now);
    } else {
      GainAdds(c, 0, 0);
    }
  }

  lemma PriceWithin(c: Config, n: nat, elapsed: int, longest: int)
    requires Price(c, n) <= Price(c, c.requests + c.burst) + Gain(c, elapsed) && elapsed <= longest
    ensures n <= c.requests + c.burst + longest * c.requests / c.window
  {
    ProductAtLeast(longest, elapsed, c.requests);
    assert (n - (c.requests + c.burst)) * c.window == n * c.window - (c.requests + c.burst) * c.window;
    QuotientAtLeast(longest * c.requests, n - (c.requests + c.burst), c.window);
  }

  /** The events from position lo on happen between the times s and t. */
  ghost predicate Between(events: seq<Event>, lo: nat, s: int, t: int) {
    s <= t && forall i | lo <= i < |events| :: s <= events[i].now <= t
  }

  /** Between any times s and t no more requests of one key are admitted than a bucket that is full
      at s holds and earns until t. */
  lemma WindowBound(c: Config, events: seq<Event>, key: string, lo: nat, s: int, t: int)
    requires Monotone(events) && Between(events, lo, s, t) && (EvictionSafe(c) || NoCleaning(events))
    ensures Admitted(c, events, key, lo) <= c.requests + c.burst + (t - s) * c.requests / c.window
  {
    hide Ideal, After, Price, Gain;
    if lo < |events| {
      IdealPays(c, events, key, lo);
      NeverAboveIdeal(c, events, key);
      PriceWithin(c, Admitted(c, events, key, lo), events[|events| - 1].now - events[lo].now, t - s);
    } else {
      ProductAtLeast(t - s, 0, c.requests);
      QuotientAtLeast((t - s) * c.requests, 0, c.window);
    }
  }

  // ---- eviction cannot be observed, exactly under EvictionSafe

  /** The answers given to the requests of a run, in order. */
  function Answers(c: Config, events: seq<Event>): seq<bool> {
    if events == [] then []
    else
      var n := |events| - 1;
      Answers(c, events[..n])
      + (if events[n].Call? then [AllowIn(c, After(c, events[..n]), events[n].key, events[n].now).1] else [])
  }

  /** The same run for a limiter that is never cleaned up. */
  function CallsOnly(events: seq<Event>): seq<Event> {
    if events == [] then []
    else
      var n := |events| - 1;
      CallsOnly(events[..n]) + (if events[n].Call? then [events[n]] else [])
  }

  ghost predicate EvictionInvisible(c: Config) {
    forall events | Monotone(events) :: Answers(c, events) == Answers(c, CallsOnly(events))
  }

  /** The cleaned limiter has the same buckets, except that some evictable ones may be missing. */
  ghost predicate SameButEvicted(c: Config, cleaned: Buckets, plain: Buckets, now: int) {
    && (forall k | k in cleaned :: k in plain && cleaned[k] == plain[k])
    && (forall k | k in plain :: 0 <= plain[k].tokens <= (c.requests + c.burst))
    && (forall k | k in plain && k !in cleaned :: Evictable(c, plain[k], now))
  }

  lemma RefilledToFull(c: Config, b: Level, now: int)
    requires EvictionSafe(c) && c.requests + c.burst > 0 && b.tokens >= 0 && Evictable(c, b, now)
    ensures Refilled(c, b, now) == FullBucket(c, now) == Refilled(c, FullBucket(c, now), now)
  {
    SafeMeans(c);
    ProductAtLeast(now - b.lastUpdate, 2 * c.window + 1, c.requests);
    QuotientAtLeast((now - b.lastUpdate) * c.requests, c.requests + c.burst, c.window);
    assert Earned(c, 0) == 0;
  }

  lemma TakenInRange(c: Config, b: Level, now: int)
    requires 0 <= b.tokens <= c.requests + c.burst
    ensures 0 <= Taken(c, b, now).0.tokens <= c.requests + c.burst
  {
    hide Earned;
  }

  lemma SameAnswer(c: Config, cleaned: Buckets, plain: Buckets, key: string, now: int)
    requires EvictionSafe(c) && c.requests + c.burst > 0 && SameButEvicted(c, cleaned, plain, now)
    ensures AllowIn(c, cleaned, key, now).1 == AllowIn(c, plain, key, now).1
    ensures SameButEvicted(c, AllowIn(c, cleaned, key, now).0, AllowIn(c, plain, key, now).0, now)
  {
    hide Refilled, EvictionSafe;
    if key in plain {
      TakenInRange(c, plain[key], now);
      if key !in cleaned {
        RefilledToFull(c, plain[key], now);
      }
    } else {
      TakenInRange(c, FullBucket(c, now), now);
    }
  }

  lemma SameLater(c: Config, cleaned: Buckets, plain: Buckets, now: int, later: int)
    requires SameButEvicted(c, cleaned, plain, now) && now <= later
    ensures SameButEvicted(c, cleaned, plain, later)
  {
  }

  lemma RunAppend(c: Config, events: seq<Event>, e: Event)
    ensures After(c, events + [e]) == Apply(c, After(c, events), e)
    ensures Answers(c, events + [e])
         == Answers(c, events) + (if e.Call? then [AllowIn(c, After(c, events), e.key, e.now).1] else [])
    ensures CallsOnly(events + [e]) == CallsOnly(events) + (if e.Call? then [e] else [])
  {
    assert (events + [e])[..|events|] == events;
  }

  lemma {:induction false} SameRun(c: Config, events: seq<Event>)
    requires EvictionSafe(c) && c.requests + c.burst > 0 && Monotone(events) && events != []
    ensures Answers(c, events) == Answers(c, CallsOnly(events))
    ensures SameButEvicted(c, After(c, events), After(c, CallsOnly(events)), events[|events| - 1].now)
  {
    hide SameButEvicted, EvictionSafe, AllowIn, After, Answers, CallsOnly;
    var n := |events| - 1;
    var e, cleaned, plain := events[n], After(c, events[..n]), After(c, CallsOnly(events[..n]));
    assert events[..n] + [e] == events;
    RunAppend(c, events[..n], e);
    RunAppend(c, CallsOnly(events[..n]), e);
    if n == 0 {
      assert events[..n] == [];
      SameStart(c, e.now);
    } else {
      MonotonePrefix(events);
      SameRun(c, events[..n]);
      SameLater(c, cleaned, plain, events[n - 1].now, e.now);
    }
    if e.Call? {
      SameAnswer(c, cleaned, plain, e.key, e.now);
    } else {
      SameAfterClean(c, cleaned, plain, e.now);
      assert CallsOnly(events) == CallsOnly(events[..n]) && Answers(c, events) == Answers(c, events[..n]);
    }
  }

  lemma SameStart(c: Config, now: int)
    ensures SameButEvicted(c, After(c, []), After(c, CallsOnly([])), now)
    ensures Answers(c, []) == Answers(c, CallsOnly([]))
  {
  }

  lemma SameAfterClean(c: Config, cleaned: Buckets, plain: Buckets, now: int)
    requires SameButEvicted(c, cleaned, plain, now)
    ensures SameButEvicted(c, CleanedUp(c, cleaned, now), plain, now)
  {
  }

  /** With no capacity at all every request is refused, cleaned up or not. */
  lemma {:induction false} EmptyRefusesAll(c: Config, events: seq<Event>)
    requires c.requests + c.burst == 0
    ensures forall k | k in After(c, events) :: After(c, events)[k].tokens <= 0
    ensures forall a | a in Answers(c, events) :: !a
    ensures |Answers(c, events)| == |Answers(c, CallsOnly(events))| == |CallsOnly(events)|
  {
    hide Earned;
    if events != [] {
      var n := |events| - 1;
      EmptyRefusesAll(c, events[..n]);
      if events[n].Call? {
        assert CallsOnly(events)[..|CallsOnly(events)| - 1] == CallsOnly(events[..n]);
      } else {
        assert CallsOnly(events) == CallsOnly(events[..n]);
      }
    }
  }

  lemma SafeIsInvisible(c: Config, events: seq<Event>)
    requires EvictionSafe(c) && Monotone(events)
    ensures Answers(c, events) == Answers(c, CallsOnly(events))
  {
    if c.requests + c.burst == 0 {
      EmptyRefusesAll(c, events);
      EmptyRefusesAll(c, CallsOnly(events));
      var a, b := Answers(c, events), Answers(c, CallsOnly(events));
      forall i | 0 <= i < |a| ensures a[i] == b[i] {
        assert a[i] in a && b[i] in b;
      }
    } else if events != [] {
      SameRun(c, events);
    }
  }

  function Burst(key: string, now: int, n: nat): seq<Event> {
    seq(n, _ => Call(key, now))
  }

  lemma BurstGrows(key: string, now: int, n: nat)
    ensures Burst(key, now, n + 1) == Burst(key, now, n) + [Call(key, now)] == [Call(key, now)] + Burst(key, now, n)
  {
  }

  /** The bucket a request finds, refilled at the time of the request. */
  function Offered(c: Config, v: Buckets, key: string, now: int): Level {
    Refilled(c, if key in v then v[key] else FullBucket(c, now), now)
  }

  lemma OfferedAfterCall(c: Config, v: Buckets, key: string, now: int)
    requires Offered(c, v, key, now).tokens > 0
    ensures Offered(c, AllowIn(c, v, key, now).0, key, now).tokens == Offered(c, v, key, now).tokens - 1
  {
    assert Earned(c, 0) == 0;
    hide Earned;
  }

  /** Of requests made all at one time, as many are admitted as the refilled bucket has tokens. */
  lemma {:induction false} BurstOffers(c: Config, events: seq<Event>, key: string, now: int, n: nat)
    requires n <= Offered(c, After(c, events), key, now).tokens
    ensures Offered(c, After(c, events + Burst(key, now, n)), key, now).tokens
       == Offered(c, After(c, events), key, now).tokens - n
  {
    hide Offered, AllowIn;
    if n == 0 {
      assert events + Burst(key, now, 0) == events;
    } else {
      BurstOffers(c, events, key, now, n - 1);
      BurstGrows(key, now, n - 1);
      var es := events + Burst(key, now, n - 1);
      assert events + Burst(key, now, n) == es + [Call(key, now)];
      RunAppend(c, es, Call(key, now));
      OfferedAfterCall(c, After(c, es), key, now);
    }
  }

  lemma BurstAnswer(c: Config, events: seq<Event>, key: string, now: int, n: nat)
    requires n <= Offered(c, After(c, events), key, now).tokens
    ensures Answers(c, events + Burst(key, now, n + 1)) != []
    ensures var a := Answers(c, events + Burst(key, now, n + 1));
            a[|a| - 1] == (n < Offered(c, After(c, events), key, now).tokens)
  {
    BurstOffers(c, events, key, now, n);
    BurstGrows(key, now, n);
    assert events + Burst(key, now, n + 1) == events + Burst(key, now, n) + [Call(key, now)];
    RunAppend(c, events + Burst(key, now, n), Call(key, now));
  }

  lemma DrainStep(c: Config, key: string, now: int, tokens: nat)
    requires 0 < tokens <= c.requests + c.burst
    ensures AllowIn(c, map[key := Level(tokens, now)], key, now).0 == map[key := Level(tokens - 1, now)]
    ensures AllowIn(c, map[], key, now).0 == map[key := Level(c.requests + c.burst - 1, now)]
  {
    assert Earned(c, 0) == 0;
    hide Earned;
  }

  lemma {:induction false} DrainFromFull(c: Config, key: string, now: int, n: nat)
    requires 0 < n <= c.requests + c.burst
    ensures After(c, Burst(key, now, n)) == map[key := Level(c.requests + c.burst - n, now)]
  {
    hide AllowIn;
    BurstGrows(key, now, n - 1);
    RunAppend(c, Burst(key, now, n - 1), Call(key, now));
    DrainStep(c, key, now, c.requests + c.burst - n + 1);
    if n > 1 {
      DrainFromFull(c, key, now, n - 1);
    } else {
      assert Burst(key, now, 0) == [];
    }
  }

  lemma {:induction false} CallsOnlyOfBurst(events: seq<Event>, key: string, now: int, n: nat)
    ensures CallsOnly(events + Burst(key, now, n)) == CallsOnly(events) + Burst(key, now, n)
  {
    if n == 0 {
      assert events + Burst(key, now, 0) == events;
    } else {
      CallsOnlyOfBurst(events, key, now, n - 1);
      BurstGrows(key, now, n - 1);
      var es := events + Burst(key, now, n - 1);
      assert events + Burst(key, now, n) == es + [Call(key, now)];
      assert (es + [Call(key, now)])[..|es|] == es;
    }
  }

  /** Use up a bucket, let it be evicted as soon as it can be, and ask for one request more than the
      refill of that time allows: only the limiter that was cleaned up admits it. */
  function Revealing(c: Config, cleaned: bool): (events: seq<Event>)
    requires Earned(c, 2 * c.window + 1) >= 0
    ensures Monotone(events)
  {
    Burst("key", 0, c.requests + c.burst) + (if cleaned then [Clean(2 * c.window + 1)] else [])
    + Burst("key", 2 * c.window + 1, Earned(c, 2 * c.window + 1) + 1)
  }

  lemma NoCalls()
    ensures CallsOnly([]) == []
  {
  }

  lemma RevealingCalls(c: Config)
    requires Earned(c, 2 * c.window + 1) >= 0
    ensures CallsOnly(Revealing(c, true)) == Revealing(c, false)
  {
    hide Earned, Burst, CallsOnly, Answers, After;
    var late, drained := 2 * c.window + 1, Burst("key", 0, c.requests + c.burst);
    CallsOnlyOfBurst([], "key", 0, c.requests + c.burst);
    NoCalls();
    assert [] + drained == drained && drained + [] == drained;
    RunAppend(c, drained, Clean(late));
    CallsOnlyOfBurst(drained + [Clean(late)], "key", late, Earned(c, late) + 1);
  }

  lemma UnsafeEarnsLess(c: Config)
    requires !EvictionSafe(c)
    ensures 0 <= Earned(c, 2 * c.window + 1) < c.requests + c.burst
  {
    QuotientAtLeast((2 * c.window + 1) * c.requests, 0, c.window);
  }

  /** What a bucket that was used up at time 0 offers when it could be evicted, and after it was. */
  lemma OffersAfterDrain(c: Config)
    requires 0 <= Earned(c, 2 * c.window + 1) < c.requests + c.burst
    ensures var late, drained := 2 * c.window + 1, Burst("key", 0, c.requests + c.burst);
            && Offered(c, After(c, drained), "key", late).tokens == Earned(c, late)
            && Offered(c, After(c, drained + [Clean(late)]), "key", late).tokens == c.requests + c.burst
  {
    hide Earned, Offered, After, Burst;
    var late, drained := 2 * c.window + 1, Burst("key", 0, c.requests + c.burst);
    DrainFromFull(c, "key", 0, c.requests + c.burst);
    OfferedDrained(c, After(c, drained), "key", late);
    RunAppend(c, drained, Clean(late));
    NothingLeft(c);
    OfferedFresh(c, "key", late);
  }

  lemma UnsafeIsVisible(c: Config)
    requires !EvictionSafe(c)
    ensures Earned(c, 2 * c.window + 1) >= 0
    ensures Monotone(Revealing(c, true)) && CallsOnly(Revealing(c, true)) == Revealing(c, false)
    ensures Answers(c, Revealing(c, true)) != Answers(c, Revealing(c, false))
  {
    hide Earned, Offered, After, Answers, CallsOnly, Burst, EvictionSafe;
    UnsafeEarnsLess(c);
    RevealingCalls(c);
    OffersAfterDrain(c);
    var late, drained := 2 * c.window + 1, Burst("key", 0, c.requests + c.burst);
    var m: nat := Earned(c, late);
    assert drained + [] == drained;
    BurstAnswer(c, drained, "key", late, m);
    BurstAnswer(c, drained + [Clean(late)], "key", late, m);
  }

  lemma OfferedFresh(c: Config, key: string, now: int)
    ensures Offered(c, map[], key, now).tokens == c.requests + c.burst
  {
    assert Earned(c, 0) == 0;
  }

  lemma OfferedDrained(c: Config, v: Buckets, key: string, now: int)
    requires key in v && v[key] == Level(0, 0) && 0 <= Earned(c, now) <= c.requests + c.burst
    ensures Offered(c, v, key, now).tokens == Earned(c, now)
  {
    hide Earned;
  }

  /** Cleanup can be observed through Allow by some run unless eviction is safe, and by none if it is. */
  lemma EvictionInvisibleIff(c: Config)
    ensures EvictionInvisible(c) <==> EvictionSafe(c)
  {
    if EvictionSafe(c) {
      forall events | Monotone(events) ensures Answers(c, events) == Answers(c, CallsOnly(events)) {
        SafeIsInvisible(c, events);
      }
    } else {
      UnsafeIsVisible(c);
    }
  }

  // ---- the bound on admissions needs the same condition

  lemma AdmittedAppend(c: Config, events: seq<Event>, e: Event, key: string)
    ensures Admitted(c, events + [e], key, 0)
         == Admitted(c, events, key, 0) + (if Admits(c, After(c, events), key, e) then 1 else 0)
  {
    assert (events + [e])[..|events|] == events;
  }

  lemma AllowedWhenOffered(c: Config, v: Buckets, key: string, now: int)
    ensures AllowIn(c, v, key, now).1 <==> Offered(c, v, key, now).tokens > 0
  {
    hide Refilled;
  }

  lemma {:induction false} BurstAdmitted(c: Config, events: seq<Event>, key: string, now: int, n: nat)
    requires n <= Offered(c, After(c, events), key, now).tokens
    ensures Admitted(c, events + Burst(key, now, n), key, 0) == Admitted(c, events, key, 0) + n
  {
    hide Offered, AllowIn, Admitted;
    if n == 0 {
      assert events + Burst(key, now, 0) == events;
    } else {
      BurstAdmitted(c, events, key, now, n - 1);
      BurstOffers(c, events, key, now, n - 1);
      BurstGrows(key, now, n - 1);
      var es := events + Burst(key, now, n - 1);
      assert events + Burst(key, now, n) == es + [Call(key, now)];
      AdmittedAppend(c, es, Call(key, now), key);
      AllowedWhenOffered(c, After(c, es), key, now);
    }
  }

  lemma RefusedWhenEmpty(c: Config, v: Buckets, key: string, now: int)
    requires Offered(c, v, key, now).tokens == 0
    ensures !AllowIn(c, v, key, now).1 && Offered(c, AllowIn(c, v, key, now).0, key, now).tokens == 0
  {
    assert Earned(c, 0) == 0;
    hide Earned;
  }

  lemma {:induction false} EmptyAdmitsNone(c: Config, events: seq<Event>, key: string, now: int, n: nat)
    requires Offered(c, After(c, events), key, now).tokens == 0
    ensures Admitted(c, events + Burst(key, now, n), key, 0) == Admitted(c, events, key, 0)
    ensures Offered(c, After(c, events + Burst(key, now, n)), key, now).tokens == 0
  {
    hide Offered, AllowIn, Admitted;
    if n == 0 {
      assert events + Burst(key, now, 0) == events;
    } else {
      EmptyAdmitsNone(c, events, key, now, n - 1);
      BurstGrows(key, now, n - 1);
      var es := events + Burst(key, now, n - 1);
      assert events + Burst(key, now, n) == es + [Call(key, now)];
      RunAppend(c, es, Call(key, now));
      AdmittedAppend(c, es, Call(key, now), key);
      RefusedWhenEmpty(c, After(c, es), key, now);
    }
  }

  function Lesser(a: nat, b: nat): nat {
    if a <= b then a else b
  }

  /** A burst after any run: the lesser of its length and what the refilled bucket has. */
  lemma BurstAfterRun(c: Config, events: seq<Event>, key: string, now: int, n: nat, tokens: nat)
    requires Offered(c, After(c, events), key, now).tokens == tokens
    ensures Admitted(c, events + Burst(key, now, n), key, 0) == Admitted(c, events, key, 0) + Lesser(n, tokens)
  {
    hide Offered, Admitted, After;
    BurstAdmitted(c, events, key, now, Lesser(n, tokens));
    if n > tokens {
      BurstOffers(c, events, key, now, tokens);
      EmptyAdmitsNone(c, events + Burst(key, now, tokens), key, now, n - tokens);
      assert events + Burst(key, now, n) == events + Burst(key, now, tokens) + Burst(key, now, n - tokens);
    }
  }

  /** Of n requests made at once for a key that has no bucket, the limit and the burst together are admitted. */
  lemma FreshBurst(c: Config, key: string, now: int, n: nat)
    ensures Admitted(c, Burst(key, now, n), key, 0) == if n <= c.requests + c.burst then n else c.requests + c.burst
  {
    hide Offered, Admitted, After;
    assert [] + Burst(key, now, n) == Burst(key, now, n);
    assert Admitted(c, [], key, 0) == 0 && After(c, []) == map[] by {
      NothingAdmitted(c, key);
    }
    OfferedFresh(c, key, now);
    BurstAfterRun(c, [], key, now, n, c.requests + c.burst);
  }

  /** Of n more at once at a later time, those that the time has earned, up to the same number. */
  lemma SecondBurst(c: Config, key: string, now: int, later: int, n: nat)
    requires now <= later
    ensures var full, earned := c.requests + c.burst, (later - now) * c.requests / c.window;
            earned >= 0 && Admitted(c, Burst(key, now, full) + Burst(key, later, n), key, 0)
                           == full + Lesser(n, Lesser(full, earned))
  {
    var full, earned := c.requests + c.burst, Earned(c, later - now);
    assert earned == (later - now) * c.requests / c.window;
    ProductAtLeast(later - now, 0, c.requests);
    QuotientAtLeast((later - now) * c.requests, 0, c.window);
    hide Offered, Admitted, After, Earned;
    FreshBurst(c, key, now, full);
    if full > 0 {
      DrainFromFull(c, key, now, full);
      OfferedFromEmpty(c, key, now, later, earned);
    } else {
      assert Burst(key, now, 0) == [] && After(c, []) == map[] by {
        NothingAdmitted(c, key);
      }
      OfferedFresh(c, key, later);
    }
    BurstAfterRun(c, Burst(key, now, full), key, later, n, Lesser(full, earned));
  }

  lemma OfferedFromEmpty(c: Config, key: string, now: int, later: int, earned: nat)
    requires earned == Earned(c, later - now)
    ensures Offered(c, map[key := Level(0, now)], key, later).tokens == Lesser(c.requests + c.burst, earned)
  {
    hide Earned;
  }

  /** Use up a bucket, have it evicted, and use up the new one at the same moment. */
  function Doubling(c: Config): (events: seq<Event>)
    ensures Monotone(events)
  {
    var full, late := c.requests + c.burst, 2 * c.window + 1;
    Burst("key", 0, full) + [Clean(late)] + Burst("key", late, full)
  }

  lemma DoublingAdmitsTwice(c: Config)
    ensures Admitted(c, Doubling(c), "key", 0) == 2 * (c.requests + c.burst)
  {
    hide Admitted, After, Burst, Offered, Earned;
    var late, drained := 2 * c.window + 1, Burst("key", 0, c.requests + c.burst);
    var cleaned := drained + [Clean(late)];
    assert Admitted(c, [], "key", 0) == 0 && After(c, []) == map[] by {
      NothingAdmitted(c, "key");
    }
    OfferedFresh(c, "key", 0);
    BurstAdmitted(c, [], "key", 0, c.requests + c.burst);
    assert [] + drained == drained;
    AdmittedAppend(c, drained, Clean(late), "key");
    NothingLeft(c);
    RunAppend(c, drained, Clean(late));
    OfferedFresh(c, "key", late);
    BurstAdmitted(c, cleaned, "key", late, c.requests + c.burst);
  }

  lemma NothingAdmitted(c: Config, key: string)
    ensures Admitted(c, [], key, 0) == 0 && After(c, []) == map[]
  {
  }

  lemma NothingLeft(c: Config)
    ensures CleanedUp(c, After(c, Burst("key", 0, c.requests + c.burst)), 2 * c.window + 1) == map[]
  {
    hide AllowIn;
    if c.requests + c.burst > 0 {
      DrainFromFull(c, "key", 0, c.requests + c.burst);
    } else {
      assert Burst("key", 0, 0) == [];
    }
  }

  ghost predicate WindowsBounded(c: Config) {
    forall events, key, lo: nat, s, t | Monotone(events) && Between(events, lo, s, t) ::
      Admitted(c, events, key, lo) <= c.requests + c.burst + (t - s) * c.requests / c.window
  }

  /** With Cleanup calls anywhere, the bound on admissions between two times holds in all runs exactly
      when eviction is safe: otherwise a bucket can be spent twice in little more than two windows. */
  lemma WindowBoundIff(c: Config)
    ensures WindowsBounded(c) <==> EvictionSafe(c)
  {
    hide Admitted;
    if EvictionSafe(c) {
      forall events, key, lo: nat, s, t | Monotone(events) && Between(events, lo, s, t)
        ensures Admitted(c, events, key, lo) <= c.requests + c.burst + (t - s) * c.requests / c.window
      {
        WindowBound(c, events, key, lo, s, t);
      }
    } else {
      DoublingAdmitsTwice(c);
      var events, late := Doubling(c), 2 * c.window + 1;
      assert Monotone(events) && Between(events, 0, 0, late);
      assert Earned(c, late) == (late - 0) * c.requests / c.window;
      assert !WindowsBounded(c);
    }
  }

  // ---- what the truncation can cost

  /** A refill below the capacity loses less than one token, and none at all when it adds nothing. */
  lemma RefillLoss(c: Config, b: Level, now: int)
    requires Spent(c, b, now)
    ensures Refilled(c, b, now).tokens < c.requests + c.burst ==>
              Worth(c, b, now) - Worth(c, Refilled(c, b, now), now) < c.window
    ensures Earned(c, now - b.lastUpdate) == 0 ==> Refilled(c, b, now) == b
  {
    var earned, r := (now - b.lastUpdate) * c.requests, Refilled(c, b, now);
    var add := earned / c.window;
    DivisionBounds(earned, c.window);
    hide Worth;
    WorthIs(c, b, now, earned);
    WorthNow(c, r);
    Distribute(b.tokens, add, c.window);
  }

  /** The bucket of a key after a refused request: empty, and not updated later than that request. */
  ghost predicate Starved(c: Config, v: Buckets, key: string, since: int) {
    key in v && v[key].tokens == 0 && v[key].lastUpdate <= since
  }

  lemma RefusedIsStarved(c: Config, v: Buckets, key: string, now: int)
    requires c.requests + c.burst > 0 && !AllowIn(c, v, key, now).1 && (key in v ==> Spent(c, v[key], now))
    ensures Starved(c, AllowIn(c, v, key, now).0, key, now)
  {
    assert Earned(c, 0) == 0;
    hide Earned;
  }

  /** Since its last refusal the key has a starved bucket, or has lost it to a clean-up. */
  ghost predicate Waiting(c: Config, v: Buckets, key: string, since: int) {
    key !in v || Starved(c, v, key, since)
  }

  lemma StarvedCall(c: Config, v: Buckets, key: string, since: int, now: int)
    requires c.requests + c.burst > 0 && Starved(c, v, key, since) && since <= now
    ensures AllowIn(c, v, key, now).1 || Starved(c, AllowIn(c, v, key, now).0, key, since)
    ensures (now - since) * c.requests >= c.window ==> AllowIn(c, v, key, now).1
  {
    var b := v[key];
    ProductAtLeast(now - b.lastUpdate, now - since, c.requests);
    QuotientAtLeast((now - b.lastUpdate) * c.requests, 1, c.window);
    assert Earned(c, now - b.lastUpdate) == (now - b.lastUpdate) * c.requests / c.window;
    hide Earned;
  }

  lemma FreshCall(c: Config, v: Buckets, key: string, now: int)
    requires c.requests + c.burst > 0 && key !in v
    ensures AllowIn(c, v, key, now).1
  {
    assert Earned(c, 0) == 0;
    hide Earned;
  }

  lemma WaitingStep(c: Config, v: Buckets, key: string, since: int, e: Event)
    requires c.requests + c.burst > 0 && Waiting(c, v, key, since) && since <= e.now
    ensures Admits(c, v, key, e) || Waiting(c, Apply(c, v, e), key, since)
    ensures e.Call? && e.key == key && (e.now - since) * c.requests >= c.window ==> Admits(c, v, key, e)
  {
    if e.Call? && e.key == key {
      if key in v {
        StarvedCall(c, v, key, since, e.now);
      } else {
        FreshCall(c, v, key, e.now);
      }
    }
    hide Taken, Earned;
  }

  predicate ServedAt(c: Config, events: seq<Event>, key: string, k: nat)
    requires k < |events|
  {
    Admits(c, After(c, events[..k]), key, events[k])
  }

  predicate RefusedAt(c: Config, events: seq<Event>, key: string, k: nat)
    requires k < |events|
  {
    events[k].Call? && events[k].key == key && !ServedAt(c, events, key, k)
  }

  lemma {:induction false} SpentInRun(c: Config, events: seq<Event>, key: string)
    requires Monotone(events) && events != [] && key in After(c, events)
    ensures Spent(c, After(c, events)[key], events[|events| - 1].now)
  {
    hide Spent, Taken;
    var n := |events| - 1;
    var e, v := events[n], After(c, events[..n]);
    if n == 0 {
      assert events[..n] == [];
    } else {
      MonotonePrefix(events);
      if key in v {
        SpentInRun(c, events[..n], key);
        SpentLater(c, v[key], events[n - 1].now, e.now);
      }
    }
    if e.Call? && e.key == key {
      if key in v {
        TakenWorth(c, v[key], e.now);
      } else {
        FullBucketTaken(c, e.now);
      }
    }
  }

  lemma SpentLater(c: Config, b: Level, now: int, later: int)
    requires Spent(c, b, now) && now <= later
    ensures Spent(c, b, later)
  {
  }

  lemma AfterNext(c: Config, events: seq<Event>, n: nat)
    requires n < |events|
    ensures After(c, events[..n + 1]) == Apply(c, After(c, events[..n]), events[n])
  {
    assert events[..n + 1][..n] == events[..n];
  }

  lemma RefusedWaits(c: Config, events: seq<Event>, key: string, i: nat)
    requires Monotone(events) && c.requests + c.burst > 0 && i < |events| && RefusedAt(c, events, key, i)
    ensures Waiting(c, After(c, events[..i + 1]), key, events[i].now)
  {
    hide Spent, Taken, After;
    var v := After(c, events[..i]);
    AfterNext(c, events, i);
    if i > 0 && key in v {
      assert Monotone(events[..i]);
      SpentInRun(c, events[..i], key);
      SpentLater(c, v[key], events[i - 1].now, events[i].now);
    } else {
      assert i == 0 ==> events[..i] == [] && After(c, []) == map[] by {
        NothingAtFirst(c);
      }
    }
    RefusedIsStarved(c, v, key, events[i].now);
  }

  lemma NothingAtFirst(c: Config)
    ensures After(c, []) == map[]
  {
  }

  lemma {:induction false} WaitingUntilServed(c: Config, events: seq<Event>, key: string, i: nat, n: nat)
    requires Monotone(events) && c.requests + c.burst > 0 && i < n <= |events| && RefusedAt(c, events, key, i)
    ensures (exists k :: i < k < n && ServedAt(c, events, key, k))
            || Waiting(c, After(c, events[..n]), key, events[i].now)
    decreases n
  {
    hide Waiting, ServedAt, RefusedAt, After;
    if n == i + 1 {
      RefusedWaits(c, events, key, i);
    } else {
      WaitingUntilServed(c, events, key, i, n - 1);
      if Waiting(c, After(c, events[..n - 1]), key, events[i].now) {
        AfterNext(c, events, n - 1);
        WaitingStep(c, After(c, events[..n - 1]), key, events[i].now, events[n - 1]);
        ServedIs(c, events, key, n - 1);
      }
    }
  }

  lemma ServedIs(c: Config, events: seq<Event>, key: string, k: nat)
    requires k < |events|
    ensures ServedAt(c, events, key, k) <==> Admits(c, After(c, events[..k]), key, events[k])
  {
  }

  /** Once a token's time has passed since a refusal, one of the later requests of the key, the present
      one at the latest, has been admitted, clean-ups or not. */
  lemma AskingIsServed(c: Config, events: seq<Event>, key: string, i: nat, j: nat)
    requires Monotone(events) && c.requests + c.burst > 0 && i < j < |events|
    requires RefusedAt(c, events, key, i) && events[j].Call? && events[j].key == key
    requires (events[j].now - events[i].now) * c.requests >= c.window
    ensures exists k :: i < k <= j && ServedAt(c, events, key, k)
  {
    hide Waiting, RefusedAt, After, AllowIn;
    WaitingUntilServed(c, events, key, i, j);
    if Waiting(c, After(c, events[..j]), key, events[i].now) {
      WaitingStep(c, After(c, events[..j]), key, events[i].now, events[j]);
      assert ServedAt(c, events, key, j);
    }
  }

  // ---- what a key that keeps asking gets at least

  predicate Asks(e: Event, key: string) {
    e.Call? && e.key == key
  }

  /** The time of the last request of the key, 0 before the first. */
  function LastAsked(events: seq<Event>, key: string): int {
    if events == [] then 0
    else if Asks(events[|events| - 1], key) then events[|events| - 1].now
    else LastAsked(events[..|events| - 1], key)
  }

  /** After position i the key never waits longer than gap before it asks again. */
  ghost predicate KeepsAsking(events: seq<Event>, key: string, i: nat, gap: nat) {
    forall n | i < n < |events| && Asks(events[n], key) :: events[n].now - LastAsked(events[..n], key) <= gap
  }

  /** The price of one admission, in the units of Ideal: its token, and the time that can pass until the
      key asks for it. */
  function Toll(c: Config, gap: nat): nat {
    c.window + gap * c.requests
  }

  /** What n admissions have paid for since the time since, when the key last asked at the time last. */
  ghost predicate PaidUp(c: Config, v: Buckets, key: string, gap: nat, n: nat, since: int, last: int) {
    if key in v then
      && v[key].lastUpdate <= last && Gain(c, last - v[key].lastUpdate) < c.window
      && n * Toll(c, gap) >= Gain(c, v[key].lastUpdate - since)
    else n * Toll(c, gap) > Gain(c, last - since) - c.window
  }

  lemma PaidUpMeans(c: Config, v: Buckets, key: string, gap: nat, n: nat, since: int, last: int)
    requires PaidUp(c, v, key, gap, n, since, last)
    ensures n * Toll(c, gap) > Gain(c, last - since) - c.window
  {
    hide Toll, Gain;
    if key in v {
      GainAdds(c, last - v[key].lastUpdate, v[key].lastUpdate - since);
    }
  }

  /** A request either finds less than a token earned, or takes one and brings its bucket up to date. */
  lemma CallUpdates(c: Config, b: Level, now: int)
    requires c.requests + c.burst > 0 && b.lastUpdate <= now && b.tokens >= 0
    ensures Gain(c, now - b.lastUpdate) < c.window ==> Taken(c, b, now).0.lastUpdate == b.lastUpdate
    ensures Gain(c, now - b.lastUpdate) >= c.window ==>
              Taken(c, b, now).1 && Taken(c, b, now).0.lastUpdate == now
  {
    QuotientAtLeast((now - b.lastUpdate) * c.requests, 1, c.window);
  }

  lemma NextToll(c: Config, gap: nat, n: nat, before: int, elapsed: int, waited: int)
    requires n * Toll(c, gap) >= Gain(c, before) && Gain(c, elapsed) < c.window && waited <= gap
    ensures (n + 1) * Toll(c, gap) >= Gain(c, before + elapsed + waited)
  {
    GainAdds(c, before, elapsed);
    GainAdds(c, before + elapsed, waited);
    ProductAtLeast(gap, waited, c.requests);
    Distribute(n, 1, Toll(c, gap));
    assert Toll(c, gap) == c.window + gap * c.requests && Gain(c, waited) == waited * c.requests;
  }

  lemma PaidUpCall(c: Config, v: Buckets, key: string, gap: nat, n: nat, since: int, last: int, now: int)
    requires c.requests + c.burst > 0 && PaidUp(c, v, key, gap, n, since, last) && last <= now <= last + gap
    requires key in v ==> v[key].tokens >= 0
    ensures var (v', admitted) := AllowIn(c, v, key, now);
            PaidUp(c, v', key, gap, if admitted then n + 1 else n, since, now)
  {
    hide Toll, Gain, Taken;
    GainAdds(c, 0, 0);
    if key in v {
      var b := v[key];
      CallUpdates(c, b, now);
      if Gain(c, now - b.lastUpdate) >= c.window {
        NextToll(c, gap, n, b.lastUpdate - since, last - b.lastUpdate, now - last);
      } else {
        MoreTolls(c, gap, n);
      }
    } else {
      FreshCall(c, v, key, now);
      FreshIsCurrent(c, now);
      LateToll(c, gap, n, last - since, now - last);
    }
  }

  lemma MoreTolls(c: Config, gap: nat, n: nat)
    ensures (n + 1) * Toll(c, gap) >= n * Toll(c, gap)
  {
    Distribute(n, 1, Toll(c, gap));
    assert gap * c.requests >= 0;
  }

  lemma FreshIsCurrent(c: Config, now: int)
    ensures Taken(c, FullBucket(c, now), now).0.lastUpdate == now
  {
  }

  lemma LateToll(c: Config, gap: nat, n: nat, before: int, waited: int)
    requires n * Toll(c, gap) > Gain(c, before) - c.window && waited <= gap
    ensures (n + 1) * Toll(c, gap) >= Gain(c, before + waited)
  {
    GainAdds(c, before, waited);
    ProductAtLeast(gap, waited, c.requests);
    Distribute(n, 1, Toll(c, gap));
    assert Toll(c, gap) == c.window + gap * c.requests && Gain(c, waited) == waited * c.requests;
  }

  lemma PaidUpOtherwise(c: Config, v: Buckets, key: string, gap: nat, n: nat, since: int, last: int, e: Event)
    requires PaidUp(c, v, key, gap, n, since, last) && !Asks(e, key)
    ensures PaidUp(c, Apply(c, v, e), key, gap, n, since, last)
  {
    PaidUpMeans(c, v, key, gap, n, since, last);
    hide Toll, Gain, Taken;
  }

  lemma PaidUpAtFirst(c: Config, events: seq<Event>, key: string, gap: nat, i: nat)
    requires Monotone(events) && c.requests + c.burst > 0 && i < |events| && Asks(events[i], key)
    ensures PaidUp(c, After(c, events[..i + 1]), key, gap, 0, events[i].now, events[i].now)
  {
    hide Spent, Taken, After, Gain, Toll;
    var v, now := After(c, events[..i]), events[i].now;
    AfterNext(c, events, i);
    GainAdds(c, 0, 0);
    if i > 0 && key in v {
      assert Monotone(events[..i]);
      SpentInRun(c, events[..i], key);
      SpentLater(c, v[key], events[i - 1].now, now);
      SpentIs(c, v[key], now);
      CallUpdates(c, v[key], now);
      EarlierGain(c, v[key].lastUpdate, now);
    } else {
      assert i == 0 ==> events[..i] == [] && After(c, []) == map[] by {
        NothingAtFirst(c);
      }
      FreshIsCurrent(c, now);
    }
  }

  lemma SpentIs(c: Config, b: Level, now: int)
    requires Spent(c, b, now)
    ensures b.tokens >= 0 && b.lastUpdate <= now
  {
  }

  lemma EarlierGain(c: Config, early: int, now: int)
    requires early <= now
    ensures Gain(c, early - now) <= 0
  {
    ProductAtLeast(0, early - now, c.requests);
  }

  lemma {:induction false} PaidUpInRun(c: Config, events: seq<Event>, key: string, i: nat, gap: nat, n: nat)
    requires Monotone(events) && c.requests + c.burst > 0 && i < n <= |events| && Asks(events[i], key)
    requires KeepsAsking(events, key, i, gap)
    ensures PaidUp(c, After(c, events[..n]), key, gap, Admitted(c, events[..n], key, i + 1), events[i].now,
                   LastAsked(events[..n], key))
    ensures LastAsked(events[..n], key) <= events[n - 1].now
    decreases n
  {
    hide PaidUp, Spent, After, AllowIn;
    assert events[..n][..n - 1] == events[..n - 1] && events[..n][n - 1] == events[n - 1];
    if n == i + 1 {
      PaidUpAtFirst(c, events, key, gap, i);
    } else {
      PaidUpInRun(c, events, key, i, gap, n - 1);
      var v, e := After(c, events[..n - 1]), events[n - 1];
      AfterNext(c, events, n - 1);
      var admitted, last := Admitted(c, events[..n - 1], key, i + 1), LastAsked(events[..n - 1], key);
      if Asks(e, key) {
        TokensNotNegative(c, events, key, n - 1);
        PaidUpCall(c, v, key, gap, admitted, events[i].now, last, e.now);
      } else {
        PaidUpOtherwise(c, v, key, gap, admitted, events[i].now, last, e);
      }
    }
  }

  lemma TokensNotNegative(c: Config, events: seq<Event>, key: string, n: nat)
    requires Monotone(events) && 0 < n <= |events|
    ensures key in After(c, events[..n]) ==> After(c, events[..n])[key].tokens >= 0
  {
    hide Spent, After;
    assert Monotone(events[..n]);
    if key in After(c, events[..n]) {
      SpentInRun(c, events[..n], key);
      SpentIs(c, After(c, events[..n])[key], events[n - 1].now);
    }
  }

  /** A key that never waits longer than gap to ask again is admitted, from its first request to its last,
      more often than (elapsed time * requests - window) / (window + gap * requests): with small gaps that
      is its rate; clean-ups take nothing from it. */
  lemma AskingRate(c: Config, events: seq<Event>, key: string, i: nat, gap: nat)
    requires Monotone(events) && c.requests + c.burst > 0 && i < |events| && Asks(events[i], key)
    requires KeepsAsking(events, key, i, gap)
    ensures Admitted(c, events, key, i + 1) * (c.window + gap * c.requests)
            > (LastAsked(events, key) - events[i].now) * c.requests - c.window
  {
    hide PaidUp, After, Admitted, LastAsked, KeepsAsking, Monotone;
    assert events[..|events|] == events;
    PaidUpInRun(c, events, key, i, gap, |events|);
    PaidUpMeans(c, After(c, events), key, gap, Admitted(c, events, key, i + 1), events[i].now,
                LastAsked(events, key));
  }

  // ---- what the gap can cost

  const ONE_PER_HUNDRED: Config := Configuration(1, 0, 100)

  function EveryNinetyNine(key: string, n: nat): (events: seq<Event>)
    ensures |events| == n && forall i | 0 <= i < n :: events[i] == Call(key, 99 * i)
  {
    seq(n, i requires 0 <= i < n => Call(key, 99 * i))
  }

  /** One more of these requests: the bucket after it, and the count. */
  lemma NextOfThese(key: string, n: nat)
    ensures var c, before, after := ONE_PER_HUNDRED, EveryNinetyNine(key, n), EveryNinetyNine(key, n + 1);
            && After(c, after) == AllowIn(c, After(c, before), key, 99 * n).0
            && Admitted(c, after, key, 0)
               == Admitted(c, before, key, 0) + (if AllowIn(c, After(c, before), key, 99 * n).1 then 1 else 0)
  {
    var after := EveryNinetyNine(key, n + 1);
    assert after[..n] == EveryNinetyNine(key, n) && after[n] == Call(key, 99 * n);
    hide AllowIn, EveryNinetyNine;
  }

  lemma TwoOfThese(key: string, n: nat, v: Buckets)
    requires v == if n == 0 then map[] else map[key := Level(0, 198 * (n - 1))]
    ensures AllowIn(ONE_PER_HUNDRED, v, key, 198 * n) == (map[key := Level(0, 198 * n)], true)
    ensures AllowIn(ONE_PER_HUNDRED, map[key := Level(0, 198 * n)], key, 198 * n + 99)
         == (map[key := Level(0, 198 * n)], false)
  {
    var c := ONE_PER_HUNDRED;
    TakenOfThese(198 * n);
    TakenOfThese(198 * (n - 1));
    hide Taken;
    var now, empty: Buckets := 198 * n, map[key := Level(0, 198 * n)];
    assert v[key := Level(0, now)] == empty && empty[key := Level(0, now)] == empty;
    assert n > 0 ==> v[key] == Level(0, 198 * (n - 1));
  }

  lemma TakenOfThese(t: int)
    ensures var c := ONE_PER_HUNDRED;
            && Taken(c, FullBucket(c, t), t) == (Level(0, t), true)
            && Taken(c, Level(0, t), t + 99) == (Level(0, t), false)
            && Taken(c, Level(0, t), t + 198) == (Level(0, t + 198), true)
  {
    var c := ONE_PER_HUNDRED;
    assert Earned(c, 99) == 0 && Earned(c, 198) == 1 && Earned(c, 0) == 0 && c.requests + c.burst == 1;
    hide Earned;
  }

  /** A key whose bucket earns a token every 100 ns, and which asks every 99 ns, is served every other time. */
  lemma {:induction false} GapHalvesTheRate(key: string, n: nat)
    ensures Admitted(ONE_PER_HUNDRED, EveryNinetyNine(key, 2 * n), key, 0) == n
    ensures After(ONE_PER_HUNDRED, EveryNinetyNine(key, 2 * n))
         == if n == 0 then map[] else map[key := Level(0, 198 * (n - 1))]
  {
    hide AllowIn;
    if n > 0 {
      GapHalvesTheRate(key, n - 1);
      TwoOfThese(key, n - 1, After(ONE_PER_HUNDRED, EveryNinetyNine(key, 2 * n - 2)));
      NextOfThese(key, 2 * n - 2);
      NextOfThese(key, 2 * n - 1);
    }
  }
}
