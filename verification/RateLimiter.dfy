// The in-memory token bucket of pkg/middleware/ratelimit.go.  Durations are whole nanoseconds, the
// refill is the exact quotient rounded down, and each call reads the clock once.
module RateLimiting {

  datatype Configuration = Configuration(requests: nat, burst: nat, window: nat)

  /** A window of zero length divides by zero in the refill and is not a configuration. */
  type Config = c: Configuration | c.window > 0 witness Configuration(100, 10, 60_000_000_000)

  datatype Level = Level(tokens: int, lastUpdate: int)

  function FullBucket(c: Config, now: int): Level {
    Level(c.requests + c.burst, now)
  }

  /** Whole tokens earned since the last update. */
  function Earned(c: Config, elapsed: int): int {
    elapsed * c.requests / c.window
  }

  function Refilled(c: Config, b: Level, now: int): Level {
    var add := Earned(c, now - b.lastUpdate);
    var most := c.requests + c.burst;
    if add > 0 then Level(if b.tokens + add > most then most else b.tokens + add, now) else b
  }

  /** The bucket after one request, and whether the request was admitted. */
  function Taken(c: Config, b: Level, now: int): (Level, bool) {
    var r := Refilled(c, b, now);
    if r.tokens > 0 then (Level(r.tokens - 1, r.lastUpdate), true) else (r, false)
  }

  type Buckets = map<string, Level>

  function AllowIn(c: Config, v: Buckets, key: string, now: int): (Buckets, bool) {
    var (b, admitted) := Taken(c, if key in v then v[key] else FullBucket(c, now), now);
    (v[key := b], admitted)
  }

  predicate Evictable(c: Config, b: Level, now: int) {
    now - b.lastUpdate > c.window * 2
  }

  function CleanedUp(c: Config, v: Buckets, now: int): Buckets {
    map k | k in v && !Evictable(c, v[k], now) :: v[k]
  }

  class Bucket {
    var tokens: int
    var lastUpdate: int

    constructor (tokens: int, lastUpdate: int)
      ensures this.tokens == tokens && this.lastUpdate == lastUpdate
    {
      this.tokens, this.lastUpdate := tokens, lastUpdate;
    }

    ghost function View(): Level
      reads this
    {
      Level(tokens, lastUpdate)
    }

    /** The part of Allow that runs under the lock of the bucket. */
    method Take(config: Config, now: int) returns (admitted: bool)
      modifies this
      ensures (View(), admitted) == Taken(config, old(View()), now)
    {
      hide Earned;
      var elapsed := now - lastUpdate;
      var tokensToAdd := Earned(config, elapsed);
      if tokensToAdd > 0 {
        tokens := tokens + tokensToAdd;
        var maxTokens := config.requests + config.burst;
        if tokens > maxTokens {
          tokens := maxTokens;
        }
        lastUpdate := now;
      }
      if tokens > 0 {
        tokens := tokens - 1;
        return true;
      }
      return false;
    }
  }

  class RateLimiter {
    const config: Config
    var buckets: map<string, Bucket>

    /** No bucket serves two keys. */
    ghost predicate Valid()
      reads this
    {
      forall j, k | j in buckets && k in buckets && j != k :: buckets[j] != buckets[k]
    }

    ghost function View(): Buckets
      reads this, buckets.Values
    {
      map k | k in buckets :: buckets[k].View()
    }

    constructor (config: Config)
      ensures Valid() && View() == map[] && this.config == config
    {
      this.config := config;
      buckets := map[];
    }

    method Allow(key: string, now: int) returns (admitted: bool)
      requires Valid()
      modifies this, buckets.Values
      ensures Valid() && fresh(buckets.Values - old(buckets.Values))
      ensures (View(), admitted) == AllowIn(config, old(View()), key, now)
    {
      hide Taken;
      var b: Bucket;
      if key in buckets {
        b := buckets[key];
      } else {
        b := new Bucket(config.requests + config.burst, now);
        buckets := buckets[key := b];
      }
      admitted := b.Take(config, now);
      assert View() == AllowIn(config, old(View()), key, now).0;
    }

    method Remaining(key: string) returns (n: int)
      requires Valid()
      ensures n == if key in View() then View()[key].tokens else config.requests + config.burst
    {
      n := if key in buckets then buckets[key].tokens else config.requests + config.burst;
    }

    method Cleanup(now: int)
      requires Valid()
      modifies this
      ensures Valid() && buckets.Values <= old(buckets.Values)
      ensures View() == CleanedUp(config, old(View()), now)
    {
      var todo := buckets.Keys;
      while todo != {}
        invariant todo <= buckets.Keys && buckets.Keys <= old(buckets.Keys)
        invariant forall k | k in buckets :: buckets[k] == old(buckets[k])
        invariant forall k :: k in buckets
                              <==> k in old(buckets) && (k in todo || !Evictable(config, old(View())[k], now))
      {
        var key :| key in todo;
        todo := todo - {key};
        if now - buckets[key].lastUpdate > config.window * 2 {
          buckets := buckets - {key};
        }
      }
    }
  }
}
