// The Redis-backed limiter of pkg/middleware/distributed_ratelimit.go.  Every instance increments one
// shared counter and sets its expiry again with each request.  The two commands of the pipeline are
// taken at one clock reading, how far the connection holds is a parameter, and the window is measured
// in the unit in which the expiry is given.
module DistributedRateLimiting {
  import opened Wrappers
  import opened RateLimiting

  datatype Counter = Counter(count: int, expiry: Option<int>)

  type Store = map<string, Counter>

  /** The count of a key at a time; a key whose expiry has passed does not exist. */
  function LiveCount(store: Store, key: string, now: int): Option<int> {
    if key !in store then None
    else if store[key].expiry.Some? && store[key].expiry.value <= now then None
    else Some(store[key].count)
  }

  /** How a call fares: it is answered, or it fails after Redis has carried out some of its commands. */
  datatype Connection = Holds | Fails(carriedOut: nat)

  class Redis {
    var store: Store

    constructor ()
      ensures store == map[]
    {
      store := map[];
    }

    /** Keeps the expiry of a live key; a new one has none. */
    method Incr(key: string, now: int) returns (n: int)
      modifies this
      ensures n == 1 + (match old(LiveCount(store, key, now)) case Some(k) => k case None => 0)
      ensures store == old(store)[key :=
                         Counter(n, if old(LiveCount(store, key, now)).Some? then old(store)[key].expiry else None)]
      ensures LiveCount(store, key, now) == Some(n)
    {
      var live := LiveCount(store, key, now);
      if live.Some? {
        n := live.value + 1;
        store := store[key := Counter(n, store[key].expiry)];
      } else {
        n := 1;
        store := store[key := Counter(n, None)];
      }
    }

    method Expire(key: string, window: nat, now: int)
      modifies this
      ensures store == if old(LiveCount(store, key, now)).None? then old(store)
                       else old(store)[key := Counter(old(store)[key].count, Some(now + window))]
    {
      if LiveCount(store, key, now).Some? {
        store := store[key := Counter(store[key].count, Some(now + window))];
      }
    }

    method Del(key: string)
      modifies this
      ensures store == old(store) - {key}
    {
      store := store - {key};
    }
  }

  /** The store after one request, and whether the request is admitted. */
  function AllowedIn(c: Config, store: Store, key: string, now: int): (Store, bool) {
    var n := 1 + (match LiveCount(store, key, now) case Some(k) => k case None => 0);
    (store[key := Counter(n, Some(now + c.window))], n <= c.requests)
  }

  /** The store after the first commands of such a request. */
  function PartOfAllow(c: Config, store: Store, key: string, now: int, carriedOut: nat): Store {
    if carriedOut == 0 then store
    else if carriedOut >= 2 then AllowedIn(c, store, key, now).0
    else
      match LiveCount(store, key, now)
      case Some(count) => store[key := Counter(count + 1, store[key].expiry)]
      case None => store[key := Counter(1, None)]
  }

  /** Once the first command has been carried out the request is counted; the key has its new expiry only
      after the second, and until then the one that it had while it was alive. */
  lemma CountedInPart(c: Config, store: Store, key: string, now: int, carriedOut: nat)
    ensures var after, live := PartOfAllow(c, store, key, now, carriedOut), LiveCount(store, key, now);
            if carriedOut == 0 then after == store
            else && after == store[key := after[key]]
                 && after[key].count == (match live case Some(n) => n + 1 case None => 1)
                 && after[key].expiry == if carriedOut > 1 then Some(now + c.window)
                                         else if live.Some? then store[key].expiry else None
  {
  }

  class DistributedRateLimiter {
    const redis: Redis
    const config: Config
    const prefix: string

    constructor (redis: Redis, config: Config, prefix: string)
      ensures this.redis == redis && this.config == config
      ensures this.prefix == if prefix == "" then "ratelimit" else prefix
    {
      this.redis, this.config := redis, config;
      this.prefix := if prefix == "" then "ratelimit" else prefix;
    }

    /** A failed call admits the request, whatever Redis has counted. */
    method Allow(key: string, now: int, connection: Connection) returns (admitted: bool, failed: bool)
      modifies redis
      ensures failed <==> connection.Fails?
      ensures !failed ==> (redis.store, admitted) == AllowedIn(config, old(redis.store), prefix + ":" + key, now)
      ensures failed ==> admitted && redis.store == PartOfAllow(config, old(redis.store), prefix + ":" + key, now,
                                                                connection.carriedOut)
    {
      var redisKey := prefix + ":" + key;
      var count;
      if connection == Fails(0) {
        return true, true;
      }
      count := redis.Incr(redisKey, now);
      if connection == Fails(1) {
        return true, true;
      }
      redis.Expire(redisKey, config.window, now);
      assert redis.store == old(redis.store)[redisKey := Counter(count, Some(now + config.window))];
      return connection.Fails? || count <= config.requests, connection.Fails?;
    }

    /** A failed call reports no quota. */
    method Remaining(key: string, now: int, connection: Connection) returns (n: int, failed: bool)
      ensures failed <==> connection.Fails?
      ensures n == if failed then 0
                   else match LiveCount(redis.store, prefix + ":" + key, now)
                        case Some(count) => if count > config.requests then 0 else config.requests - count
                        case None => config.requests
    {
      if connection.Fails? {
        return 0, true;
      }
      failed := false;
      var count := LiveCount(redis.store, prefix + ":" + key, now);
      if count.None? {
        return config.requests, false;
      }
      n := config.requests - count.value;
      if n < 0 {
        n := 0;
      }
    }

    method Reset(key: string)
      modifies redis
      ensures redis.store == old(redis.store) - {prefix + ":" + key}
    {
      redis.Del(prefix + ":" + key);
    }
  }

  // ---- any interleaving of the requests of any number of instances

  /** A request as its instance makes it: instances of different ages may be configured differently. */
  datatype Request = Request(config: Config, key: string, now: int)

  function After(requests: seq<Request>): Store {
    if requests == [] then map[]
    else
      var n := |requests| - 1;
      AllowedIn(requests[n].config, After(requests[..n]), requests[n].key, requests[n].now).0
  }

  /** The answer to the last request. */
  predicate LastAdmitted(requests: seq<Request>)
    requires requests != []
  {
    var n := |requests| - 1;
    AllowedIn(requests[n].config, After(requests[..n]), requests[n].key, requests[n].now).1
  }

  /** The last request of the key, or -1. */
  function LastFor(requests: seq<Request>, key: string): (i: int)
    ensures -1 <= i < |requests|
    ensures i >= 0 ==> requests[i].key == key
    ensures forall j | i < j < |requests| :: requests[j].key != key
  {
    if requests == [] then -1
    else if requests[|requests| - 1].key == key then |requests| - 1
    else LastFor(requests[..|requests| - 1], key)
  }

  /** The position of request i in its run: requests of its key, each within the window of the one before. */
  function Position(requests: seq<Request>, i: nat): nat
    requires i < |requests|
  {
    var j := LastFor(requests[..i], requests[i].key);
    if j == -1 || requests[i].now - requests[j].now >= requests[j].config.window then 1 else Position(requests, j) + 1
  }

  lemma PositionInPrefix(requests: seq<Request>, n: nat, i: nat)
    requires i < n <= |requests|
    ensures Position(requests[..n], i) == Position(requests, i)
  {
    assert requests[..n][..i] == requests[..i];
    var j := LastFor(requests[..i], requests[i].key);
    if j != -1 {
      PositionInPrefix(requests, n, j);
    }
  }

  /** The shared counter of a key is the position of its last request, kept for one window after it. */
  lemma {:induction false} CounterIsPosition(requests: seq<Request>, key: string)
    ensures var i := LastFor(requests, key);
            if i == -1 then key !in After(requests)
            else key in After(requests)
                 && After(requests)[key]
                    == Counter(Position(requests, i), Some(requests[i].now + requests[i].config.window))
  {
    hide Position, After, LastFor, AllowedIn;
    NothingCounted(key);
    if requests != [] {
      var n := |requests| - 1;
      CounterIsPosition(requests[..n], key);
      LastStep(requests, key);
      PositionIs(requests, n);
      var i := LastFor(requests[..n], key);
      if i != -1 {
        PositionInPrefix(requests, n, i);
      }
      Counted(requests[n].config, After(requests[..n]), requests[n].key, requests[n].now);
    }
  }

  lemma NothingCounted(key: string)
    ensures After([]) == map[] && LastFor([], key) == -1
  {
  }

  lemma LastStep(requests: seq<Request>, key: string)
    requires requests != []
    ensures var n := |requests| - 1;
            && LastFor(requests, key) == (if requests[n].key == key then n else LastFor(requests[..n], key))
            && After(requests)
               == AllowedIn(requests[n].config, After(requests[..n]), requests[n].key, requests[n].now).0
  {
    hide AllowedIn;
  }

  lemma Counted(c: Config, store: Store, key: string, now: int)
    ensures var counted := AllowedIn(c, store, key, now).0;
            && counted == store[key := counted[key]]
            && counted[key].expiry == Some(now + c.window)
            && (key !in store ==> counted[key].count == 1)
            && (key in store && store[key].expiry.Some? ==>
                  counted[key].count == if store[key].expiry.value <= now then 1 else store[key].count + 1)
  {
  }

  lemma PositionIs(requests: seq<Request>, i: nat)
    requires i < |requests|
    ensures var j := LastFor(requests[..i], requests[i].key);
            Position(requests, i)
            == if j == -1 || requests[i].now - requests[j].now >= requests[j].config.window then 1
               else Position(requests, j) + 1
  {
  }

  /** A request is admitted exactly when its position in its run does not exceed the limit of its instance. */
  lemma AdmittedByPosition(requests: seq<Request>)
    requires requests != []
    ensures LastAdmitted(requests)
       <==> Position(requests, |requests| - 1) <= requests[|requests| - 1].config.requests
  {
    var n := |requests| - 1;
    CounterIsPosition(requests[..n], requests[n].key);
    var i := LastFor(requests[..n], requests[n].key);
    if i != -1 {
      PositionInPrefix(requests, n, i);
    }
  }

  /** How many requests of the key from position lo on are admitted. */
  function Admitted(requests: seq<Request>, key: string, lo: nat): nat {
    if |requests| <= lo then 0
    else
      var n := |requests| - 1;
      Admitted(requests[..n], key, lo) + (if requests[n].key == key && LastAdmitted(requests) then 1 else 0)
  }

  /** From position lo on, no request of the key comes later than the window of the previous one from lo on. */
  ghost predicate Unbroken(requests: seq<Request>, key: string, lo: nat) {
    forall i, j | lo <= j < i < |requests| && requests[i].key == key && j == LastFor(requests[..i], key) ::
      requests[i].now - requests[j].now < requests[j].config.window
  }

  /** No instance allows the key more than the limit. */
  ghost predicate Limited(requests: seq<Request>, key: string, lo: nat, limit: nat) {
    forall i | lo <= i < |requests| && requests[i].key == key :: requests[i].config.requests <= limit
  }

  lemma {:induction false} UnbrokenCount(requests: seq<Request>, key: string, lo: nat, limit: nat)
    requires Unbroken(requests, key, lo) && Limited(requests, key, lo, limit)
    ensures Admitted(requests, key, lo) <= limit
    ensures var i := LastFor(requests, key);
            if i < lo then Admitted(requests, key, lo) == 0 else Admitted(requests, key, lo) <= Position(requests, i)
  {
    hide Position, LastAdmitted, Unbroken;
    if |requests| > lo {
      var n := |requests| - 1;
      UnbrokenPrefix(requests, key, lo);
      UnbrokenCount(requests[..n], key, lo, limit);
      var i := LastFor(requests[..n], key);
      if i != -1 {
        PositionInPrefix(requests, n, i);
      }
      if requests[n].key == key {
        AdmittedByPosition(requests);
        PositionGrows(requests, key, lo);
      }
    }
  }

  lemma UnbrokenPrefix(requests: seq<Request>, key: string, lo: nat)
    requires Unbroken(requests, key, lo) && requests != []
    ensures Unbroken(requests[..|requests| - 1], key, lo)
  {
    var before := requests[..|requests| - 1];
    assert forall i | 0 <= i < |before| :: before[..i] == requests[..i];
  }

  lemma PositionGrows(requests: seq<Request>, key: string, lo: nat)
    requires Unbroken(requests, key, lo) && |requests| > lo && requests[|requests| - 1].key == key
    ensures var n, i := |requests| - 1, LastFor(requests[..|requests| - 1], key);
            Position(requests, n) >= (if i < lo then 1 else Position(requests, i) + 1)
  {
  }

  /** Traffic without a pause of a whole window is admitted up to the limit in all, however long it lasts. */
  lemma SustainedTrafficIsCapped(requests: seq<Request>, key: string, lo: nat, limit: nat)
    requires Unbroken(requests, key, lo) && Limited(requests, key, lo, limit)
    ensures Admitted(requests, key, lo) <= limit
  {
    UnbrokenCount(requests, key, lo, limit);
  }

  /** Any half-open window, no longer than that of any instance, admits at most as many requests of a
      key as the most generous instance allows, over all instances together. */
  lemma WindowBound(requests: seq<Request>, key: string, lo: nat, limit: nat, s: int, window: nat)
    requires forall i | lo <= i < |requests| :: s <= requests[i].now < s + window <= s + requests[i].config.window
    requires Limited(requests, key, lo, limit)
    ensures Admitted(requests, key, lo) <= limit
  {
    UnbrokenCount(requests, key, lo, limit);
  }
}
