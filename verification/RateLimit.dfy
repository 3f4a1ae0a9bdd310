/** The in-memory sliding-window rate limiter. Times are milliseconds. */
module RateLimit {
  type Requests = map<string, seq<nat>>

  datatype Config = Config(maxRequests: nat, window: nat)

  // ---------- The in-memory limiter ----------

  /** Elapsed time, zero for a reading that lies in the future. */
  function Elapsed(now: nat, t: nat): nat { if now >= t then now - t else 0 }

  /** The timestamps still inside the window. */
  function Live(c: Config, ts: seq<nat>, now: nat): seq<nat> {
    if ts == [] then []
    else
      var n := |ts| - 1;
      if Elapsed(now, ts[n]) < c.window then Live(c, ts[..n], now) + [ts[n]] else Live(c, ts[..n], now)
  }

  function At(r: Requests, key: string): seq<nat> { if key in r then r[key] else [] }

  function Pruned(c: Config, r: Requests, key: string, now: nat): Requests {
    if key !in r then r
    else if Live(c, r[key], now) == [] then r - {key}
    else r[key := Live(c, r[key], now)]
  }

  function Allows(c: Config, r: Requests, key: string, now: nat): bool { |Live(c, At(r, key), now)| < c.maxRequests }

  function Checked(c: Config, r: Requests, key: string, now: nat): Requests {
    var live := Live(c, At(r, key), now);
    Pruned(c, r, key, now)[key := if Allows(c, r, key, now) then live + [now] else live]
  }

  function Cleaned(c: Config, r: Requests, now: nat): Requests {
    map k | k in r && Live(c, r[k], now) != [] :: Live(c, r[k], now)
  }

  class InMemoryRateLimiter {
    var requests: Requests
    const config: Config

    constructor (config: Config)
      ensures requests == map[] && this.config == config
    {
      this.config := config;
      requests := map[];
    }

    method Check(key: string, now: nat) returns (allowed: bool)
      modifies this
      ensures allowed == Allows(config, old(requests), key, now)
      ensures requests == Checked(config, old(requests), key, now)
    {
      if key in requests {
        var live := Retain(config, requests[key], now);
        requests := requests[key := live];
        if live == [] {
          requests := requests - {key};
        }
      }
      if key !in requests {
        requests := requests[key := []];
      }
      if |requests[key]| >= config.maxRequests {
        return false;
      }
      requests := requests[key := requests[key] + [now]];
      allowed := true;
    }

    /** Prunes every key and drops those left empty: no check from now on can tell. */
    method Cleanup(now: nat)
      modifies this
      ensures requests == Cleaned(config, old(requests), now)
      ensures forall key, later: nat :: now <= later ==>
                Live(config, At(requests, key), later) == Live(config, At(old(requests), key), later)
    {
      var keys := requests.Keys;
      while keys != {}
        invariant keys <= requests.Keys <= old(requests).Keys
        invariant forall k :: k in keys ==> requests[k] == old(requests)[k]
        invariant forall k :: k in old(requests) && k !in keys ==>
                    (k in requests <==> Live(config, old(requests)[k], now) != [])
        invariant forall k :: k in requests && k !in keys ==> requests[k] == Live(config, old(requests)[k], now)
      {
        var k :| k in keys;
        keys := keys - {k};
        var live := Retain(config, requests[k], now);
        if live == [] {
          requests := requests - {k};
        } else {
          requests := requests[k := live];
        }
      }
      forall key, later: nat | now <= later
        ensures Live(config, At(requests, key), later) == Live(config, At(old(requests), key), later)
      {
        LiveTwice(config, At(old(requests), key), now, later);
      }
    }
  }

  /** `retain` on one key's timestamps. */
  method Retain(c: Config, ts: seq<nat>, now: nat) returns (live: seq<nat>)
    ensures live == Live(c, ts, now)
  {
    live := [];
    for i := 0 to |ts|
      invariant live == Live(c, ts[..i], now)
    {
      assert ts[..i + 1] == ts[..i] + [ts[i]];
      LiveSnoc(c, ts[..i], ts[i], now);
      if Elapsed(now, ts[i]) < c.window {
        live := live + [ts[i]];
      }
    }
    assert ts[..|ts|] == ts;
  }

  // ---------- Runs ----------

  datatype Event = Check(key: string, now: nat) | Cleanup(now: nat)

  function After(c: Config, es: seq<Event>): Requests {
    if es == [] then map[]
    else
      var r, e := After(c, es[..|es| - 1]), es[|es| - 1];
      match e case Check(k, t) => Checked(c, r, k, t) case Cleanup(t) => Cleaned(c, r, t)
  }

  /** The answers given to the checks, in order. */
  function Answers(c: Config, es: seq<Event>): seq<bool> {
    if es == [] then []
    else
      var front, e := es[..|es| - 1], es[|es| - 1];
      if e.Check? then Answers(c, front) + [Allows(c, After(c, front), e.key, e.now)] else Answers(c, front)
  }

  /** The times at which checks of `key` were accepted. */
  function Accepts(c: Config, es: seq<Event>, key: string): seq<nat> {
    if es == [] then []
    else
      var front, e := es[..|es| - 1], es[|es| - 1];
      if e.Check? && e.key == key && Allows(c, After(c, front), key, e.now) then Accepts(c, front, key) + [e.now]
      else Accepts(c, front, key)
  }

  predicate Nondecreasing(es: seq<Event>) { forall i, j :: 0 <= i < j < |es| ==> es[i].now <= es[j].now }

  function Clock(es: seq<Event>): nat { if es == [] then 0 else es[|es| - 1].now }

  lemma LiveSnoc(c: Config, ts: seq<nat>, t: nat, now: nat)
    ensures Live(c, ts + [t], now) == if Elapsed(now, t) < c.window then Live(c, ts, now) + [t] else Live(c, ts, now)
  {
    assert (ts + [t])[..|ts|] == ts;
  }

  /** What one reading drops, a later one would have dropped. */
  lemma {:induction false} LiveTwice(c: Config, ts: seq<nat>, p: nat, now: nat)
    requires p <= now
    ensures Live(c, Live(c, ts, p), now) == Live(c, ts, now)
  {
    if ts != [] {
      var n := |ts| - 1;
      LiveTwice(c, ts[..n], p, now);
      if Elapsed(p, ts[n]) < c.window { LiveSnoc(c, Live(c, ts[..n], p), ts[n], now); }
    }
  }

  /** At any reading from the clock on, the map and the full history of accepts agree. */
  lemma {:induction false} HistoryKept(c: Config, es: seq<Event>, key: string, now: nat)
    requires Nondecreasing(es) && Clock(es) <= now
    ensures Live(c, At(After(c, es), key), now) == Live(c, Accepts(c, es, key), now)
  {
    if es != [] {
      var front, e := es[..|es| - 1], es[|es| - 1];
      var r := After(c, front);
      assert front != [] ==> front[|front| - 1] == es[|es| - 2];
      HistoryKept(c, front, key, now);
      HistoryKept(c, front, key, e.now);
      LiveTwice(c, At(r, key), e.now, now);
      if e.Check? && e.key == key {
        LiveSnoc(c, Live(c, At(r, key), e.now), e.now, now);
        LiveSnoc(c, Accepts(c, front, key), e.now, now);
      }
    }
  }

  /** A check is accepted exactly when fewer than the limit of earlier accepts lie in the window. */
  lemma AcceptIff(c: Config, es: seq<Event>, key: string, now: nat)
    requires Nondecreasing(es) && Clock(es) <= now
    ensures Allows(c, After(c, es), key, now) <==> |Live(c, Accepts(c, es, key), now)| < c.maxRequests
  {
    HistoryKept(c, es, key, now);
  }

  lemma {:induction false} AcceptsBefore(c: Config, es: seq<Event>, key: string)
    requires Nondecreasing(es)
    ensures forall t :: t in Accepts(c, es, key) ==> t <= Clock(es)
  {
    if es != [] {
      var front := es[..|es| - 1];
      AcceptsBefore(c, front, key);
      assert front != [] ==> es[|es| - 2].now <= es[|es| - 1].now;
    }
  }

  function Checks(es: seq<Event>): seq<Event> {
    if es == [] then []
    else if es[|es| - 1].Check? then Checks(es[..|es| - 1]) + [es[|es| - 1]]
    else Checks(es[..|es| - 1])
  }

  lemma {:induction false} ChecksNondecreasing(es: seq<Event>)
    requires Nondecreasing(es)
    ensures Nondecreasing(Checks(es)) && Clock(Checks(es)) <= Clock(es)
    ensures forall e :: e in Checks(es) ==> e.now <= Clock(es)
  {
    if es != [] {
      var front := es[..|es| - 1];
      ChecksNondecreasing(front);
      assert front != [] ==> es[|es| - 2].now <= es[|es| - 1].now;
    }
  }

  /** Cleanups, wherever they run, change no answer. */
  lemma {:induction false} CleanupInvisible(c: Config, es: seq<Event>)
    requires Nondecreasing(es)
    ensures Answers(c, es) == Answers(c, Checks(es))
    ensures forall key :: Accepts(c, es, key) == Accepts(c, Checks(es), key)
  {
    if es != [] {
      var front, e := es[..|es| - 1], es[|es| - 1];
      CleanupInvisible(c, front);
      if e.Check? {
        var checks := Checks(front);
        assert (checks + [e])[..|checks|] == checks;
        ChecksNondecreasing(front);
        assert front != [] ==> es[|es| - 2].now <= e.now;
        AcceptIff(c, front, e.key, e.now);
        AcceptIff(c, checks, e.key, e.now);
        forall key ensures Accepts(c, es, key) == Accepts(c, Checks(es), key) {}
      }
    }
  }
}
