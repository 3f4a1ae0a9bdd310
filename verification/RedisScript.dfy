/** The Redis script that replaces the in-memory limiter: a sorted set per key that the server expires
    by its own clock. */
module RedisScript {
  import opened RateLimit

  /** One key: sorted-set members (score and sequence number), the counter, and when both expire by
      the server's own clock. */
  datatype Entry = Entry(members: set<(nat, nat)>, counter: nat, expireAt: nat)

  type Redis = map<string, Entry>

  /** `math.ceil(window / 1000)` seconds. */
  function Ttl(c: Config): (ms: nat)
    ensures ms % 1000 == 0 && c.window <= ms < c.window + 1000
  {
    (c.window + 999) / 1000 * 1000
  }

  function Alive(r: Redis, key: string, server: nat): Entry {
    if key in r && server < r[key].expireAt then r[key] else Entry({}, 0, 0)
  }

  /** Members left by `ZREMRANGEBYSCORE key 0 (now - window)`. */
  function InWindow(c: Config, members: set<(nat, nat)>, now: nat): set<(nat, nat)> {
    set m | m in members && !(m.0 + c.window <= now)
  }

  /** `now` is the timestamp passed to the script, `server` the server's clock when it executes. */
  function ScriptAllows(c: Config, r: Redis, key: string, now: nat, server: nat): bool {
    |InWindow(c, Alive(r, key, server).members, now)| < c.maxRequests
  }

  function Scripted(c: Config, r: Redis, key: string, now: nat, server: nat): Redis {
    var e := Alive(r, key, server);
    var kept := InWindow(c, e.members, now);
    if ScriptAllows(c, r, key, now, server) then
      r[key := Entry(kept + {(now, e.counter + 1)}, e.counter + 1, server + Ttl(c))]
    else r[key := e.(members := kept)]
  }

  /** `server[i]` is the server's clock at event `i`. */
  function AfterScripts(c: Config, es: seq<Event>, server: seq<nat>): Redis
    requires |server| == |es|
  {
    if es == [] then map[]
    else
      var n := |es| - 1;
      var r := AfterScripts(c, es[..n], server[..n]);
      if es[n].Check? then Scripted(c, r, es[n].key, es[n].now, server[n]) else r
  }

  function ScriptAnswers(c: Config, es: seq<Event>, server: seq<nat>): seq<bool>
    requires |server| == |es|
  {
    if es == [] then []
    else
      var n := |es| - 1;
      var front := ScriptAnswers(c, es[..n], server[..n]);
      var r := AfterScripts(c, es[..n], server[..n]);
      if es[n].Check? then front + [ScriptAllows(c, r, es[n].key, es[n].now, server[n])]
      else front
  }

  // ---------- When the script and the limiter agree ----------

  /** A key that the server has expired since one event has nothing left in the window at the other. */
  predicate ExpiresInTime(c: Config, times: seq<nat>, server: seq<nat>)
    requires |server| == |times|
  {
    forall i, j :: 0 <= i < j < |times| && server[j] >= server[i] + Ttl(c) ==> times[j] >= times[i] + c.window
  }

  function TimesOf(es: seq<Event>): seq<nat> { seq(|es|, i requires 0 <= i < |es| => es[i].now) }

  /** A key's expiry was set at some event, and no member is later than it. */
  predicate SetAt(c: Config, e: Entry, times: seq<nat>, server: seq<nat>, i: nat)
    requires |server| == |times|
  {
    i < |times| && e.expireAt == server[i] + Ttl(c) && forall m :: m in e.members ==> m.0 <= times[i]
  }

  predicate EntrySound(c: Config, e: Entry, times: seq<nat>, server: seq<nat>)
    requires |server| == |times|
  {
    && (forall m :: m in e.members ==> m.1 <= e.counter)
    && (e.members != {} ==> exists i :: 0 <= i < |times| && SetAt(c, e, times, server, i))
  }

  predicate Sound(c: Config, r: Redis, times: seq<nat>, server: seq<nat>)
    requires |server| == |times|
  {
    forall k :: k in r ==> EntrySound(c, r[k], times, server)
  }

  function Members(r: Redis, key: string): set<(nat, nat)> { if key in r then r[key].members else {} }

  /** From `clock` on the set, expired or not, has as many members in the window as the history has
      live accepts. */
  ghost predicate Matches(c: Config, r: Redis, history: seq<nat>, key: string, clock: nat) {
    forall now: nat {:trigger Live(c, history, now)} :: clock <= now ==>
      |InWindow(c, Members(r, key), now)| == |Live(c, history, now)|
  }

  lemma InWindowTwice(c: Config, members: set<(nat, nat)>, p: nat, now: nat)
    requires p <= now
    ensures InWindow(c, InWindow(c, members, p), now) == InWindow(c, members, now)
  {
  }

  lemma InWindowAdd(c: Config, members: set<(nat, nat)>, m: (nat, nat), now: nat)
    requires m !in members
    ensures |InWindow(c, members + {m}, now)| == |InWindow(c, members, now)| + if m.0 + c.window <= now then 0 else 1
  {
    var kept, more := InWindow(c, members, now), InWindow(c, members + {m}, now);
    assert more == if m.0 + c.window <= now then kept else kept + {m};
  }

  /** What the server has expired would have been pruned anyway. */
  lemma ExpiredIsStale(c: Config, r: Redis, key: string, times: seq<nat>, server: seq<nat>, now: nat, at: nat)
    requires |server| == |times| && Sound(c, r, times, server) && ExpiresInTime(c, times + [now], server + [at])
    ensures InWindow(c, Alive(r, key, at).members, now) == InWindow(c, Members(r, key), now)
  {
    if key in r && at >= r[key].expireAt && r[key].members != {} {
      assert EntrySound(c, r[key], times, server);
      var i :| 0 <= i < |times| && SetAt(c, r[key], times, server, i);
      var n := |times|;
      assert (server + [at])[n] >= (server + [at])[i] + Ttl(c);
      assert (times + [now])[n] >= (times + [now])[i] + c.window;
    }
  }

  lemma StepMatches(c: Config, r: Redis, history: seq<nat>, key: string, clock: nat, now: nat, at: nat)
    requires clock <= now && Matches(c, r, history, key, clock)
    requires InWindow(c, Alive(r, key, at).members, now) == InWindow(c, Members(r, key), now)
    requires forall m :: m in Alive(r, key, at).members ==> m.1 <= Alive(r, key, at).counter
    ensures Matches(c, Scripted(c, r, key, now, at),
                    if ScriptAllows(c, r, key, now, at) then history + [now] else history, key, now)
  {
    var r', e := Scripted(c, r, key, now, at), Alive(r, key, at);
    var kept, accepted := InWindow(c, e.members, now), ScriptAllows(c, r, key, now, at);
    forall later: nat | now <= later
      ensures |InWindow(c, Members(r', key), later)| == |Live(c, if accepted then history + [now] else history, later)|
    {
      InWindowTwice(c, Members(r, key), now, later);
      assert |InWindow(c, kept, later)| == |Live(c, history, later)|;
      if accepted {
        InWindowAdd(c, kept, (now, e.counter + 1), later);
        LiveSnoc(c, history, now, later);
      }
    }
  }

  lemma SetAtLater(c: Config, e: Entry, times: seq<nat>, server: seq<nat>, now: nat, at: nat)
    requires |server| == |times| && EntrySound(c, e, times, server)
    ensures EntrySound(c, e, times + [now], server + [at])
  {
    if e.members != {} {
      var i :| 0 <= i < |times| && SetAt(c, e, times, server, i);
      assert SetAt(c, e, times + [now], server + [at], i);
    }
  }

  lemma StepSound(c: Config, r: Redis, key: string, times: seq<nat>, server: seq<nat>, now: nat, at: nat)
    requires |server| == |times| && Sound(c, r, times, server) && forall i :: 0 <= i < |times| ==> times[i] <= now
    ensures Sound(c, Scripted(c, r, key, now, at), times + [now], server + [at])
  {
    var r', e := Scripted(c, r, key, now, at), Alive(r, key, at);
    forall k | k in r' ensures EntrySound(c, r'[k], times + [now], server + [at]) {
      if k != key {
        SetAtLater(c, r[k], times, server, now, at);
      } else if ScriptAllows(c, r, key, now, at) {
        AcceptedSound(c, e, times, server, now, at);
      } else if InWindow(c, e.members, now) != {} {
        RefusedSound(c, e, times, server, now, at);
      }
    }
  }

  lemma AcceptedSound(c: Config, e: Entry, times: seq<nat>, server: seq<nat>, now: nat, at: nat)
    requires |server| == |times| && EntrySound(c, e, times, server) && forall i :: 0 <= i < |times| ==> times[i] <= now
    ensures EntrySound(c, Entry(InWindow(c, e.members, now) + {(now, e.counter + 1)}, e.counter + 1, at + Ttl(c)),
                       times + [now], server + [at])
  {
    var e' := Entry(InWindow(c, e.members, now) + {(now, e.counter + 1)}, e.counter + 1, at + Ttl(c));
    assert SetAt(c, e', times + [now], server + [at], |times|);
  }

  lemma RefusedSound(c: Config, e: Entry, times: seq<nat>, server: seq<nat>, now: nat, at: nat)
    requires |server| == |times| && EntrySound(c, e, times, server) && e.members != {}
    ensures EntrySound(c, e.(members := InWindow(c, e.members, now)), times + [now], server + [at])
  {
    var i :| 0 <= i < |times| && SetAt(c, e, times, server, i);
    assert SetAt(c, e.(members := InWindow(c, e.members, now)), times + [now], server + [at], i);
  }

  lemma MatchesLater(c: Config, r: Redis, history: seq<nat>, key: string, clock: nat, clock': nat)
    requires Matches(c, r, history, key, clock) && clock <= clock'
    ensures Matches(c, r, history, key, clock')
  {
  }

  /** One check: the script answers as the limiter does, and every key keeps matching its history. */
  lemma CheckStep(c: Config, r: Redis, es: seq<Event>, server: seq<nat>)
    requires es != [] && |server| == |es| && es[|es| - 1].Check?
    requires var n := |es| - 1; var front, e := es[..n], es[n];
             && Nondecreasing(front) && Clock(front) <= e.now && (forall i :: 0 <= i < n ==> es[i].now <= e.now)
             && Sound(c, r, TimesOf(front), server[..n])
             && ExpiresInTime(c, TimesOf(front) + [e.now], server[..n] + [server[n]])
             && forall key :: Matches(c, r, Accepts(c, front, key), key, Clock(front))
    ensures var n := |es| - 1; var front, e, r' := es[..n], es[n], Scripted(c, r, es[n].key, es[n].now, server[n]);
            && ScriptAllows(c, r, e.key, e.now, server[n]) == Allows(c, After(c, front), e.key, e.now)
            && Sound(c, r', TimesOf(front) + [e.now], server[..n] + [server[n]])
            && forall key :: Matches(c, r', Accepts(c, es, key), key, e.now)
  {
    var n := |es| - 1;
    var front, e := es[..n], es[n];
    ExpiredIsStale(c, r, e.key, TimesOf(front), server[..n], e.now, server[n]);
    AcceptIff(c, front, e.key, e.now);
    assert Matches(c, r, Accepts(c, front, e.key), e.key, Clock(front));
    assert |InWindow(c, Members(r, e.key), e.now)| == |Live(c, Accepts(c, front, e.key), e.now)|;
    assert e.key in r ==> EntrySound(c, r[e.key], TimesOf(front), server[..n]);
    StepSound(c, r, e.key, TimesOf(front), server[..n], e.now, server[n]);
    StepMatches(c, r, Accepts(c, front, e.key), e.key, Clock(front), e.now, server[n]);
    forall key ensures Matches(c, Scripted(c, r, e.key, e.now, server[n]), Accepts(c, es, key), key, e.now) {
      if key != e.key { OtherKey(c, r, e, server[n], Accepts(c, front, key), key, Clock(front)); }
    }
  }

  lemma OtherKey(c: Config, r: Redis, e: Event, at: nat, history: seq<nat>, key: string, clock: nat)
    requires e.Check? && key != e.key && clock <= e.now && Matches(c, r, history, key, clock)
    ensures Matches(c, Scripted(c, r, e.key, e.now, at), history, key, e.now)
  {
    assert Members(Scripted(c, r, e.key, e.now, at), key) == Members(r, key);
  }

  lemma CleanupSound(c: Config, r: Redis, times: seq<nat>, server: seq<nat>, now: nat, at: nat)
    requires |server| == |times| && Sound(c, r, times, server)
    ensures Sound(c, r, times + [now], server + [at])
  {
    forall k | k in r ensures EntrySound(c, r[k], times + [now], server + [at]) {
      SetAtLater(c, r[k], times, server, now, at);
    }
  }

  lemma Fronts(c: Config, es: seq<Event>, server: seq<nat>)
    requires es != [] && |server| == |es| && Nondecreasing(es) && ExpiresInTime(c, TimesOf(es), server)
    ensures var n := |es| - 1; var front := es[..n];
            && TimesOf(es) == TimesOf(front) + [es[n].now] && server == server[..n] + [server[n]]
            && Nondecreasing(front) && Clock(front) <= es[n].now && (forall i :: 0 <= i < n ==> es[i].now <= es[n].now)
            && ExpiresInTime(c, TimesOf(front), server[..n])
  {
    var n := |es| - 1;
    var front := es[..n];
    forall i, j | 0 <= i < j < n && server[..n][j] >= server[..n][i] + Ttl(c)
      ensures TimesOf(front)[j] >= TimesOf(front)[i] + c.window
    {
      assert TimesOf(es)[j] >= TimesOf(es)[i] + c.window;
    }
  }

  lemma {:induction false} ScriptHistory(c: Config, es: seq<Event>, server: seq<nat>)
    requires |server| == |es| && Nondecreasing(es) && ExpiresInTime(c, TimesOf(es), server)
    ensures Sound(c, AfterScripts(c, es, server), TimesOf(es), server)
    ensures forall key :: Matches(c, AfterScripts(c, es, server), Accepts(c, es, key), key, Clock(es))
    ensures ScriptAnswers(c, es, server) == Answers(c, es)
  {
    if es == [] {
      forall now: nat ensures InWindow(c, {}, now) == {} {}
    } else {
      var n := |es| - 1;
      var front, e := es[..n], es[n];
      Fronts(c, es, server);
      ScriptHistory(c, front, server[..n]);
      var r := AfterScripts(c, front, server[..n]);
      if e.Check? {
        CheckStep(c, r, es, server);
      } else {
        CleanupSound(c, r, TimesOf(front), server[..n], e.now, server[n]);
        forall key ensures Matches(c, r, Accepts(c, es, key), key, e.now) {
          MatchesLater(c, r, Accepts(c, front, key), key, Clock(front), e.now);
        }
      }
    }
  }

  // ---------- Two checks that tell them apart ----------

  ghost predicate Sorted(times: seq<nat>) { forall i, j :: 0 <= i < j < |times| ==> times[i] <= times[j] }

  /** Checks of one key at events `i` and `j`, cleanups everywhere else. */
  function EventAt(times: seq<nat>, i: nat, j: nat, m: nat): Event
    requires m < |times|
  {
    if m == i || m == j then Check("k", times[m]) else Cleanup(times[m])
  }

  predicate IsPair(es: seq<Event>, times: seq<nat>, i: nat, j: nat) {
    |es| <= |times| && forall m :: 0 <= m < |es| ==> es[m] == EventAt(times, i, j, m)
  }

  lemma CleanupSnoc(c: Config, es: seq<Event>, server: seq<nat>, t: nat, at: nat)
    requires |server| == |es|
    ensures var more, s := es + [Cleanup(t)], server + [at];
            && Accepts(c, more, "k") == Accepts(c, es, "k") && Answers(c, more) == Answers(c, es)
            && AfterScripts(c, more, s) == AfterScripts(c, es, server)
            && ScriptAnswers(c, more, s) == ScriptAnswers(c, es, server)
  {
    assert (es + [Cleanup(t)])[..|es|] == es && (server + [at])[..|es|] == server;
  }

  lemma CheckSnoc(c: Config, es: seq<Event>, server: seq<nat>, t: nat, at: nat)
    requires |server| == |es|
    ensures var more, s, r := es + [Check("k", t)], server + [at], AfterScripts(c, es, server);
            && Accepts(c, more, "k") ==
                 (if Allows(c, After(c, es), "k", t) then Accepts(c, es, "k") + [t] else Accepts(c, es, "k"))
            && Answers(c, more) == Answers(c, es) + [Allows(c, After(c, es), "k", t)]
            && AfterScripts(c, more, s) == Scripted(c, r, "k", t, at)
            && ScriptAnswers(c, more, s) == ScriptAnswers(c, es, server) + [ScriptAllows(c, r, "k", t, at)]
  {
    assert (es + [Check("k", t)])[..|es|] == es && (server + [at])[..|es|] == server;
  }

  lemma PairSnoc(es: seq<Event>, s: seq<nat>, times: seq<nat>, server: seq<nat>, i: nat, j: nat)
    requires IsPair(es, times, i, j) && |es| < |times| == |server| && s == server[..|es|]
    ensures IsPair(es + [EventAt(times, i, j, |es|)], times, i, j) && s + [server[|es|]] == server[..|es| + 1]
  {
  }

  lemma PairOrdered(es: seq<Event>, times: seq<nat>, i: nat, j: nat)
    requires Sorted(times) && IsPair(es, times, i, j)
    ensures Nondecreasing(es) && (es != [] ==> Clock(es) == times[|es| - 1])
  {
  }

  /** Both limiters before the first check. */
  predicate Untouched(c: Config, es: seq<Event>, s: seq<nat>)
    requires |s| == |es|
  {
    && Accepts(c, es, "k") == [] && Answers(c, es) == []
    && AfterScripts(c, es, s) == map[] && ScriptAnswers(c, es, s) == []
  }

  /** Both limiters with one accept, at timestamp `t` and server time `at`. */
  predicate OneAccept(c: Config, es: seq<Event>, s: seq<nat>, t: nat, at: nat)
    requires |s| == |es|
  {
    && Accepts(c, es, "k") == [t] && Answers(c, es) == [true] && ScriptAnswers(c, es, s) == [true]
    && AfterScripts(c, es, s) == map["k" := Entry({(t, 1)}, 1, at + Ttl(c))]
  }

  lemma FirstCheck(c: Config, es: seq<Event>, s: seq<nat>, t: nat, at: nat)
    requires c.maxRequests == 1 && |s| == |es| && Nondecreasing(es) && Clock(es) <= t && Untouched(c, es, s)
    ensures OneAccept(c, es + [Check("k", t)], s + [at], t, at)
  {
    AcceptIff(c, es, "k", t);
    CheckSnoc(c, es, s, t, at);
    assert InWindow(c, {}, t) == {} && {} + {(t, 1)} == {(t, 1)};
    assert [] + [t] == [t] && [] + [true] == [true];
  }

  /** The limiter still counts the accept, the server has forgotten it. */
  lemma SecondCheck(c: Config, es: seq<Event>, s: seq<nat>, t: nat, at: nat, t': nat, at': nat)
    requires c.maxRequests == 1 && |s| == |es| && Nondecreasing(es) && Clock(es) <= t' && OneAccept(c, es, s, t, at)
    requires t <= t' < t + c.window && at' >= at + Ttl(c)
    ensures Answers(c, es + [Check("k", t')]) == [true] + [false]
    ensures ScriptAnswers(c, es + [Check("k", t')], s + [at']) == [true] + [true]
  {
    AcceptIff(c, es, "k", t');
    OneLive(c, t, t');
    CheckSnoc(c, es, s, t', at');
    assert InWindow(c, {}, t') == {};
  }

  lemma OneLive(c: Config, t: nat, now: nat)
    requires t <= now < t + c.window
    ensures Live(c, [t], now) == [t]
  {
    LiveSnoc(c, [], t, now);
    assert [] + [t] == [t];
  }

  lemma {:induction false} QuietRun(c: Config, times: seq<nat>, server: seq<nat>, i: nat, j: nat, n: nat)
    returns (es: seq<Event>, s: seq<nat>)
    requires n <= i < j < |times| && |server| == |times|
    ensures |es| == n && IsPair(es, times, i, j) && s == server[..n] && Untouched(c, es, s)
  {
    if n == 0 {
      es, s := [], [];
    } else {
      var es', s' := QuietRun(c, times, server, i, j, n - 1);
      CleanupSnoc(c, es', s', times[n - 1], server[n - 1]);
      PairSnoc(es', s', times, server, i, j);
      es, s := es' + [Cleanup(times[n - 1])], s' + [server[n - 1]];
    }
  }

  lemma {:induction false} OneAcceptRun(c: Config, times: seq<nat>, server: seq<nat>, i: nat, j: nat, n: nat)
    returns (es: seq<Event>, s: seq<nat>)
    requires c.maxRequests == 1 && i < n <= j < |times| && |server| == |times| && Sorted(times)
    ensures |es| == n && IsPair(es, times, i, j) && s == server[..n] && OneAccept(c, es, s, times[i], server[i])
  {
    if n == i + 1 {
      es, s := FirstCheckRun(c, times, server, i, j);
    } else {
      var es', s' := OneAcceptRun(c, times, server, i, j, n - 1);
      CleanupKeepsOne(c, es', s', times[i], server[i], times[n - 1], server[n - 1]);
      PairSnoc(es', s', times, server, i, j);
      es, s := es' + [Cleanup(times[n - 1])], s' + [server[n - 1]];
    }
  }

  lemma CleanupKeepsOne(c: Config, es: seq<Event>, s: seq<nat>, t: nat, at: nat, t': nat, at': nat)
    requires |s| == |es| && OneAccept(c, es, s, t, at)
    ensures OneAccept(c, es + [Cleanup(t')], s + [at'], t, at)
  {
    CleanupSnoc(c, es, s, t', at');
  }

  lemma FirstCheckRun(c: Config, times: seq<nat>, server: seq<nat>, i: nat, j: nat)
    returns (es: seq<Event>, s: seq<nat>)
    requires c.maxRequests == 1 && i < j < |times| && |server| == |times| && Sorted(times)
    ensures |es| == i + 1 && IsPair(es, times, i, j) && s == server[..i + 1] && OneAccept(c, es, s, times[i], server[i])
  {
    var es', s' := QuietRun(c, times, server, i, j, i);
    PairOrdered(es', times, i, j);
    assert i > 0 ==> times[i - 1] <= times[i];
    FirstCheck(c, es', s', times[i], server[i]);
    PairSnoc(es', s', times, server, i, j);
    es, s := es' + [Check("k", times[i])], s' + [server[i]];
  }

  lemma {:induction false} DifferingRun(c: Config, times: seq<nat>, server: seq<nat>, i: nat, j: nat, n: nat)
    returns (es: seq<Event>, s: seq<nat>)
    requires c.maxRequests == 1 && i < j < n <= |times| && |server| == |times| && Sorted(times)
    requires server[j] >= server[i] + Ttl(c) && times[j] < times[i] + c.window
    ensures |es| == n && IsPair(es, times, i, j) && s == server[..n]
    ensures Answers(c, es) == [true] + [false] && ScriptAnswers(c, es, s) == [true] + [true]
  {
    if n == j + 1 {
      var es', s' := OneAcceptRun(c, times, server, i, j, j);
      PairOrdered(es', times, i, j);
      assert times[i] <= times[j] && times[j - 1] <= times[j];
      SecondCheck(c, es', s', times[i], server[i], times[j], server[j]);
      PairSnoc(es', s', times, server, i, j);
      es, s := es' + [Check("k", times[j])], s' + [server[j]];
    } else {
      var es', s' := DifferingRun(c, times, server, i, j, n - 1);
      CleanupSnoc(c, es', s', times[n - 1], server[n - 1]);
      PairSnoc(es', s', times, server, i, j);
      es, s := es' + [Cleanup(times[n - 1])], s' + [server[n - 1]];
    }
  }

  /** An expiry inside the window: limit one and two checks of one key tell the limiters apart. */
  lemma ExpiryShows(c: Config, times: seq<nat>, server: seq<nat>, i: nat, j: nat) returns (es: seq<Event>)
    requires c.maxRequests == 1 && i < j < |times| && |server| == |times| && Sorted(times)
    requires server[j] >= server[i] + Ttl(c) && times[j] < times[i] + c.window
    ensures |es| == |times| && TimesOf(es) == times && !SameAnswers(c, es, server)
  {
    var s;
    es, s := DifferingRun(c, times, server, i, j, |times|);
    assert s == server && ([true] + [false])[1] != ([true] + [true])[1];
  }

  predicate SameAnswers(c: Config, es: seq<Event>, server: seq<nat>)
    requires |server| == |es|
  {
    ScriptAnswers(c, es, server) == Answers(c, es)
  }

  /** For every limit and every assignment of checks, keys and cleanups to these events. */
  ghost predicate AlwaysSame(window: nat, times: seq<nat>, server: seq<nat>)
    requires |server| == |times|
  {
    forall limit: nat, es: seq<Event> :: |es| == |times| && TimesOf(es) == times ==>
        SameAnswers(Config(limit, window), es, server)
  }

  lemma SameInTime(c: Config, es: seq<Event>, times: seq<nat>, server: seq<nat>)
    requires |server| == |times| == |es| && TimesOf(es) == times && Sorted(times)
    requires ExpiresInTime(Config(0, c.window), times, server)
    ensures SameAnswers(c, es, server)
  {
    assert forall m :: 0 <= m < |es| ==> es[m].now == TimesOf(es)[m] == times[m];
    assert Ttl(c) == Ttl(Config(0, c.window));
    ScriptHistory(c, es, server);
  }

  lemma TooEarly(c: Config, times: seq<nat>, server: seq<nat>) returns (i: nat, j: nat)
    requires |server| == |times| && !ExpiresInTime(Config(0, c.window), times, server)
    ensures i < j < |times| && server[j] >= server[i] + Ttl(c) && times[j] < times[i] + c.window
  {
    i, j :| 0 <= i < j < |times| && server[j] >= server[i] + Ttl(c) && times[j] < times[i] + c.window;
  }

  /** For given timestamps in order and given readings of the server's clock, the script and the
      in-memory limiter always answer alike exactly when no key expires while its window lasts. */
  lemma SameDecisionsIff(window: nat, times: seq<nat>, server: seq<nat>)
    requires |server| == |times| && Sorted(times)
    ensures AlwaysSame(window, times, server) <==> ExpiresInTime(Config(0, window), times, server)
  {
    if ExpiresInTime(Config(0, window), times, server) {
      forall limit: nat, es: seq<Event> | |es| == |times| && TimesOf(es) == times
        ensures SameAnswers(Config(limit, window), es, server)
      {
        SameInTime(Config(limit, window), es, times, server);
      }
    } else {
      var c := Config(1, window);
      var i, j := TooEarly(c, times, server);
      var es := ExpiryShows(c, times, server, i, j);
    }
  }
}
