/** The rate limiter reads the clock before it takes its lock, so readings can arrive out of order.
    What the limiter still guarantees, as a function of the disorder. */
module RateDisorder {
  import opened RateLimit

  /** Timestamps in a half-open interval. */
  function Between(ts: seq<nat>, lo: nat, hi: int): seq<nat> {
    if ts == [] then []
    else
      var n := |ts| - 1;
      if lo <= ts[n] < hi then Between(ts[..n], lo, hi) + [ts[n]] else Between(ts[..n], lo, hi)
  }

  lemma BetweenSnoc(ts: seq<nat>, t: nat, lo: nat, hi: int)
    ensures Between(ts + [t], lo, hi) == if lo <= t < hi then Between(ts, lo, hi) + [t] else Between(ts, lo, hi)
  {
    assert (ts + [t])[..|ts|] == ts;
  }

  /** A reading less than a window after `lo` prunes nothing from `lo` on. */
  lemma {:induction false} BetweenLive(c: Config, ts: seq<nat>, now: nat, lo: nat, hi: int)
    requires now < lo + c.window && c.window > 0
    ensures Between(Live(c, ts, now), lo, hi) == Between(ts, lo, hi)
    ensures hi <= lo + c.window ==> |Between(ts, lo, hi)| <= |Live(c, ts, now)|
  {
    if ts != [] {
      var n := |ts| - 1;
      BetweenLive(c, ts[..n], now, lo, hi);
      if Elapsed(now, ts[n]) < c.window { BetweenSnoc(Live(c, ts[..n], now), ts[n], lo, hi); }
    }
  }

  /** While no reading has come a window after `lo`, no accept from `lo` on is forgotten. */
  lemma {:induction false} KeptSince(c: Config, es: seq<Event>, key: string, lo: nat, hi: int)
    requires c.window > 0 && forall e :: e in es ==> e.now < lo + c.window
    ensures Between(At(After(c, es), key), lo, hi) == Between(Accepts(c, es, key), lo, hi)
  {
    if es != [] {
      var front, e := es[..|es| - 1], es[|es| - 1];
      assert e in es && forall x :: x in front ==> x in es;
      KeptSince(c, front, key, lo, hi);
      var kept := At(After(c, front), key);
      BetweenLive(c, kept, e.now, lo, hi);
      BetweenSnoc(Live(c, kept, e.now), e.now, lo, hi);
      BetweenSnoc(Accepts(c, front, key), e.now, lo, hi);
    }
  }

  /** Readings arrive at most `d` out of order: the clock is read before the lock is taken. */
  predicate Skewed(d: nat, es: seq<Event>) { forall i, j :: 0 <= i < j < |es| ==> es[i].now <= es[j].now + d }

  /** An accept in the interval finds all earlier ones in it still on record. */
  lemma OneMoreAccept(c: Config, front: seq<Event>, key: string, now: nat, lo: nat, hi: int)
    requires Allows(c, After(c, front), key, now) && lo <= now < hi <= lo + c.window
    requires forall e :: e in front ==> e.now < lo + c.window
    ensures |Between(Accepts(c, front, key), lo, hi)| < c.maxRequests
  {
    KeptSince(c, front, key, lo, hi);
    BetweenLive(c, At(After(c, front), key), now, lo, hi);
  }

  lemma SkewedFront(d: nat, es: seq<Event>)
    requires Skewed(d, es) && es != []
    ensures var n := |es| - 1; Skewed(d, es[..n]) && forall x :: x in es[..n] ==> x.now <= es[n].now + d
  {
    var n := |es| - 1;
    forall x | x in es[..n] ensures x.now <= es[n].now + d {
      var i :| 0 <= i < n && es[i] == x;
    }
  }

  /** Whatever the order of the readings: if none is more than `d` behind an earlier one, no half-open
      interval of the window less `d` holds more accepts than the limit. */
  lemma {:induction false} SkewedWindowBound(c: Config, es: seq<Event>, key: string, d: nat, lo: nat)
    requires Skewed(d, es)
    ensures |Between(Accepts(c, es, key), lo, lo + c.window - d)| <= c.maxRequests
  {
    if es != [] {
      SkewedFront(d, es);
      SkewedWindowBound(c, es[..|es| - 1], key, d, lo);
      BoundKept(c, es, key, d, lo);
    }
  }

  lemma BoundKept(c: Config, es: seq<Event>, key: string, d: nat, lo: nat)
    requires es != [] && forall x :: x in es[..|es| - 1] ==> x.now <= es[|es| - 1].now + d
    requires |Between(Accepts(c, es[..|es| - 1], key), lo, lo + c.window - d)| <= c.maxRequests
    ensures |Between(Accepts(c, es, key), lo, lo + c.window - d)| <= c.maxRequests
  {
    LastInInterval(c, es[..|es| - 1], es[|es| - 1], key, lo, lo + c.window - d);
    AcceptsLast(c, es, key);
  }

  lemma LastInInterval(c: Config, front: seq<Event>, e: Event, key: string, lo: nat, hi: int)
    requires hi <= lo + c.window && |Between(Accepts(c, front, key), lo, hi)| <= c.maxRequests
    requires lo <= e.now < hi ==> forall x :: x in front ==> x.now < lo + c.window
    ensures Allows(c, After(c, front), key, e.now) ==>
              |Between(Accepts(c, front, key) + [e.now], lo, hi)| <= c.maxRequests
  {
    BetweenSnoc(Accepts(c, front, key), e.now, lo, hi);
    if Allows(c, After(c, front), key, e.now) && lo <= e.now < hi { OneMoreAccept(c, front, key, e.now, lo, hi); }
  }

  lemma AcceptsLast(c: Config, es: seq<Event>, key: string)
    requires es != []
    ensures var n := |es| - 1; var before := Accepts(c, es[..n], key);
            || Accepts(c, es, key) == before
            || (Accepts(c, es, key) == before + [es[n].now] && Allows(c, After(c, es[..n]), key, es[n].now))
  {
  }

  // ---------- A late reading ----------

  function Times(t: nat, n: nat): (ts: seq<nat>)
    ensures |ts| == n
  {
    if n == 0 then [] else Times(t, n - 1) + [t]
  }

  lemma {:induction false} LiveTimes(c: Config, t: nat, n: nat, now: nat)
    ensures Live(c, Times(t, n), now) == if Elapsed(now, t) < c.window then Times(t, n) else []
  {
    if n > 0 {
      var front := Times(t, n - 1);
      LiveTimes(c, t, n - 1, now);
      LiveSnoc(c, front, t, now);
      assert Times(t, n) == front + [t];
    }
  }

  /** How many of a burst's timestamps are on record: all, unless the window is empty. */
  function OnRecord(c: Config, n: nat): nat { if n == 0 || c.window > 0 then n else 1 }

  /** All that a run comes to, for one key. */
  datatype Log = Log(record: Requests, accepts: seq<nat>, answers: seq<bool>, checks: seq<Event>)

  const NEW := Log(map[], [], [], [])

  function Step(c: Config, key: string, l: Log, e: Event): Log {
    match e
    case Check(k, t) =>
      var ok := Allows(c, l.record, k, t);
      var accepts := if k == key && ok then l.accepts + [t] else l.accepts;
      Log(Checked(c, l.record, k, t), accepts, l.answers + [ok], l.checks + [e])
    case Cleanup(t) => l.(record := Cleaned(c, l.record, t))
  }

  predicate IsLog(c: Config, key: string, es: seq<Event>, logs: seq<Log>) {
    && |logs| == |es| + 1 && logs[0] == NEW
    && forall i :: 0 <= i < |es| ==> logs[i + 1] == Step(c, key, logs[i], es[i])
  }

  ghost predicate Logged(c: Config, key: string, es: seq<Event>, l: Log) {
    exists logs: seq<Log> :: IsLog(c, key, es, logs) && logs[|es|] == l
  }

  lemma LogStep(c: Config, key: string, es: seq<Event>, l: Log, e: Event)
    requires Logged(c, key, es, l)
    ensures Logged(c, key, es + [e], Step(c, key, l, e))
  {
    var logs: seq<Log> :| IsLog(c, key, es, logs) && logs[|es|] == l;
    assert IsLog(c, key, es + [e], logs + [Step(c, key, l, e)]);
  }

  lemma {:induction false} LogMeaning(c: Config, key: string, es: seq<Event>, logs: seq<Log>)
    requires IsLog(c, key, es, logs)
    ensures logs[|es|] == Log(After(c, es), Accepts(c, es, key), Answers(c, es), Checks(es))
  {
    if es != [] {
      var n := |es| - 1;
      assert logs[n + 1] == Step(c, key, logs[n], es[n]);
      LogMeaning(c, key, es[..n], logs[..n + 1]);
    }
  }

  lemma LoggedMeaning(c: Config, key: string, es: seq<Event>, l: Log)
    requires Logged(c, key, es, l)
    ensures l == Log(After(c, es), Accepts(c, es, key), Answers(c, es), Checks(es))
  {
    var logs: seq<Log> :| IsLog(c, key, es, logs) && logs[|es|] == l;
    LogMeaning(c, key, es, logs);
  }

  /** `n` checks at one time, all accepted. */
  predicate IsBurst(c: Config, key: string, t: nat, n: nat, es: seq<Event>, l: Log) {
    && (forall e :: e in es ==> e == Check(key, t))
    && l.accepts == Times(t, n) && At(l.record, key) == Times(t, OnRecord(c, n)) && l.checks == es
  }

  lemma BurstStep(c: Config, key: string, t: nat, n: nat, es: seq<Event>, l: Log)
    requires n < c.maxRequests && IsBurst(c, key, t, n, es, l)
    ensures IsBurst(c, key, t, n + 1, es + [Check(key, t)], Step(c, key, l, Check(key, t)))
  {
    LiveTimes(c, t, OnRecord(c, n), t);
    CheckedAt(c, l.record, key, t, if c.window > 0 then Times(t, OnRecord(c, n)) else []);
    assert Times(t, 1) == Times(t, 0) + [t];
  }

  lemma CheckedAt(c: Config, r: Requests, key: string, t: nat, live: seq<nat>)
    requires Live(c, At(r, key), t) == live && |live| < c.maxRequests
    ensures Allows(c, r, key, t) && At(Checked(c, r, key, t), key) == live + [t]
  {
  }

  lemma {:induction false} BurstRun(c: Config, key: string, t: nat, n: nat) returns (es: seq<Event>, l: Log)
    requires n <= c.maxRequests
    ensures IsBurst(c, key, t, n, es, l) && Logged(c, key, es, l)
  {
    if n == 0 {
      es, l := [], NEW;
      assert IsLog(c, key, [], [NEW]);
    } else {
      es, l := BurstRun(c, key, t, n - 1);
      BurstStep(c, key, t, n - 1, es, l);
      LogStep(c, key, es, l, Check(key, t));
      es, l := es + [Check(key, t)], Step(c, key, l, Check(key, t));
    }
  }

  lemma LateSkewed(c: Config, key: string, t: nat, n: nat, es: seq<Event>, l: Log, swept: nat, late: nat, d: nat)
    requires IsBurst(c, key, t, n, es, l) && t <= swept <= late + d
    ensures Skewed(d, es + [Cleanup(swept)] + [Check(key, late)])
  {
    assert forall i :: 0 <= i < |es| ==> es[i] in es;
  }

  /** A cleanup a window after the burst empties the record. */
  lemma Emptied(c: Config, key: string, t: nat, n: nat, es: seq<Event>, l: Log)
    requires IsBurst(c, key, t, n, es, l)
    ensures var l' := Step(c, key, l, Cleanup(t + c.window));
            At(l'.record, key) == [] && l'.accepts == l.accepts && l'.answers == l.answers && l'.checks == l.checks
  {
    LiveTimes(c, t, OnRecord(c, n), t + c.window);
  }

  /** A check on an empty record is accepted. */
  lemma AcceptedWhenEmpty(c: Config, key: string, l: Log, t: nat)
    requires c.maxRequests > 0 && At(l.record, key) == []
    ensures Allows(c, l.record, key, t)
    ensures var l' := Step(c, key, l, Check(key, t));
            l'.accepts == l.accepts + [t] && l'.answers == l.answers + [true] && l'.checks == l.checks + [Check(key, t)]
  {
  }

  lemma EmptiedRun(c: Config, key: string, t: nat) returns (burst: seq<Event>, b: Log, es: seq<Event>, e: Log)
    ensures Logged(c, key, burst, b) && IsBurst(c, key, t, c.maxRequests, burst, b)
    ensures Logged(c, key, es, e) && es == burst + [Cleanup(t + c.window)]
    ensures At(e.record, key) == [] && e.accepts == b.accepts && e.answers == b.answers && e.checks == b.checks
  {
    burst, b := BurstRun(c, key, t, c.maxRequests);
    Emptied(c, key, t, c.maxRequests, burst, b);
    LogStep(c, key, burst, b, Cleanup(t + c.window));
    es, e := burst + [Cleanup(t + c.window)], Step(c, key, b, Cleanup(t + c.window));
  }

  /** The burst, the cleanup, and one more check, by a reading up to `d` behind the cleanup's. */
  lemma LateRun(c: Config, key: string, t: nat, late: nat, d: nat)
    returns (burst: seq<Event>, b: Log, es: seq<Event>, e: Log, all: seq<Event>, l: Log)
    requires c.maxRequests > 0 && t + c.window <= late + d
    ensures Logged(c, key, burst, b) && Logged(c, key, es, e) && Logged(c, key, all, l)
    ensures IsBurst(c, key, t, c.maxRequests, burst, b) && At(e.record, key) == [] && e.accepts == b.accepts
    ensures all == es + [Check(key, late)] && Skewed(d, all)
    ensures l.accepts == Times(t, c.maxRequests) + [late] && l.answers == b.answers + [true]
    ensures l.checks == burst + [Check(key, late)]
  {
    burst, b, es, e := EmptiedRun(c, key, t);
    AcceptedWhenEmpty(c, key, e, late);
    LogStep(c, key, es, e, Check(key, late));
    all, l := es + [Check(key, late)], Step(c, key, e, Check(key, late));
    LateSkewed(c, key, t, c.maxRequests, burst, b, t + c.window, late, d);
  }

  // ---------- Exactly how much disorder each guarantee tolerates ----------

  predicate WithinLimit(c: Config, es: seq<Event>, key: string, lo: nat, len: int) {
    |Between(Accepts(c, es, key), lo, lo + len)| <= c.maxRequests
  }

  lemma {:induction false} BetweenGrows(ts: seq<nat>, lo: nat, hi: int, hi': int)
    requires hi <= hi'
    ensures |Between(ts, lo, hi)| <= |Between(ts, lo, hi')|
    ensures hi <= lo ==> Between(ts, lo, hi) == []
  {
    if ts != [] { BetweenGrows(ts[..|ts| - 1], lo, hi, hi'); }
  }

  lemma {:induction false} BetweenTimes(t: nat, n: nat, lo: nat, hi: int)
    requires lo <= t < hi
    ensures Between(Times(t, n), lo, hi) == Times(t, n)
  {
    if n > 0 {
      BetweenTimes(t, n - 1, lo, hi);
      BetweenSnoc(Times(t, n - 1), t, lo, hi);
    }
  }

  lemma {:induction false} NothingAccepted(c: Config, es: seq<Event>, key: string)
    requires c.maxRequests == 0
    ensures Accepts(c, es, key) == []
  {
    if es != [] { NothingAccepted(c, es[..|es| - 1], key); }
  }

  /** A run with one accept too many in an interval longer than the window less the disorder. */
  lemma OneTooMany(c: Config, key: string, d: nat, lo: nat, len: int) returns (es: seq<Event>)
    requires c.maxRequests > 0 && len > 0 && len + d > c.window
    ensures Skewed(d, es) && !WithinLimit(c, es, key, lo, len)
  {
    var late := if d <= c.window then lo + c.window - d else lo;
    var burst, b, front, e, all, l := LateRun(c, key, lo, late, d);
    TooManyLogged(c, key, all, l, lo, late, len);
    es := all;
  }

  lemma TooManyLogged(c: Config, key: string, es: seq<Event>, l: Log, lo: nat, late: nat, len: int)
    requires Logged(c, key, es, l) && l.accepts == Times(lo, c.maxRequests) + [late] && lo <= late < lo + len
    ensures !WithinLimit(c, es, key, lo, len)
  {
    LoggedMeaning(c, key, es, l);
    TooManyBetween(lo, c.maxRequests, late, lo + len);
  }

  lemma TooManyBetween(lo: nat, n: nat, late: nat, hi: int)
    requires lo <= late < hi
    ensures |Between(Times(lo, n) + [late], lo, hi)| == n + 1
  {
    BetweenTimes(lo, n, lo, hi);
    BetweenSnoc(Times(lo, n), late, lo, hi);
  }

  ghost predicate AlwaysWithinLimit(c: Config, d: nat, len: int) {
    forall es: seq<Event>, key: string, lo: nat :: Skewed(d, es) ==> WithinLimit(c, es, key, lo, len)
  }

  /** In all runs with disorder up to `d` no interval of length `len` holds more accepts than the
      limit, exactly when it is no longer than the window less `d`: one window for readings in order. */
  lemma WindowBoundIff(c: Config, d: nat, len: int)
    ensures AlwaysWithinLimit(c, d, len) <==> c.maxRequests == 0 || len <= 0 || len + d <= c.window
  {
    if c.maxRequests == 0 || len <= 0 || len + d <= c.window {
      forall es: seq<Event>, key: string, lo: nat | Skewed(d, es) ensures WithinLimit(c, es, key, lo, len) {
        var ts := Accepts(c, es, key);
        if c.maxRequests == 0 {
          NothingAccepted(c, es, key);
        } else if len <= 0 {
          BetweenGrows(ts, lo, lo + len, lo + len);
        } else {
          SkewedWindowBound(c, es, key, d, lo);
          BetweenGrows(ts, lo, lo + len, lo + c.window - d);
        }
      }
    } else {
      var es := OneTooMany(c, "k", d, 0, len);
    }
  }

  /** Nothing depends on the order of readings when the window is empty or nothing is ever accepted. */
  predicate Degenerate(c: Config) { c.maxRequests == 0 || c.window == 0 }

  lemma {:induction false} NothingLive(c: Config, ts: seq<nat>, now: nat)
    requires c.window == 0
    ensures Live(c, ts, now) == []
  {
    if ts != [] { NothingLive(c, ts[..|ts| - 1], now); }
  }

  lemma DegenerateAllows(c: Config, r: Requests, key: string, now: nat)
    requires Degenerate(c)
    ensures Allows(c, r, key, now) <==> c.maxRequests > 0
  {
    if c.window == 0 { NothingLive(c, At(r, key), now); }
  }

  /** The check answers by the accepts in the last window. */
  predicate AnswersByHistory(c: Config, es: seq<Event>, key: string, now: nat) {
    Allows(c, After(c, es), key, now) <==> |Live(c, Accepts(c, es, key), now)| < c.maxRequests
  }

  ghost predicate AlwaysByHistory(c: Config, d: nat) {
    forall es: seq<Event>, key: string, now: nat ::
      Skewed(d, es + [Check(key, now)]) ==> AnswersByHistory(c, es, key, now)
  }

  lemma InOrder(es: seq<Event>, e: Event)
    requires Skewed(0, es + [e])
    ensures Nondecreasing(es) && Clock(es) <= e.now
  {
    var all := es + [e];
    forall i, j | 0 <= i < j < |es| ensures es[i].now <= es[j].now { assert all[i].now <= all[j].now + 0; }
    if es != [] { assert all[|es| - 1].now <= all[|es|].now + 0; }
  }

  /** A late check ignores accepts that the window still holds. */
  lemma ForgottenHistory(c: Config, d: nat, key: string, now: nat) returns (es: seq<Event>)
    requires d > 0 && !Degenerate(c) && now == c.window - 1
    ensures Skewed(d, es + [Check(key, now)]) && !AnswersByHistory(c, es, key, now)
  {
    var burst, b, front, e, all, l := LateRun(c, key, 0, now, d);
    es := front;
    LoggedMeaning(c, key, front, e);
    AcceptedWhenEmpty(c, key, e, now);
    LiveTimes(c, 0, c.maxRequests, now);
  }

  /** Checks answer by the accepts of the last window in all runs with disorder up to `d` exactly when
      there is none. */
  lemma ByHistoryIff(c: Config, d: nat)
    ensures AlwaysByHistory(c, d) <==> d == 0 || Degenerate(c)
  {
    if d == 0 || Degenerate(c) {
      forall es: seq<Event>, key: string, now: nat | Skewed(d, es + [Check(key, now)])
        ensures AnswersByHistory(c, es, key, now)
      {
        if Degenerate(c) {
          DegenerateAllows(c, After(c, es), key, now);
          if c.window == 0 { NothingLive(c, Accepts(c, es, key), now); }
        } else {
          InOrder(es, Check(key, now));
          AcceptIff(c, es, key, now);
        }
      }
    } else {
      var es := ForgottenHistory(c, d, "k", c.window - 1);
    }
  }

  predicate CleanupUnseen(c: Config, es: seq<Event>) { Answers(c, es) == Answers(c, Checks(es)) }

  ghost predicate CleanupAlwaysUnseen(c: Config, d: nat) {
    forall es: seq<Event> :: Skewed(d, es) ==> CleanupUnseen(c, es)
  }

  lemma {:induction false} DegenerateCleanup(c: Config, es: seq<Event>)
    requires Degenerate(c)
    ensures CleanupUnseen(c, es)
  {
    if es != [] {
      var front, e := es[..|es| - 1], es[|es| - 1];
      DegenerateCleanup(c, front);
      if e.Check? {
        assert (Checks(front) + [e])[..|Checks(front)|] == Checks(front);
        DegenerateAllows(c, After(c, front), e.key, e.now);
        DegenerateAllows(c, After(c, Checks(front)), e.key, e.now);
      }
    }
  }

  lemma LastDiffers(front: seq<bool>, x: bool, y: bool)
    requires x != y
    ensures front + [x] != front + [y]
  {
    assert (front + [x])[|front|] != (front + [y])[|front|];
  }

  /** Without the cleanup a late check is refused, with it accepted. */
  lemma CleanupSeen(c: Config, d: nat, key: string, now: nat) returns (es: seq<Event>)
    requires d > 0 && !Degenerate(c) && now == c.window - 1
    ensures Skewed(d, es) && !CleanupUnseen(c, es)
  {
    var burst, b, front, e, all, l := LateRun(c, key, 0, now, d);
    es := all;
    LoggedMeaning(c, key, all, l);
    RefusedWhenFull(c, key, burst, b, now);
    LogStep(c, key, burst, b, Check(key, now));
    LoggedMeaning(c, key, burst + [Check(key, now)], Step(c, key, b, Check(key, now)));
    LastDiffers(b.answers, true, false);
  }

  lemma RefusedWhenFull(c: Config, key: string, es: seq<Event>, b: Log, now: nat)
    requires !Degenerate(c) && now < c.window && IsBurst(c, key, 0, c.maxRequests, es, b)
    ensures Step(c, key, b, Check(key, now)).answers == b.answers + [false]
  {
    LiveTimes(c, 0, c.maxRequests, now);
  }

  /** Cleanups change no answer in all runs with disorder up to `d` exactly when there is none. */
  lemma CleanupUnseenIff(c: Config, d: nat)
    ensures CleanupAlwaysUnseen(c, d) <==> d == 0 || Degenerate(c)
  {
    if d == 0 || Degenerate(c) {
      forall es: seq<Event> | Skewed(d, es) ensures CleanupUnseen(c, es) {
        if Degenerate(c) {
          DegenerateCleanup(c, es);
        } else {
          assert forall i, j :: 0 <= i < j < |es| ==> es[i].now <= es[j].now + 0;
          CleanupInvisible(c, es);
        }
      }
    } else {
      var es := CleanupSeen(c, d, "k", c.window - 1);
    }
  }
}
