/** How many sessions the OIDC session store can come to hold, over every interleaving. */
module SessionCapacity {
  import opened SessionStore

  predicate IsStart(task: Task) {
    || task.StartProbe? || task.StartCheck? || task.StartIndex? || task.StartInsert?
    || (task.Sweep? && task.starting) || (task.Unindex? && task.starting)
  }

  function Starters(s: Store): set<nat> { set t | t in s.tasks && IsStart(s.tasks[t]) }

  /** Start operations that passed the capacity check and have not stored their session. */
  function Committed(tasks: map<nat, Task>): set<nat> { set t | t in tasks && IsCommitted(tasks[t]) }

  lemma FewerCommitted(s: Store)
    ensures |Committed(s.tasks)| <= |Starters(s)|
  {
    var c := Committed(s.tasks);
    assert Starters(s) == c + (Starters(s) - c);
  }

  lemma MapMinus(m: map<string, Session>, id: string)
    ensures |m - {id}| <= |m|
  {
    assert (m - {id}).Keys == m.Keys - {id};
    assert |m - {id}| == |m.Keys - {id}| && |m| == |m.Keys|;
    assert m.Keys == (m.Keys - {id}) + (m.Keys * {id});
  }

  lemma UnexpiredSize(m: map<string, Session>, cutoff: int)
    ensures |Unexpired(m, cutoff)| <= |m|
  {
    var kept := Unexpired(m, cutoff);
    assert |kept| == |kept.Keys| && |m| == |m.Keys|;
    assert m.Keys == kept.Keys + (m.Keys - kept.Keys);
  }

  function Load(s: Store): nat { |s.sessions| + |Committed(s.tasks)| }

  lemma CommittedSame(tasks: map<nat, Task>, t: nat, task: Task)
    requires t in tasks ==> !IsCommitted(tasks[t])
    ensures Committed(tasks - {t}) == Committed(tasks)
    ensures !IsCommitted(task) ==> Committed(tasks[t := task]) == Committed(tasks)
  {
  }

  lemma GotoLoad(s: Store, t: nat, task: Task, sessions: map<string, Session>, index: map<string, string>)
    requires t in s.tasks && !IsCommitted(s.tasks[t]) && !IsCommitted(task) && |sessions| <= |s.sessions|
    ensures Load(Goto(s.(sessions := sessions, index := index), t, task)) <= Load(s)
    ensures Load(Finish(s.(index := index), t)) <= Load(s)
  {
    CommittedSame(s.tasks, t, task);
  }

  lemma SweepLoad(max: nat, s: Store, t: nat, pick: Pick)
    requires t in s.tasks && s.tasks[t].Sweep?
    ensures Load(Advanced(max, s, t, pick)) <= Load(s)
  {
    var cutoff := s.tasks[t].cutoff;
    UnexpiredSize(s.sessions, cutoff);
    GotoLoad(s, t, Unindex(Expired(s.sessions, cutoff), s.tasks[t].starting), Unexpired(s.sessions, cutoff), s.index);
  }

  lemma RemoveLoad(max: nat, s: Store, t: nat, pick: Pick)
    requires t in s.tasks && s.tasks[t].RemoveSession?
    ensures Load(Advanced(max, s, t, pick)) <= Load(s)
  {
    var id := s.tasks[t].target;
    if id in s.sessions {
      MapMinus(s.sessions, id);
      GotoLoad(s, t, Unindex({s.sessions[id].state}, false), s.sessions - {id}, s.index);
    } else {
      GotoLoad(s, t, StartProbe, s.sessions, s.index);
    }
  }

  lemma OtherLoad(max: nat, s: Store, t: nat, pick: Pick)
    requires t in s.tasks && !IsCommitted(s.tasks[t]) && !s.tasks[t].StartCheck? && !s.tasks[t].RemoveSession? &&
             !s.tasks[t].Sweep?
    ensures Load(Advanced(max, s, t, pick)) <= Load(s)
  {
    match s.tasks[t]
    case StartProbe =>
      GotoLoad(s, t, if |s.sessions| >= max / 2 then Sweep(pick.cutoff, true) else StartCheck, s.sessions, s.index);
    case LookupIndex(key) =>
      GotoLoad(s, t, if key in s.index then LookupSession(key, s.index[key]) else StartProbe, s.sessions, s.index);
    case LookupSession(_, _) => GotoLoad(s, t, StartProbe, s.sessions, s.index);
    case Unindex(states, _) => GotoLoad(s, t, StartCheck, s.sessions, s.index - states);
  }

  lemma IndexLoad(max: nat, s: Store, t: nat, pick: Pick)
    requires t in s.tasks && s.tasks[t].StartIndex?
    ensures Load(Advanced(max, s, t, pick)) == Load(s)
  {
    assert Committed(s.tasks[t := StartInsert(s.tasks[t].session)]) == Committed(s.tasks);
  }

  /** Stored plus committed sessions grow only at a check that saw room. */
  lemma LoadStep(max: nat, s: Store, a: Action, s': Store)
    requires Next(max, s, a, s')
    ensures Load(s') <= Load(s) || |s'.sessions| < max
  {
    match a
    case Begin(t, task) => CommittedSame(s.tasks, t, task);
    case Advance(t, pick) =>
      if s.tasks[t].StartIndex? {
        IndexLoad(max, s, t, pick);
      } else if s.tasks[t].StartInsert? {
        InsertLoad(max, s, t, pick);
      } else if s.tasks[t].RemoveSession? {
        RemoveLoad(max, s, t, pick);
      } else if s.tasks[t].Sweep? {
        SweepLoad(max, s, t, pick);
      } else if !s.tasks[t].StartCheck? {
        OtherLoad(max, s, t, pick);
      } else if |s.sessions| >= max {
        CommittedSame(s.tasks, t, StartProbe);
      }
  }

  lemma InsertLoad(max: nat, s: Store, t: nat, pick: Pick)
    requires t in s.tasks && s.tasks[t].StartInsert?
    ensures Load(Advanced(max, s, t, pick)) <= Load(s)
  {
    assert Committed(s.tasks) == Committed(s.tasks - {t}) + {t} && t !in Committed(s.tasks - {t});
    OneMoreSession(s.sessions, s.tasks[t].session);
  }

  lemma OneMoreSession(m: map<string, Session>, x: Session)
    ensures |m[x.id := x]| == |m| + if x.id in m then 0 else 1
  {
    var more := m[x.id := x];
    assert more.Keys == m.Keys + {x.id};
    assert |more| == |more.Keys| && |m| == |m.Keys|;
  }

  /** With at most `k` start operations in flight at any moment the store never holds more than
      `max + k - 1` sessions. */
  lemma {:induction false} CapacityBound(max: nat, run: seq<Store>, acts: seq<Action>, k: nat, n: nat)
    requires IsRun(max, run, acts) && n < |run| && k > 0
    requires AtMostStarters(k, run)
    ensures Load(run[n]) <= max + k - 1 && |run[n].sessions| <= max + k - 1
  {
    if n == 0 {
      assert Committed(EMPTY.tasks) == {};
    } else {
      CapacityBound(max, run, acts, k, n - 1);
      assert Next(max, run[n - 1], acts[n - 1], run[n - 1 + 1]);
      LoadStep(max, run[n - 1], acts[n - 1], run[n]);
      FewerCommitted(run[n]);
      assert |Starters(run[n])| <= k;
    }
  }

  // ---------- The bound is reached ----------

  ghost predicate AtMostStarters(k: nat, run: seq<Store>) { forall i :: 0 <= i < |run| ==> |Starters(run[i])| <= k }

  /** Some run with at most `k` start operations in flight ends in `s`. */
  ghost predicate Reachable(max: nat, k: nat, s: Store) {
    exists run, acts :: IsRun(max, run, acts) && AtMostStarters(k, run) && run[|acts|] == s
  }

  lemma ReachStep(max: nat, k: nat, s: Store, a: Action, s': Store)
    requires Reachable(max, k, s) && Next(max, s, a, s') && |Starters(s')| <= k
    ensures Reachable(max, k, s')
  {
    var run, acts :| IsRun(max, run, acts) && AtMostStarters(k, run) && run[|acts|] == s;
    LongerRun(max, run, acts, a, s');
    assert AtMostStarters(k, run + [s']) && (run + [s'])[|acts + [a]|] == s';
  }

  lemma LongerRun(max: nat, run: seq<Store>, acts: seq<Action>, a: Action, s': Store)
    requires IsRun(max, run, acts) && Next(max, run[|acts|], a, s')
    ensures IsRun(max, run + [s'], acts + [a])
  {
    var run', acts' := run + [s'], acts + [a];
    forall i | 0 <= i < |acts'| ensures Next(max, run'[i], acts'[i], run'[i + 1]) {
      if i < |acts| { assert run'[i] == run[i] && run'[i + 1] == run[i + 1] && acts'[i] == acts[i]; }
    }
  }

  /** Names of growing length, all different. */
  function Name(n: nat): string { seq(n, _ => 'x') }

  function Made(i: nat): Session { Session(Name(i), Name(i), 1) }

  function Stored(a: nat): map<string, Session> { if a == 0 then map[] else Stored(a - 1)[Name(a - 1) := Made(a - 1)] }

  function Named(a: nat): map<string, string> { if a == 0 then map[] else Named(a - 1)[Name(a - 1) := Name(a - 1)] }

  function Waiting(a: nat, b: nat): map<nat, Task> { map i: nat | a <= i < b :: StartIndex(Made(i)) }

  /** The first `a` sessions are stored; those from `a` to `b` are committed, one operation each. */
  function Stage(a: nat, b: nat): Store { Store(Stored(a), Named(a), Waiting(a, b), Named(b)) }

  lemma {:induction false} NamesBelow(a: nat)
    ensures forall x :: x in Named(a) ==> |x| < a && Named(a)[x] == x
    ensures forall x :: x in Stored(a) ==> |x| < a && Stored(a)[x].createdAt == 1
    ensures |Stored(a)| == a
  {
    if a > 0 {
      NamesBelow(a - 1);
      OneMoreSession(Stored(a - 1), Made(a - 1));
    }
  }

  function Chosen(b: nat): Pick { Pick(Name(b), Name(b), 1, 0) }

  lemma ChosenIsFresh(a: nat, b: nat)
    ensures Fresh(Stage(a, b), Chosen(b))
  {
    NamesBelow(b);
    assert Name(b) !in Named(b).Values;
  }

  /** Operations in flight bound the start operations in flight. */
  lemma FewStarters(s: Store, a: nat, b: nat)
    requires a <= b && forall t :: t in s.tasks ==> a <= t < b
    ensures |Starters(s)| <= b - a
  {
    BetweenSize(Starters(s), a, b);
  }

  lemma {:induction false} BetweenSize(ts: set<nat>, a: nat, b: nat)
    requires a <= b && forall t :: t in ts ==> a <= t < b
    ensures |ts| <= b - a
    decreases b
  {
    if a == b {
      assert ts == {};
    } else {
      BetweenSize(ts - {b - 1}, a, b - 1);
      assert b - 1 in ts ==> ts == (ts - {b - 1}) + {b - 1};
      assert b - 1 !in ts ==> ts == ts - {b - 1};
    }
  }

  /** The states on the way from `Stage(a, b)` to `Stage(a, b + 1)`. */
  function Starting(a: nat, b: nat, task: Task): Store { Goto(Stage(a, b), b, task) }

  lemma ReachStarting(max: nat, k: nat, a: nat, b: nat, s: Store, act: Action, task: Task)
    requires a <= b && b - a < k && Reachable(max, k, s) && Next(max, s, act, Starting(a, b, task))
    ensures Reachable(max, k, Starting(a, b, task))
  {
    FewStarters(Starting(a, b, task), a, b + 1);
    ReachStep(max, k, s, act, Starting(a, b, task));
  }

  /** A sweep finds nothing to take out. */
  lemma NothingExpires(a: nat)
    ensures Unexpired(Stored(a), 0) == Stored(a) && Expired(Stored(a), 0) == {}
  {
    NamesBelow(a);
  }

  lemma SweepStep(max: nat, a: nat, b: nat)
    ensures Next(max, Starting(a, b, Sweep(0, true)), Advance(b, Chosen(b)), Starting(a, b, Unindex({}, true)))
  {
    ChosenIsFresh(a, b);
    NothingExpires(a);
    assert Advanced(max, Starting(a, b, Sweep(0, true)), b, Chosen(b)).tasks == Waiting(a, b)[b := Unindex({}, true)];
  }

  lemma UnindexStep(max: nat, a: nat, b: nat)
    ensures Next(max, Starting(a, b, Unindex({}, true)), Advance(b, Chosen(b)), Starting(a, b, StartCheck))
  {
    ChosenIsFresh(a, b);
    assert Named(a) - {} == Named(a);
    assert Advanced(max, Starting(a, b, Unindex({}, true)), b, Chosen(b)).tasks == Waiting(a, b)[b := StartCheck];
  }

  /** The first reading of the size either sweeps first or goes straight to the check. */
  lemma ProbeStep(max: nat, a: nat, b: nat)
    ensures Next(max, Starting(a, b, StartProbe), Advance(b, Chosen(b)),
                 Starting(a, b, if |Stored(a)| >= max / 2 then Sweep(0, true) else StartCheck))
  {
    ChosenIsFresh(a, b);
    var next := if |Stored(a)| >= max / 2 then Sweep(0, true) else StartCheck;
    assert Advanced(max, Starting(a, b, StartProbe), b, Chosen(b)).tasks == Waiting(a, b)[b := next];
  }

  /** One more operation gets as far as the capacity check. */
  lemma ReachCheck(max: nat, k: nat, a: nat, b: nat)
    requires a <= b && b - a < k && Reachable(max, k, Stage(a, b))
    ensures Reachable(max, k, Starting(a, b, StartCheck))
  {
    var act := Advance(b, Chosen(b));
    ReachStarting(max, k, a, b, Stage(a, b), Begin(b, StartProbe), StartProbe);
    ProbeStep(max, a, b);
    if |Stored(a)| >= max / 2 {
      ReachStarting(max, k, a, b, Starting(a, b, StartProbe), act, Sweep(0, true));
      SweepStep(max, a, b);
      ReachStarting(max, k, a, b, Starting(a, b, Sweep(0, true)), act, Unindex({}, true));
      UnindexStep(max, a, b);
      ReachStarting(max, k, a, b, Starting(a, b, Unindex({}, true)), act, StartCheck);
    } else {
      ReachStarting(max, k, a, b, Starting(a, b, StartProbe), act, StartCheck);
    }
  }

  lemma CommitStep(max: nat, a: nat, b: nat)
    requires a <= b && a < max
    ensures Next(max, Starting(a, b, StartCheck), Advance(b, Chosen(b)), Stage(a, b + 1))
  {
    NamesBelow(a);
    ChosenIsFresh(a, b);
    assert Waiting(a, b)[b := StartCheck][b := StartIndex(Made(b))] == Waiting(a, b + 1);
  }

  /** With room at the check, it commits. */
  lemma ReachCommitted(max: nat, k: nat, a: nat, b: nat)
    requires a <= b && b - a < k && a < max && Reachable(max, k, Stage(a, b))
    ensures Reachable(max, k, Stage(a, b + 1))
  {
    ReachCheck(max, k, a, b);
    CommitStep(max, a, b);
    FewStarters(Stage(a, b + 1), a, b + 1);
    ReachStep(max, k, Starting(a, b, StartCheck), Advance(b, Chosen(b)), Stage(a, b + 1));
  }

  /** The oldest committed operation has written the index but not the session. */
  function Indexed(a: nat, b: nat): Store {
    Store(Stored(a), Named(a + 1), Waiting(a, b)[a := StartInsert(Made(a))], Named(b))
  }

  lemma IndexStep(max: nat, a: nat, b: nat)
    requires a < b
    ensures Next(max, Stage(a, b), Advance(a, Chosen(b)), Indexed(a, b))
  {
    ChosenIsFresh(a, b);
  }

  lemma InsertStep(max: nat, a: nat, b: nat)
    requires a < b
    ensures Next(max, Indexed(a, b), Advance(a, Chosen(b)), Stage(a + 1, b))
  {
    ChosenIsFresh(a, b);
    assert Waiting(a, b)[a := StartInsert(Made(a))] - {a} == Waiting(a + 1, b);
  }

  /** The oldest committed operation stores its session, whatever the limit. */
  lemma ReachStored(max: nat, k: nat, a: nat, b: nat)
    requires a < b && b - a <= k && Reachable(max, k, Stage(a, b))
    ensures Reachable(max, k, Stage(a + 1, b))
  {
    var act := Advance(a, Chosen(b));
    IndexStep(max, a, b);
    FewStarters(Indexed(a, b), a, b);
    ReachStep(max, k, Stage(a, b), act, Indexed(a, b));
    InsertStep(max, a, b);
    FewStarters(Stage(a + 1, b), a, b);
    ReachStep(max, k, Indexed(a, b), act, Stage(a + 1, b));
  }

  lemma {:induction false} ReachFilled(max: nat, k: nat, n: nat)
    requires n <= max && k > 0
    ensures Reachable(max, k, Stage(n, n))
  {
    if n == 0 {
      assert Stage(0, 0) == EMPTY && Starters(EMPTY) == {};
      assert IsRun(max, [EMPTY], []) && AtMostStarters(k, [EMPTY]);
    } else {
      ReachFilled(max, k, n - 1);
      ReachCommitted(max, k, n - 1, n - 1);
      ReachStored(max, k, n - 1, n);
    }
  }

  lemma {:induction false} ReachAllCommitted(max: nat, k: nat, j: nat)
    requires max > 0 && k > 0 && j <= k
    ensures Reachable(max, k, Stage(max - 1, max - 1 + j))
  {
    if j == 0 {
      ReachFilled(max, k, max - 1);
    } else {
      ReachAllCommitted(max, k, j - 1);
      ReachCommitted(max, k, max - 1, max - 1 + j - 1);
    }
  }

  lemma {:induction false} ReachAllStored(max: nat, k: nat, j: nat)
    requires max > 0 && k > 0 && j <= k
    ensures Reachable(max, k, Stage(max - 1 + j, max - 1 + k))
  {
    if j == 0 {
      ReachAllCommitted(max, k, k);
    } else {
      ReachAllStored(max, k, j - 1);
      ReachStored(max, k, max - 1 + j - 1, max - 1 + k);
    }
  }

  /** The bound is tight: for every positive limit and number of starters, some run from the empty
      store with no more starters in flight ends with `max + k - 1` sessions. */
  lemma CapacityReached(max: nat, k: nat) returns (run: seq<Store>, acts: seq<Action>)
    requires max > 0 && k > 0
    ensures IsRun(max, run, acts) && AtMostStarters(k, run) && |run[|acts|].sessions| == max + k - 1
  {
    var end := max + k - 1;
    ReachAllStored(max, k, k);
    NamesBelow(end);
    run, acts :| IsRun(max, run, acts) && AtMostStarters(k, run) && run[|acts|] == Stage(end, end);
  }

  ghost predicate LimitHolds(max: nat, k: nat) {
    forall run: seq<Store>, acts: seq<Action>, n: nat ::
      IsRun(max, run, acts) && AtMostStarters(k, run) && n < |run| ==> |run[n].sessions| <= max
  }

  /** The limit holds in every run with at most `k` starters in flight exactly when they cannot
      overlap, or nothing may be stored at all. */
  lemma LimitHoldsIff(max: nat, k: nat)
    ensures LimitHolds(max, k) <==> k <= 1 || max == 0
  {
    if k <= 1 {
      forall run: seq<Store>, acts: seq<Action>, n: nat | IsRun(max, run, acts) && AtMostStarters(k, run) && n < |run|
        ensures |run[n].sessions| <= max
      {
        CapacityBound(max, run, acts, 1, n);
      }
    } else if max == 0 {
      forall run: seq<Store>, acts: seq<Action>, n: nat | IsRun(max, run, acts) && AtMostStarters(k, run) && n < |run|
        ensures |run[n].sessions| <= max
      {
        NothingStored(run, acts, n);
      }
    } else {
      var run, acts := CapacityReached(max, k);
      assert |run[|acts|].sessions| > max;
    }
  }

  lemma {:induction false} NothingStored(run: seq<Store>, acts: seq<Action>, n: nat)
    requires IsRun(0, run, acts) && n < |run|
    ensures Load(run[n]) == 0
  {
    if n == 0 {
      assert Committed(EMPTY.tasks) == {};
    } else {
      NothingStored(run, acts, n - 1);
      assert Next(0, run[n - 1], acts[n - 1], run[n - 1 + 1]);
      LoadStep(0, run[n - 1], acts[n - 1], run[n]);
    }
  }

  // ---------- A start running alone ----------

  /** The first reading of the size: a store at least half full is swept before the limit is checked. */
  lemma StartAlone(max: nat, s: Store, t: nat, pick: Pick)
    requires t in s.tasks && s.tasks[t].StartProbe?
    ensures 2 * |s.sessions| + 1 < max ==> Advanced(max, s, t, pick) == s.(tasks := s.tasks[t := StartCheck])
    ensures 2 * |s.sessions| + 1 >= max ==>
              var swept := AfterSweep(max, s, t, pick);
              && t in swept.tasks && swept.tasks[t] == StartCheck
              && (forall id :: id in swept.sessions <==> id in s.sessions && s.sessions[id].createdAt > pick.cutoff)
              && (forall id :: id in swept.sessions ==> swept.sessions[id] == s.sessions[id])
              && forall x :: x in swept.index <==> x in s.index && !IsStale(s.sessions, pick.cutoff, x)
  {
    if 2 * |s.sessions| + 1 >= max {
      var s1 := Advanced(max, s, t, pick);
      assert s1.sessions == s.sessions && s1.index == s.index && s1.tasks[t] == Sweep(pick.cutoff, true);
      var s2 := Advanced(max, s1, t, pick);
      assert s2.index == s.index && s2.tasks[t] == Unindex(Expired(s.sessions, pick.cutoff), true);
    }
  }

  /** The store once the start has probed, swept and taken the swept states out of the index. */
  function AfterSweep(max: nat, s: Store, t: nat, pick: Pick): Store
    requires t in s.tasks && s.tasks[t].StartProbe? && 2 * |s.sessions| + 1 >= max
  {
    Advanced(max, Advanced(max, Advanced(max, s, t, pick), t, pick), t, pick)
  }

  predicate IsStale(sessions: map<string, Session>, cutoff: int, state: string) {
    exists id :: id in sessions && sessions[id].createdAt <= cutoff && sessions[id].state == state
  }

  /** A start is refused exactly when the check sees `max` sessions or more. */
  lemma RefusedIff(max: nat, s: Store, t: nat, pick: Pick)
    requires t in s.tasks && s.tasks[t].StartCheck?
    ensures t !in Advanced(max, s, t, pick).tasks <==> max <= |s.sessions|
    ensures |s.sessions| < max ==>
              Advanced(max, s, t, pick).tasks[t] == StartIndex(Session(pick.id, pick.state, pick.now))
  {
  }
}
