/** How old a session can be when a lookup finds it: the documentation says that sessions expire by
    themselves, but a lookup never looks at the age. */
module SessionAge {
  import opened Wrappers
  import opened SessionStore
  import opened SessionCapacity

  /** The step stores a session under `id`. */
  predicate Stores(s: Store, a: Action, id: string) {
    a.Advance? && a.thread in s.tasks && s.tasks[a.thread].StartInsert? && s.tasks[a.thread].session.id == id
  }

  /** The step removes `id`, or sweeps with a cutoff at or past its creation. */
  predicate TakesOut(s: Store, a: Action, id: string) {
    && a.Advance? && a.thread in s.tasks
    && match s.tasks[a.thread]
       case RemoveSession(target) => target == id
       case Sweep(cutoff, _) => id in s.sessions && s.sessions[id].createdAt <= cutoff
       case _ => false
  }

  /** Every other step leaves the sessions alone. */
  lemma SameSessions(max: nat, s: Store, t: nat, pick: Pick)
    requires t in s.tasks && !s.tasks[t].StartInsert? && !s.tasks[t].RemoveSession? && !s.tasks[t].Sweep?
    ensures Advanced(max, s, t, pick).sessions == s.sessions
  {
  }

  lemma SweptSessions(max: nat, s: Store, t: nat, pick: Pick, id: string)
    requires t in s.tasks && s.tasks[t].Sweep?
    ensures id in Advanced(max, s, t, pick).sessions <==>
            id in s.sessions && s.sessions[id].createdAt > s.tasks[t].cutoff
  {
    assert Advanced(max, s, t, pick).sessions == Unexpired(s.sessions, s.tasks[t].cutoff);
  }

  lemma RemovedSessions(max: nat, s: Store, t: nat, pick: Pick, id: string)
    requires t in s.tasks && s.tasks[t].RemoveSession?
    ensures id in Advanced(max, s, t, pick).sessions <==> id in s.sessions && id != s.tasks[t].target
  {
  }

  lemma PresentStep(max: nat, s: Store, a: Action, s': Store, id: string)
    requires Next(max, s, a, s')
    ensures id in s'.sessions <==> Stores(s, a, id) || (id in s.sessions && !TakesOut(s, a, id))
  {
    if a.Advance? {
      if s.tasks[a.thread].Sweep? {
        SweptSessions(max, s, a.thread, a.pick, id);
      } else if s.tasks[a.thread].RemoveSession? {
        RemovedSessions(max, s, a.thread, a.pick, id);
      } else if s.tasks[a.thread].StartInsert? {
        assert s'.sessions == s.sessions[s.tasks[a.thread].session.id := s.tasks[a.thread].session];
      } else {
        SameSessions(max, s, a.thread, a.pick);
      }
    }
  }

  /** Stored at event `k` and not taken out since. */
  ghost predicate StoredSince(run: seq<Store>, acts: seq<Action>, id: string, k: nat, n: nat) {
    && k < n <= |acts| && |run| == |acts| + 1 && Stores(run[k], acts[k], id)
    && forall i :: k < i < n ==> !TakesOut(run[i], acts[i], id)
  }

  /** In every interleaving a session is there to be found exactly when it was stored and has since
      been neither removed nor swept: only a sweep makes it expire, never the clock. */
  lemma {:induction false} PresentIff(max: nat, run: seq<Store>, acts: seq<Action>, id: string, n: nat)
    requires IsRun(max, run, acts) && n < |run|
    ensures id in run[n].sessions <==> exists k: nat :: StoredSince(run, acts, id, k, n)
  {
    if n > 0 {
      var m := n - 1;
      PresentIff(max, run, acts, id, m);
      assert Next(max, run[m], acts[m], run[m + 1]);
      PresentStep(max, run[m], acts[m], run[n], id);
      if Stores(run[m], acts[m], id) { assert StoredSince(run, acts, id, m, n); }
      if id in run[m].sessions && !TakesOut(run[m], acts[m], id) {
        var k: nat :| StoredSince(run, acts, id, k, m);
        assert StoredSince(run, acts, id, k, n);
      }
      if k: nat :| StoredSince(run, acts, id, k, n) {
        if k < m { assert StoredSince(run, acts, id, k, m); }
      }
    }
  }

  /** After a sweep, whatever is found was created after its cutoff or stored after it. */
  lemma AgeAfterSweep(max: nat, run: seq<Store>, acts: seq<Action>, id: string, n: nat, m: nat, cutoff: int)
    requires IsRun(max, run, acts) && n < m < |run| && id in run[m].sessions
    requires acts[n].Advance? && acts[n].thread in run[n].tasks
    requires run[n].tasks[acts[n].thread].Sweep? && run[n].tasks[acts[n].thread].cutoff == cutoff
    ensures || (id in run[n].sessions && run[n].sessions[id].createdAt > cutoff)
            || exists k: nat :: n < k < m && Stores(run[k], acts[k], id)
  {
    PresentIff(max, run, acts, id, m);
    var k: nat :| StoredSince(run, acts, id, k, m);
    if k <= n {
      PresentIff(max, run, acts, id, n);
      if k < n { assert StoredSince(run, acts, id, k, n); }
    }
  }

  /** For every age: a run at whose end a lookup finds a session that old. */
  lemma OldSessionFound(max: nat, age: nat)
    returns (run: seq<Store>, acts: seq<Action>, pick: Pick, x: Session, s': Store)
    requires max > 0
    ensures IsRun(max, run, acts) && Next(max, run[|acts|], Advance(0, pick), s')
    ensures 0 in run[|acts|].tasks && run[|acts|].tasks[0].LookupSession? && Found(run[|acts|], 0) == Some(x)
    ensures pick.now == x.createdAt + age
  {
    x, pick := Made(0), Chosen(1).(now := 1 + age);
    ReachFilled(max, 1, 1);
    var s := Stage(1, 1);
    ChosenIsFresh(1, 1);
    assert Named(1) == Named(0)[Name(0) := Name(0)] && Stored(1) == Stored(0)[Name(0) := x] && s.tasks == map[];
    var asked := Goto(s, 0, LookupIndex(Name(0)));
    var found := Goto(s, 0, LookupSession(Name(0), Name(0)));
    assert Starters(asked) == {} && Starters(found) == {};
    ReachStep(max, 1, s, Begin(0, LookupIndex(Name(0))), asked);
    assert asked.tasks[0 := LookupSession(Name(0), Name(0))] == found.tasks;
    ReachStep(max, 1, asked, Advance(0, pick), found);
    run, acts :| IsRun(max, run, acts) && AtMostStarters(1, run) && run[|acts|] == found;
    s' := Advanced(max, found, 0, pick);
  }
}
