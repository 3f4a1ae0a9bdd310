/** The in-memory OIDC session store as a step system: two maps under two locks, each lock
    acquisition one atomic step, any number of operations in flight. */
module SessionStore {
  import opened Wrappers

  datatype Session = Session(id: string, state: string, createdAt: int)

  /** Where an operation stands: the step it will take next. */
  datatype Task =
    | StartProbe                                  // read the size, maybe clean up first
    | StartCheck                                  // read the size, maybe give up
    | StartIndex(session: Session)                // write the state index
    | StartInsert(session: Session)               // write the session
    | LookupIndex(key: string)                    // read the index
    | LookupSession(key: string, id: string)      // read the session
    | RemoveSession(target: string)               // take the session out
    | Sweep(cutoff: int, starting: bool)          // take the expired sessions out
    | Unindex(states: set<string>, starting: bool) // take their states out of the index

  /** `issued` records every id and state ever handed out. */
  datatype Store = Store(sessions: map<string, Session>, index: map<string, string>,
                         tasks: map<nat, Task>, issued: map<string, string>)

  const EMPTY := Store(map[], map[], map[], map[])

  /** Random values and clock readings a step may use. */
  datatype Pick = Pick(id: string, state: string, now: int, cutoff: int)

  datatype Action = Begin(thread: nat, task: Task) | Advance(thread: nat, pick: Pick)

  predicate IsEntry(task: Task) {
    task.StartProbe? || task.LookupIndex? || task.RemoveSession? || (task.Sweep? && !task.starting)
  }

  function Expired(sessions: map<string, Session>, cutoff: int): set<string> {
    set id | id in sessions && sessions[id].createdAt <= cutoff :: sessions[id].state
  }

  function Unexpired(sessions: map<string, Session>, cutoff: int): map<string, Session> {
    map id | id in sessions && sessions[id].createdAt > cutoff :: sessions[id]
  }

  function Goto(s: Store, t: nat, task: Task): Store { s.(tasks := s.tasks[t := task]) }

  function Finish(s: Store, t: nat): Store { s.(tasks := s.tasks - {t}) }

  /** The step operation `t` takes. */
  function Advanced(max: nat, s: Store, t: nat, pick: Pick): Store
    requires t in s.tasks
  {
    match s.tasks[t]
    case StartProbe =>
      if |s.sessions| >= max / 2 then Goto(s, t, Sweep(pick.cutoff, true)) else Goto(s, t, StartCheck)
    case StartCheck =>
      if |s.sessions| >= max then Finish(s, t)
      else Goto(s.(issued := s.issued[pick.id := pick.state]), t, StartIndex(Session(pick.id, pick.state, pick.now)))
    case StartIndex(x) => Goto(s.(index := s.index[x.state := x.id]), t, StartInsert(x))
    case StartInsert(x) => Finish(s.(sessions := s.sessions[x.id := x]), t)
    case LookupIndex(key) => if key in s.index then Goto(s, t, LookupSession(key, s.index[key])) else Finish(s, t)
    case LookupSession(_, _) => Finish(s, t)
    case RemoveSession(id) =>
      if id in s.sessions then Goto(s.(sessions := s.sessions - {id}), t, Unindex({s.sessions[id].state}, false))
      else Finish(s, t)
    case Sweep(cutoff, starting) =>
      Goto(s.(sessions := Unexpired(s.sessions, cutoff)), t, Unindex(Expired(s.sessions, cutoff), starting))
    case Unindex(states, starting) =>
      var next := s.(index := s.index - states);
      if starting then Goto(next, t, StartCheck) else Finish(next, t)
  }

  /** Generated ids and states are new. */
  predicate Fresh(s: Store, pick: Pick) { pick.id !in s.issued && pick.state !in s.issued.Values }

  predicate Next(max: nat, s: Store, a: Action, s': Store) {
    match a
    case Begin(t, task) => t !in s.tasks && IsEntry(task) && s' == Goto(s, t, task)
    case Advance(t, pick) => t in s.tasks && Fresh(s, pick) && s' == Advanced(max, s, t, pick)
  }

  predicate IsRun(max: nat, run: seq<Store>, acts: seq<Action>) {
    && |run| == |acts| + 1 && run[0] == EMPTY
    && forall i :: 0 <= i < |acts| ==> Next(max, run[i], acts[i], run[i + 1])
  }

  // ---------- The invariant ----------

  /** The session a start operation has committed to but not stored yet. */
  predicate Holds(task: Task, id: string) { (task.StartIndex? || task.StartInsert?) && task.session.id == id }

  predicate Pending(s: Store, id: string) { exists t :: t in s.tasks && Holds(s.tasks[t], id) }

  predicate Doomed(s: Store, state: string) {
    exists t :: t in s.tasks && s.tasks[t].Unindex? && state in s.tasks[t].states
  }

  predicate IssuedOnce(s: Store) {
    forall i, j :: i in s.issued && j in s.issued && s.issued[i] == s.issued[j] ==> i == j
  }

  predicate Was(s: Store, id: string, state: string) { id in s.issued && s.issued[id] == state }

  predicate SessionOk(s: Store, id: string)
    requires id in s.sessions
  {
    var x := s.sessions[id];
    x.id == id && Was(s, id, x.state) && x.state in s.index && s.index[x.state] == id
  }

  predicate IndexOk(s: Store, state: string)
    requires state in s.index
  {
    var id := s.index[state];
    Was(s, id, state) && (id in s.sessions || Pending(s, id) || Doomed(s, state))
  }

  predicate TaskOk(s: Store, task: Task) {
    match task
    case StartIndex(x) => Was(s, x.id, x.state) && x.id !in s.sessions && x.state !in s.index
    case StartInsert(x) => Was(s, x.id, x.state) && x.id !in s.sessions && x.state in s.index &&
        s.index[x.state] == x.id
    case LookupSession(key, id) => Was(s, id, key)
    case Unindex(states, _) =>
      && states <= s.issued.Values
      && forall id :: id in s.issued && s.issued[id] in states ==> id !in s.sessions && !Pending(s, id)
    case _ => true
  }

  predicate IsCommitted(task: Task) { task.StartIndex? || task.StartInsert? }

  predicate HeldOnce(s: Store) {
    forall t, u :: t in s.tasks && u in s.tasks && t != u && IsCommitted(s.tasks[t])
                   ==> !Holds(s.tasks[u], s.tasks[t].session.id)
  }

  predicate Inv(s: Store) {
    && IssuedOnce(s) && HeldOnce(s)
    && (forall id :: id in s.sessions ==> SessionOk(s, id))
    && (forall state :: state in s.index ==> IndexOk(s, state))
    && (forall t :: t in s.tasks ==> TaskOk(s, s.tasks[t]))
  }

  lemma BeginKeeps(s: Store, t: nat, task: Task)
    requires Inv(s) && t !in s.tasks && IsEntry(task)
    ensures Inv(Goto(s, t, task))
  {
    var s' := Goto(s, t, task);
    SameHolders(s, s', t);
    QuietInv(s, s', t);
  }

  /** A step of `t` that neither acquires nor gives up a held session, and drops no doomed state. */
  lemma SameHolders(s: Store, s': Store, t: nat)
    requires forall u :: u != t ==> (u in s.tasks <==> u in s'.tasks) && (u in s.tasks ==> s'.tasks[u] == s.tasks[u])
    requires t in s.tasks ==> !s.tasks[t].StartIndex? && !s.tasks[t].StartInsert?
    requires t in s'.tasks ==> !s'.tasks[t].StartIndex? && !s'.tasks[t].StartInsert?
    ensures forall id :: Pending(s', id) <==> Pending(s, id)
    ensures (t in s.tasks ==> !s.tasks[t].Unindex?) ==> forall state :: Doomed(s, state) ==> Doomed(s', state)
    ensures HeldOnce(s) ==> HeldOnce(s')
  {
    forall id ensures Pending(s', id) <==> Pending(s, id) {
      if Pending(s', id) {
        var u :| u in s'.tasks && Holds(s'.tasks[u], id);
        assert u in s.tasks && Holds(s.tasks[u], id);
      }
      if Pending(s, id) {
        var u :| u in s.tasks && Holds(s.tasks[u], id);
        assert u in s'.tasks && Holds(s'.tasks[u], id);
      }
    }
    if t in s.tasks ==> !s.tasks[t].Unindex? {
      forall state | Doomed(s, state) ensures Doomed(s', state) {
        var u :| u in s.tasks && s.tasks[u].Unindex? && state in s.tasks[u].states;
        assert u in s'.tasks && s'.tasks[u].Unindex?;
      }
    }
  }

  /** Steps that touch neither map. */
  lemma QuietKeeps(max: nat, s: Store, t: nat, pick: Pick)
    requires Inv(s) && t in s.tasks && Fresh(s, pick)
    requires s.tasks[t].StartProbe? || s.tasks[t].LookupIndex? || s.tasks[t].LookupSession?
    ensures Inv(Advanced(max, s, t, pick))
  {
    var s' := Advanced(max, s, t, pick);
    SameHolders(s, s', t);
    if s.tasks[t].LookupIndex? && s.tasks[t].key in s.index { assert IndexOk(s, s.tasks[t].key); }
    QuietInv(s, s', t);
  }

  /** Same maps, same holders, no doomed state lost: only the stepping task needs a look. */
  lemma QuietInv(s: Store, s': Store, t: nat)
    requires Inv(s) && s'.sessions == s.sessions && s'.index == s.index && s'.issued == s.issued && HeldOnce(s')
    requires forall u :: u in s'.tasks && u != t ==> u in s.tasks && s'.tasks[u] == s.tasks[u]
    requires forall id :: Pending(s', id) <==> Pending(s, id)
    requires forall state :: Doomed(s, state) ==> Doomed(s', state)
    requires t in s'.tasks ==> TaskOk(s, s'.tasks[t])
    ensures Inv(s')
  {
    forall id | id in s'.sessions ensures SessionOk(s', id) { assert SessionOk(s, id); }
    forall state | state in s'.index ensures IndexOk(s', state) { assert IndexOk(s, state); }
    forall u | u in s'.tasks ensures TaskOk(s', s'.tasks[u]) {
      if u != t { assert TaskOk(s, s.tasks[u]); }
    }
  }

  lemma CheckKeeps(max: nat, s: Store, t: nat, pick: Pick)
    requires Inv(s) && t in s.tasks && Fresh(s, pick) && s.tasks[t].StartCheck?
    ensures Inv(Advanced(max, s, t, pick))
  {
    var s' := Advanced(max, s, t, pick);
    if |s.sessions| >= max {
      SameHolders(s, s', t);
      QuietInv(s, s', t);
    } else {
      CommitKeeps(s, t, Session(pick.id, pick.state, pick.now));
    }
  }

  /** A new id and state are issued to `t`. */
  lemma CommitKeeps(s: Store, t: nat, x: Session)
    requires Inv(s) && t in s.tasks && s.tasks[t].StartCheck? && x.id !in s.issued && x.state !in s.issued.Values
    ensures Inv(Goto(s.(issued := s.issued[x.id := x.state]), t, StartIndex(x)))
  {
    var s' := Goto(s.(issued := s.issued[x.id := x.state]), t, StartIndex(x));
    assert forall i :: i in s.issued ==> s.issued[i] in s.issued.Values;
    forall v | v in s.issued.Values ensures v in s'.issued.Values {
      var i :| i in s.issued && s.issued[i] == v;
      assert i in s'.issued && s'.issued[i] == v;
    }
    forall id ensures Pending(s', id) <==> Pending(s, id) || id == x.id {
      if Pending(s, id) {
        var u :| u in s.tasks && Holds(s.tasks[u], id);
        assert u in s'.tasks && Holds(s'.tasks[u], id);
      }
      if id == x.id { assert Holds(s'.tasks[t], id); }
    }
    forall state | Doomed(s, state) ensures Doomed(s', state) {
      var u :| u in s.tasks && s.tasks[u].Unindex? && state in s.tasks[u].states;
      assert u in s'.tasks && s'.tasks[u] == s.tasks[u];
    }
    forall state | state in s'.index ensures IndexOk(s', state) { assert IndexOk(s, state); }
    forall id | id in s'.sessions ensures SessionOk(s', id) { assert SessionOk(s, id); }
    forall u | u in s'.tasks ensures TaskOk(s', s'.tasks[u]) {
      if u != t { assert TaskOk(s, s.tasks[u]); } else { assert x.state in s.index ==> IndexOk(s, x.state); }
    }
    assert HeldOnce(s') by {
      forall u | u in s.tasks && IsCommitted(s.tasks[u]) ensures s.tasks[u].session.id != x.id {
        assert TaskOk(s, s.tasks[u]);
      }
    }
  }

  lemma IndexKeeps(max: nat, s: Store, t: nat, pick: Pick)
    requires Inv(s) && t in s.tasks && s.tasks[t].StartIndex?
    ensures Inv(Advanced(max, s, t, pick))
  {
    var s', x := Advanced(max, s, t, pick), s.tasks[t].session;
    assert TaskOk(s, s.tasks[t]);
    forall id ensures Pending(s', id) <==> Pending(s, id) {
      if Pending(s, id) {
        var u :| u in s.tasks && Holds(s.tasks[u], id);
        assert u in s'.tasks && Holds(s'.tasks[u], id);
      }
      if Pending(s', id) {
        var u :| u in s'.tasks && Holds(s'.tasks[u], id);
        assert u in s.tasks && Holds(s.tasks[u], id);
      }
    }
    assert Holds(s'.tasks[t], x.id);
    forall state | Doomed(s, state) ensures Doomed(s', state) {
      var u :| u in s.tasks && s.tasks[u].Unindex? && state in s.tasks[u].states;
      assert u in s'.tasks && s'.tasks[u] == s.tasks[u];
    }
    forall state | state in s'.index ensures IndexOk(s', state) { if state != x.state { assert IndexOk(s, state); } }
    forall id | id in s'.sessions ensures SessionOk(s', id) { assert SessionOk(s, id); }
    forall u | u in s'.tasks ensures TaskOk(s', s'.tasks[u]) {
      if u != t { assert TaskOk(s, s.tasks[u]); }
    }
  }

  lemma InsertKeeps(max: nat, s: Store, t: nat, pick: Pick)
    requires Inv(s) && t in s.tasks && s.tasks[t].StartInsert?
    ensures Inv(Advanced(max, s, t, pick))
  {
    var s', x := Advanced(max, s, t, pick), s.tasks[t].session;
    assert TaskOk(s, s.tasks[t]);
    assert Pending(s, x.id) by { assert Holds(s.tasks[t], x.id); }
    forall id ensures Pending(s', id) <==> Pending(s, id) && id != x.id {
      if Pending(s, id) && id != x.id {
        var u :| u in s.tasks && Holds(s.tasks[u], id);
        assert u in s'.tasks && Holds(s'.tasks[u], id);
      }
      if Pending(s', id) {
        var u :| u in s'.tasks && Holds(s'.tasks[u], id);
        assert u in s.tasks && Holds(s.tasks[u], id);
      }
    }
    forall state | Doomed(s, state) ensures Doomed(s', state) {
      var u :| u in s.tasks && s.tasks[u].Unindex? && state in s.tasks[u].states;
      assert u in s'.tasks && s'.tasks[u] == s.tasks[u];
    }
    forall state | state in s'.index ensures IndexOk(s', state) { assert IndexOk(s, state); }
    forall id | id in s'.sessions ensures SessionOk(s', id) { if id != x.id { assert SessionOk(s, id); } }
    forall u | u in s'.tasks ensures TaskOk(s', s'.tasks[u]) { assert TaskOk(s, s.tasks[u]); }
  }

  /** The states of stored sessions were issued, to those sessions only, and nobody holds them. */
  lemma TakenOutIsGone(s: Store, states: set<string>)
    requires Inv(s)
    requires forall state :: state in states ==> exists id :: id in s.sessions && s.sessions[id].state == state
    ensures states <= s.issued.Values
    ensures forall id :: id in s.issued && s.issued[id] in states ==>
              id in s.sessions && s.sessions[id].state == s.issued[id] && !Pending(s, id)
  {
    forall state | state in states ensures state in s.issued.Values {
      var j :| j in s.sessions && s.sessions[j].state == state;
      assert SessionOk(s, j) && s.issued[j] == state;
    }
    forall id | id in s.issued && s.issued[id] in states
      ensures id in s.sessions && s.sessions[id].state == s.issued[id] && !Pending(s, id)
    {
      var j :| j in s.sessions && s.sessions[j].state == s.issued[id];
      assert SessionOk(s, j);
      assert id == j;
      assert forall w :: w in s.tasks && Holds(s.tasks[w], id) ==> TaskOk(s, s.tasks[w]);
    }
  }

  /** Taking sessions out of the map: their states become doomed in the same step. */
  lemma TakeOutKeeps(s: Store, t: nat, kept: map<string, Session>, states: set<string>, starting: bool)
    requires Inv(s) && t in s.tasks && (s.tasks[t].RemoveSession? || s.tasks[t].Sweep?)
    requires kept.Keys <= s.sessions.Keys && forall id :: id in kept ==> kept[id] == s.sessions[id]
    requires forall id :: id in s.sessions ==> (id in kept <==> s.sessions[id].state !in states)
    requires forall state :: state in states ==> exists id :: id in s.sessions && s.sessions[id].state == state
    ensures Inv(Goto(s.(sessions := kept), t, Unindex(states, starting)))
  {
    var s' := Goto(s.(sessions := kept), t, Unindex(states, starting));
    SameHolders(s, s', t);
    forall state | state in states ensures Doomed(s', state) { assert s'.tasks[t].Unindex?; }
    forall id | id in kept ensures SessionOk(s', id) { assert SessionOk(s, id); }
    forall state | state in s'.index ensures IndexOk(s', state) {
      assert IndexOk(s, state);
      var id := s.index[state];
      if id in s.sessions { assert SessionOk(s, id); }
    }
    forall u | u in s'.tasks ensures TaskOk(s', s'.tasks[u]) {
      if u != t { assert TaskOk(s, s.tasks[u]); } else { TakenOutIsGone(s, states); }
    }
  }

  /** Other operations still doom what they doomed. */
  lemma StillDoomed(s: Store, s': Store, t: nat, state: string)
    requires forall u :: u in s.tasks && u != t ==> u in s'.tasks && s'.tasks[u] == s.tasks[u]
    requires t in s.tasks && s.tasks[t].Unindex? && state !in s.tasks[t].states && Doomed(s, state)
    ensures Doomed(s', state)
  {
    var u :| u in s.tasks && s.tasks[u].Unindex? && state in s.tasks[u].states;
    assert u in s'.tasks && s'.tasks[u] == s.tasks[u];
  }

  /** A pending session's state is not taken out of the index. */
  lemma HeldKeepsIndex(s: Store, u: nat, t: nat)
    requires Inv(s) && t in s.tasks && s.tasks[t].Unindex? && u in s.tasks && s.tasks[u].StartInsert?
    ensures s.tasks[u].session.state !in s.tasks[t].states
  {
    assert TaskOk(s, s.tasks[t]) && TaskOk(s, s.tasks[u]);
    assert Holds(s.tasks[u], s.tasks[u].session.id);
  }

  lemma UnindexKeeps(max: nat, s: Store, t: nat, pick: Pick)
    requires Inv(s) && t in s.tasks && s.tasks[t].Unindex?
    ensures Inv(Advanced(max, s, t, pick))
  {
    var s' := Advanced(max, s, t, pick);
    SameHolders(s, s', t);
    assert TaskOk(s, s.tasks[t]);
    forall id | id in s'.sessions ensures SessionOk(s', id) { assert SessionOk(s, id); }
    forall state | state in s'.index ensures IndexOk(s', state) {
      assert IndexOk(s, state);
      if Doomed(s, state) { StillDoomed(s, s', t, state); }
    }
    forall u | u in s'.tasks ensures TaskOk(s', s'.tasks[u]) {
      if u != t {
        assert TaskOk(s, s.tasks[u]);
        if s.tasks[u].StartInsert? { HeldKeepsIndex(s, u, t); }
      }
    }
  }

  /** Stored sessions have states of their own. */
  lemma OwnState(s: Store, j: string, k: string)
    requires Inv(s) && j in s.sessions && k in s.sessions && s.sessions[j].state == s.sessions[k].state
    ensures j == k
  {
    assert SessionOk(s, j) && SessionOk(s, k);
  }

  lemma RemoveKeeps(max: nat, s: Store, t: nat, pick: Pick)
    requires Inv(s) && t in s.tasks && s.tasks[t].RemoveSession?
    ensures Inv(Advanced(max, s, t, pick))
  {
    var id := s.tasks[t].target;
    if id in s.sessions {
      forall j | j in s.sessions && s.sessions[j].state == s.sessions[id].state ensures j == id { OwnState(s, j, id); }
      TakeOutKeeps(s, t, s.sessions - {id}, {s.sessions[id].state}, false);
    } else {
      SameHolders(s, Finish(s, t), t);
      QuietInv(s, Finish(s, t), t);
    }
  }

  lemma SweepKeeps(max: nat, s: Store, t: nat, pick: Pick)
    requires Inv(s) && t in s.tasks && s.tasks[t].Sweep?
    ensures Inv(Advanced(max, s, t, pick))
  {
    var cutoff := s.tasks[t].cutoff;
    forall j, k | j in s.sessions && k in s.sessions && s.sessions[j].state == s.sessions[k].state ensures j == k {
      OwnState(s, j, k);
    }
    TakeOutKeeps(s, t, Unexpired(s.sessions, cutoff), Expired(s.sessions, cutoff), s.tasks[t].starting);
  }

  lemma NextKeeps(max: nat, s: Store, a: Action, s': Store)
    requires Inv(s) && Next(max, s, a, s')
    ensures Inv(s')
  {
    match a
    case Begin(t, task) => BeginKeeps(s, t, task);
    case Advance(t, pick) =>
      match s.tasks[t]
      case StartCheck => CheckKeeps(max, s, t, pick);
      case StartIndex(_) => IndexKeeps(max, s, t, pick);
      case StartInsert(_) => InsertKeeps(max, s, t, pick);
      case RemoveSession(_) => RemoveKeeps(max, s, t, pick);
      case Sweep(_, _) => SweepKeeps(max, s, t, pick);
      case Unindex(_, _) => UnindexKeeps(max, s, t, pick);
      case _ => QuietKeeps(max, s, t, pick);
  }

  lemma {:induction false} RunKeeps(max: nat, run: seq<Store>, acts: seq<Action>, n: nat)
    requires IsRun(max, run, acts) && n < |run|
    ensures Inv(run[n])
  {
    if n > 0 {
      RunKeeps(max, run, acts, n - 1);
      assert Next(max, run[n - 1], acts[n - 1], run[n - 1 + 1]);
      NextKeeps(max, run[n - 1], acts[n - 1], run[n]);
    }
  }

  // ---------- What holds in every interleaving ----------

  /** Every stored session is found through the state index, under its own state. */
  lemma StoredIsFindable(max: nat, run: seq<Store>, acts: seq<Action>, n: nat, id: string)
    requires IsRun(max, run, acts) && n < |run| && id in run[n].sessions
    ensures var x := run[n].sessions[id]; x.id == id && x.state in run[n].index && run[n].index[x.state] == id
  {
    RunKeeps(max, run, acts, n);
    assert SessionOk(run[n], id);
  }

  /** What `get_by_state` answers when it takes its second step. */
  function Found(s: Store, t: nat): Option<Session>
    requires t in s.tasks && s.tasks[t].LookupSession?
  {
    var id := s.tasks[t].id;
    if id in s.sessions then Some(s.sessions[id]) else None
  }

  /** A lookup never answers with a session of another state, however much happened between its
      two steps. */
  lemma LookupNeverMixesStates(max: nat, run: seq<Store>, acts: seq<Action>, n: nat, t: nat)
    requires IsRun(max, run, acts) && n < |run| && t in run[n].tasks && run[n].tasks[t].LookupSession?
    ensures Found(run[n], t).Some? ==> Found(run[n], t).value.state == run[n].tasks[t].key
  {
    RunKeeps(max, run, acts, n);
    var s := run[n];
    assert TaskOk(s, s.tasks[t]);
    if Found(s, t).Some? { assert SessionOk(s, s.tasks[t].id); }
  }

  /** With nothing in flight the index is exactly the inverse of the session map. */
  lemma QuiescentInverse(max: nat, run: seq<Store>, acts: seq<Action>, n: nat, state: string, id: string)
    requires IsRun(max, run, acts) && n < |run| && run[n].tasks == map[]
    ensures state in run[n].index && run[n].index[state] == id <==>
            id in run[n].sessions && run[n].sessions[id].state == state
  {
    RunKeeps(max, run, acts, n);
    var s := run[n];
    if state in s.index && s.index[state] == id {
      assert IndexOk(s, state);
      assert SessionOk(s, id);
    }
    if id in s.sessions { assert SessionOk(s, id); }
  }
}
