/** Comparing two policies against the active sessions. */
module AclDiff {
  import opened Wrappers
  import opened AclEval

  datatype ActiveSession = ActiveSession(srcUser: Option<string>, srcGroups: seq<string>, srcTags: seq<string>,
                                         srcIp: Ip,
                                         dstIp: Ip, dstTags: seq<string>, dstPort: Port, name: string)

  datatype Effect = WillDrop | WillAllow

  datatype Entry = Entry(session: string, effect: Effect, oldRule: Option<nat>, newRule: Option<nat>)

  function ContextOf(s: ActiveSession): Context {
    Context(s.srcUser, s.srcGroups, s.srcTags, s.srcIp, s.dstIp, s.dstTags, s.dstPort, None, None)
  }

  function EntryFor(before: Policy, after: Policy, s: ActiveSession): Option<Entry> {
    var x, y := Evaluate(before, ContextOf(s)), Evaluate(after, ContextOf(s));
    if x.allowed == y.allowed then None
    else Some(Entry(s.name, if x.allowed then WillDrop else WillAllow, x.matchingRule, y.matchingRule))
  }

  function Compute(before: Policy, after: Policy, sessions: seq<ActiveSession>): seq<Entry> {
    if sessions == [] then []
    else
      var n := |sessions| - 1;
      var front, last := Compute(before, after, sessions[..n]), EntryFor(before, after, sessions[n]);
      if last.Some? then front + [last.value] else front
  }

  /** Whether a policy allows a session, from the session's own fields: its destination has no known
      owner and it names no protocol. */
  function Allowing(p: Policy, s: ActiveSession): EvalResult {
    Evaluate(p, Context(s.srcUser, s.srcGroups, s.srcTags, s.srcIp, s.dstIp, s.dstTags, s.dstPort, None, None))
  }

  function CountEffect(es: seq<Entry>, f: Effect): nat {
    if es == [] then 0 else CountEffect(es[..|es| - 1], f) + if es[|es| - 1].effect == f then 1 else 0
  }

  lemma CountSnoc(es: seq<Entry>, e: Entry, f: Effect)
    ensures CountEffect(es + [e], f) == CountEffect(es, f) + if e.effect == f then 1 else 0
  {
    assert (es + [e])[..|es|] == es;
  }

  function DroppedCount(es: seq<Entry>): nat { CountEffect(es, WillDrop) }

  function AllowedCount(es: seq<Entry>): nat { CountEffect(es, WillAllow) }

  /** How many of the sessions get another decision. */
  function Changes(before: Policy, after: Policy, sessions: seq<ActiveSession>): nat {
    if sessions == [] then 0
    else
      var n := |sessions| - 1;
      var x, y := Allowing(before, sessions[n]), Allowing(after, sessions[n]);
      Changes(before, after, sessions[..n]) + if x.allowed != y.allowed then 1 else 0
  }

  lemma {:induction false} DiffSize(before: Policy, after: Policy, sessions: seq<ActiveSession>)
    ensures |Compute(before, after, sessions)| == Changes(before, after, sessions)
  {
    if sessions != [] { DiffSize(before, after, sessions[..|sessions| - 1]); }
  }

  /** The diff lists exactly the sessions whose decision changes, in order: a changed session stands
      at the position given by the number of changed sessions before it, and there are no others. */
  lemma {:induction false} DiffExact(before: Policy, after: Policy, sessions: seq<ActiveSession>, i: nat)
    requires i < |sessions|
    ensures |Compute(before, after, sessions)| == Changes(before, after, sessions)
    ensures var es, k := Compute(before, after, sessions), Changes(before, after, sessions[..i]);
            var s := sessions[i];
            var ctx := Context(s.srcUser, s.srcGroups, s.srcTags, s.srcIp, s.dstIp, s.dstTags, s.dstPort, None, None);
            var x, y := Evaluate(before, ctx), Evaluate(after, ctx);
            && (x.allowed && !y.allowed ==>
                  k < |es| && es[k] == Entry(s.name, WillDrop, x.matchingRule, y.matchingRule))
            && (!x.allowed && y.allowed ==>
                  k < |es| && es[k] == Entry(s.name, WillAllow, x.matchingRule, y.matchingRule))
  {
    var n := |sessions| - 1;
    var front := sessions[..n];
    DiffSize(before, after, sessions);
    DiffSize(before, after, front);
    if i < n {
      DiffExact(before, after, front, i);
      assert front[..i] == sessions[..i];
    }
  }

  /** How many of the sessions the first policy allows and the second does not. */
  function Lost(before: Policy, after: Policy, sessions: seq<ActiveSession>): nat {
    if sessions == [] then 0
    else
      var n := |sessions| - 1;
      var x, y := Allowing(before, sessions[n]), Allowing(after, sessions[n]);
      Lost(before, after, sessions[..n]) + if x.allowed && !y.allowed then 1 else 0
  }

  /** The two counts are the sessions lost one way and lost the other way. */
  lemma {:induction false} CountsMeaning(before: Policy, after: Policy, sessions: seq<ActiveSession>)
    ensures var es := Compute(before, after, sessions);
            DroppedCount(es) == Lost(before, after, sessions) && AllowedCount(es) == Lost(after, before, sessions)
  {
    if sessions != [] {
      var n := |sessions| - 1;
      CountsMeaning(before, after, sessions[..n]);
      var front, e := Compute(before, after, sessions[..n]), EntryFor(before, after, sessions[n]);
      if e.Some? {
        CountSnoc(front, e.value, WillDrop);
        CountSnoc(front, e.value, WillAllow);
      }
    }
  }

  function Swapped(e: Entry): Entry {
    Entry(e.session, if e.effect == WillDrop then WillAllow else WillDrop, e.newRule, e.oldRule)
  }

  /** Exchanging the policies exchanges drops and allows, entry by entry. */
  lemma {:induction false} SwapPolicies(before: Policy, after: Policy, sessions: seq<ActiveSession>)
    ensures var there, back := Compute(before, after, sessions), Compute(after, before, sessions);
            && |back| == |there| && (forall i :: 0 <= i < |there| ==> back[i] == Swapped(there[i]))
            && DroppedCount(back) == AllowedCount(there) && AllowedCount(back) == DroppedCount(there)
            && DroppedCount(there) + AllowedCount(there) == |there|
  {
    if sessions != [] {
      var n := |sessions| - 1;
      SwapPolicies(before, after, sessions[..n]);
      var e, f := EntryFor(before, after, sessions[n]), EntryFor(after, before, sessions[n]);
      if e.Some? {
        var there, back := Compute(before, after, sessions[..n]), Compute(after, before, sessions[..n]);
        CountSnoc(there, e.value, WillDrop);
        CountSnoc(there, e.value, WillAllow);
        CountSnoc(back, f.value, WillDrop);
        CountSnoc(back, f.value, WillAllow);
      }
    }
  }
}
