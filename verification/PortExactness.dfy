/** When compiling a policy to port ranges loses nothing: the compiled ports against the evaluator. */
module PortExactness {
  import opened Wrappers
  import opened AclEval
  import opened PortMap

  /** The one allowed end of a reversed span, which the probe keeps as a single port. */
  predicate Stray(p: Policy, ctx: Context, q: Port) {
    exists r :: r in Spans(p) && r.end < r.start
                && ((q == r.start && !Allows(p, ctx, r.end)) || (q == r.end && !Allows(p, ctx, r.start)))
  }

  /** What probing the two ends can represent: all ports allowed, or none strictly inside but strays. */
  ghost predicate Faithful(p: Policy, ctx: Context, s: PortRange) {
    if Allows(p, ctx, s.start) && Allows(p, ctx, s.end) then forall q: Port :: s.Contains(q) ==> Allows(p, ctx, q)
    else forall q: Port :: s.start < q < s.end && Allows(p, ctx, q) ==> Stray(p, ctx, q)
  }

  ghost predicate Exact(p: Policy, ctx: Context) {
    forall q: Port :: Covers(AllowedPorts(p, ctx), q) <==> Allows(p, ctx, q)
  }

  lemma ExactAt(p: Policy, ctx: Context, q: Port)
    requires Exact(p, ctx)
    ensures Covers(AllowedPorts(p, ctx), q) <==> Allows(p, ctx, q)
  {
  }

  lemma CoveredByProbe(p: Policy, ctx: Context, q: Port)
    requires !FastPath(p, ctx)
    ensures Covers(AllowedPorts(p, ctx), q) <==> exists s :: s in Spans(p) && Covers(ProbeSpan(p, ctx, s), q)
  {
    var probed := ProbeAll(p, ctx, Spans(p));
    NormalizedKeeps(probed, q);
    ProbeAllMembers(p, ctx, Spans(p));
    if s :| s in Spans(p) && Covers(ProbeSpan(p, ctx, s), q) {
      var r :| r in ProbeSpan(p, ctx, s) && r.Contains(q);
      assert r in probed;
    }
    if Covers(probed, q) {
      var r :| r in probed && r.Contains(q);
      var s :| s in Spans(p) && r in ProbeSpan(p, ctx, s);
      assert Covers(ProbeSpan(p, ctx, s), q);
    }
  }

  lemma ProbeFaithful(p: Policy, ctx: Context, s: PortRange, q: Port)
    requires Faithful(p, ctx, s)
    ensures Covers(ProbeSpan(p, ctx, s), q) ==> Allows(p, ctx, q)
    ensures s.Contains(q) && Allows(p, ctx, q) ==> Covers(ProbeSpan(p, ctx, s), q) || Stray(p, ctx, q)
  {
    var probe := ProbeSpan(p, ctx, s);
    if probe != [] { assert probe[0] in probe; }
  }

  lemma StrayIsProbed(p: Policy, ctx: Context, q: Port)
    requires Stray(p, ctx, q) && Allows(p, ctx, q)
    ensures exists s :: s in Spans(p) && Covers(ProbeSpan(p, ctx, s), q)
  {
    var r :| r in Spans(p) && r.end < r.start
             && ((q == r.start && !Allows(p, ctx, r.end)) || (q == r.end && !Allows(p, ctx, r.start)));
    assert PortRange(q, q) in ProbeSpan(p, ctx, r);
    assert Covers(ProbeSpan(p, ctx, r), q);
  }

  lemma FaithfulSuffices(p: Policy, ctx: Context)
    requires !FastPath(p, ctx) && forall s :: s in Spans(p) ==> Faithful(p, ctx, s)
    ensures Exact(p, ctx)
  {
    forall q: Port ensures Covers(AllowedPorts(p, ctx), q) <==> Allows(p, ctx, q) {
      CoveredByProbe(p, ctx, q);
      forall s | s in Spans(p) { ProbeFaithful(p, ctx, s, q); }
      if Allows(p, ctx, q) {
        AllowedInSpans(p, ctx, q);
        var s :| s in Spans(p) && s.Contains(q);
        if Stray(p, ctx, q) { StrayIsProbed(p, ctx, q); }
      }
    }
  }

  /** A probe inside some span is of that span, or a stray. */
  lemma ProbedInside(p: Policy, ctx: Context, s: PortRange, t: PortRange, q: Port)
    requires s in Spans(p) && t in Spans(p) && s.start < q < s.end && Covers(ProbeSpan(p, ctx, t), q)
    ensures Stray(p, ctx, q) || (Allows(p, ctx, s.start) && Allows(p, ctx, s.end))
  {
    if t.start <= t.end {
      NormalizedKeeps(Candidates(p.acls), q);
      SpansDisjoint(Spans(p), s, t, q);
    }
  }

  lemma SpansDisjoint(spans: seq<PortRange>, s: PortRange, t: PortRange, q: Port)
    requires Gapped(spans) && s in spans && t in spans && s.Contains(q) && t.Contains(q)
    ensures s == t
  {
    var i :| 0 <= i < |spans| && spans[i] == s;
    var j :| 0 <= j < |spans| && spans[j] == t;
    assert i == j;
  }

  lemma ExactIffFaithful(p: Policy, ctx: Context)
    requires !FastPath(p, ctx)
    ensures Exact(p, ctx) <==> forall s :: s in Spans(p) ==> Faithful(p, ctx, s)
  {
    if forall s :: s in Spans(p) ==> Faithful(p, ctx, s) { FaithfulSuffices(p, ctx); }
    if Exact(p, ctx) {
      forall s | s in Spans(p) ensures Faithful(p, ctx, s) { ExactIsFaithful(p, ctx, s); }
    }
  }

  lemma ExactIsFaithful(p: Policy, ctx: Context, s: PortRange)
    requires !FastPath(p, ctx) && Exact(p, ctx) && s in Spans(p)
    ensures Faithful(p, ctx, s)
  {
    var both := Allows(p, ctx, s.start) && Allows(p, ctx, s.end);
    forall q: Port | s.Contains(q)
      ensures both ==> Allows(p, ctx, q)
      ensures s.start < q < s.end && Allows(p, ctx, q) ==> both || Stray(p, ctx, q)
    {
      CoveredByProbe(p, ctx, q);
      if both {
        assert s in ProbeSpan(p, ctx, s) && Covers(ProbeSpan(p, ctx, s), q);
      } else if s.start < q < s.end && Allows(p, ctx, q) {
        var t :| t in Spans(p) && Covers(ProbeSpan(p, ctx, t), q);
        ProbedInside(p, ctx, s, t, q);
      }
    }
  }

  /** Off the fast path the compiled ports are exact when the decision is constant on each span. */
  lemma ConstantSuffices(p: Policy, ctx: Context)
    requires !FastPath(p, ctx)
    requires forall s, q: Port :: s in Spans(p) && s.Contains(q) ==> (Allows(p, ctx, q) <==> Allows(p, ctx, s.start))
    ensures Exact(p, ctx)
  {
    forall s | s in Spans(p) ensures Faithful(p, ctx, s) {
      assert s.start <= s.end ==> s.Contains(s.end);
    }
    FaithfulSuffices(p, ctx);
  }

  // ---------- The decision changes only where a written range begins or has just ended ----------

  lemma {:induction false} DstCongruent(p: Policy, ds: seq<Option<DstTarget>>, a: Context, b: Context)
    requires b == a.(dstPort := b.dstPort)
    requires forall k :: 0 <= k < |ds| && ds[k].Some? ==>
               (ds[k].value.ports.Contains(a.dstPort) <==> ds[k].value.ports.Contains(b.dstPort))
    ensures DstOutcome(p, None, ds, a) == DstOutcome(p, None, ds, b)
  {
    if ds != [] {
      forall k | 0 <= k < |ds[1..]| && ds[1..][k].Some?
        ensures ds[1..][k].value.ports.Contains(a.dstPort) <==> ds[1..][k].value.ports.Contains(b.dstPort)
      {
        assert ds[1..][k] == ds[k + 1];
      }
      DstCongruent(p, ds[1..], a, b);
      if ds[0].Some? { DestinationSideOnly(p, None, ds[0].value, a, b); }
    }
  }

  /** Two ports that the same ranges contain. */
  predicate Alike(rs: seq<PortRange>, a: Port, b: Port) { forall r :: r in rs ==> (r.Contains(a) <==> r.Contains(b)) }

  lemma RuleCongruent(p: Policy, i: nat, a: Context, b: Context)
    requires i < |p.acls| && b == a.(dstPort := b.dstPort) && Alike(Candidates(p.acls), a.dstPort, b.dstPort)
    ensures RuleOutcome(p, None, p.acls[i], a) == RuleOutcome(p, None, p.acls[i], b)
  {
    var ds := p.acls[i].dst;
    RuleListed(p.acls, i);
    forall k | 0 <= k < |ds| && ds[k].Some?
      ensures ds[k].value.ports.Contains(a.dstPort) <==> ds[k].value.ports.Contains(b.dstPort)
    {
      DstListed(ds, k);
      PortsByRanges(ds[k].value, a.dstPort);
      PortsByRanges(ds[k].value, b.dstPort);
    }
    DstCongruent(p, ds, a, b);
    forall t | t in p.acls[i].src ensures MatchesSource(p, t, a) == MatchesSource(p, t, b) {
      SourceSideOnly(p, t, a, b);
    }
  }

  lemma {:induction false} TryCongruent(p: Policy, i: nat, a: Context, b: Context)
    requires i <= |p.acls| && b == a.(dstPort := b.dstPort) && Alike(Candidates(p.acls), a.dstPort, b.dstPort)
    ensures TryFrom(p, None, a, i) == TryFrom(p, None, b, i)
    decreases |p.acls| - i
  {
    if i < |p.acls| {
      RuleCongruent(p, i, a, b);
      TryCongruent(p, i + 1, a, b);
    }
  }

  /** Port 0, every first port of a range, and every port after a range's last. */
  function Boundaries(rs: seq<PortRange>): set<Port> {
    {0} + (set r | r in rs :: r.start) + set r | r in rs && r.end < 65535 :: r.end + 1
  }

  lemma RangeBoundaries(rs: seq<PortRange>, r: PortRange)
    requires r in rs
    ensures r.start in Boundaries(rs) && (r.end < 65535 ==> r.end + 1 in Boundaries(rs))
  {
  }

  lemma AlikeBelow(rs: seq<PortRange>, q: Port)
    requires q > 0 && q !in Boundaries(rs)
    ensures Alike(rs, q - 1, q)
  {
    forall r | r in rs ensures r.Contains(q - 1) <==> r.Contains(q) {
      RangeBoundaries(rs, r);
    }
  }

  /** Between boundaries the decision does not change. */
  lemma SameAsBelow(p: Policy, ctx: Context, q: Port)
    requires q > 0 && q !in Boundaries(Candidates(p.acls))
    ensures Allows(p, ctx, q - 1) <==> Allows(p, ctx, q)
  {
    AlikeBelow(Candidates(p.acls), q);
    TryCongruent(p, 0, ctx.(dstPort := q - 1), ctx.(dstPort := q));
  }

  /** Every port is decided like some boundary at or below it, above any given boundary. */
  lemma {:induction false} FromBoundary(p: Policy, ctx: Context, lo: Port, q: Port) returns (b: Port)
    requires lo in Boundaries(Candidates(p.acls)) && lo <= q
    ensures b in Boundaries(Candidates(p.acls)) && lo <= b <= q && (Allows(p, ctx, b) <==> Allows(p, ctx, q))
    decreases q
  {
    if q in Boundaries(Candidates(p.acls)) {
      b := q;
    } else {
      SameAsBelow(p, ctx, q);
      b := FromBoundary(p, ctx, lo, q - 1);
    }
  }

  /** The boundaries, and the ports right after them. */
  function Checkpoints(rs: seq<PortRange>): set<Port> {
    Boundaries(rs) + set b | b in Boundaries(rs) && b < 65535 :: b + 1
  }

  /** No checkpoint strictly inside the span is allowed, strays aside. */
  predicate OnlyStrays(p: Policy, ctx: Context, s: PortRange) {
    forall c :: c in Checkpoints(Candidates(p.acls)) && s.start < c < s.end && Allows(p, ctx, c) ==> Stray(p, ctx, c)
  }

  /** Faithfulness, looked at where the written ranges begin and end. */
  predicate ChecksOut(p: Policy, ctx: Context, s: PortRange) {
    var rs := Candidates(p.acls);
    if Allows(p, ctx, s.start) && Allows(p, ctx, s.end)
    then forall b :: b in Boundaries(rs) && s.Contains(b) ==> Allows(p, ctx, b)
    else OnlyStrays(p, ctx, s)
  }

  lemma EndsAreBoundaries(p: Policy, s: PortRange)
    requires s in Spans(p)
    ensures s.start in Boundaries(Candidates(p.acls)) && (s.end < 65535 ==> s.end + 1 in Boundaries(Candidates(p.acls)))
  {
    NormalizedKeeps(Candidates(p.acls), 0);
    assert FromStart(Candidates(p.acls), s.start) && FromEnd(Candidates(p.acls), s.end);
    var r :| r in Candidates(p.acls) && r.start == s.start;
    var e :| e in Candidates(p.acls) && e.end == s.end;
    RangeBoundaries(Candidates(p.acls), r);
    RangeBoundaries(Candidates(p.acls), e);
  }

  /** A stray is a boundary or comes right before one. */
  lemma StrayAtBoundary(p: Policy, ctx: Context, q: Port)
    requires Stray(p, ctx, q)
    ensures q in Boundaries(Candidates(p.acls)) || (q < 65535 && q + 1 in Boundaries(Candidates(p.acls)))
  {
    forall r | r in Spans(p) { EndsAreBoundaries(p, r); }
  }

  lemma BelowCheckpoint(rs: seq<PortRange>, q: Port)
    requires q > 0 && q !in Checkpoints(rs)
    ensures q !in Boundaries(rs) && q - 1 !in Boundaries(rs)
  {
  }

  /** Between checkpoints the port below is inside as well, and decided alike. */
  lemma StepBelow(p: Policy, ctx: Context, s: PortRange, q: Port)
    requires s in Spans(p) && s.start < q && q !in Checkpoints(Candidates(p.acls))
    ensures s.start < q - 1 && (Allows(p, ctx, q - 1) <==> Allows(p, ctx, q))
    ensures q - 1 !in Boundaries(Candidates(p.acls)) && q !in Boundaries(Candidates(p.acls))
  {
    EndsAreBoundaries(p, s);
    BelowCheckpoint(Candidates(p.acls), q);
    SameAsBelow(p, ctx, q);
  }

  /** Checking the checkpoints inside a span checks every port inside it. */
  lemma {:induction false} InsideIsStray(p: Policy, ctx: Context, s: PortRange, q: Port)
    requires s in Spans(p) && s.start < q < s.end && Allows(p, ctx, q) && OnlyStrays(p, ctx, s)
    ensures Stray(p, ctx, q)
    decreases q
  {
    if q !in Checkpoints(Candidates(p.acls)) {
      StepBelow(p, ctx, s, q);
      InsideIsStray(p, ctx, s, q - 1);
      StrayAtBoundary(p, ctx, q - 1);
      assert false;
    }
  }

  lemma FaithfulIffChecksOut(p: Policy, ctx: Context, s: PortRange)
    requires s in Spans(p)
    ensures Faithful(p, ctx, s) <==> ChecksOut(p, ctx, s)
  {
    if ChecksOut(p, ctx, s) {
      if Allows(p, ctx, s.start) && Allows(p, ctx, s.end) {
        forall q: Port | s.Contains(q) ensures Allows(p, ctx, q) {
          EndsAreBoundaries(p, s);
          var b := FromBoundary(p, ctx, s.start, q);
        }
      } else {
        forall q: Port | s.start < q < s.end && Allows(p, ctx, q) ensures Stray(p, ctx, q) {
          InsideIsStray(p, ctx, s, q);
        }
      }
    }
  }

  /** The compiled ports are exactly the allowed ones if and only if a finite check of the policy
      succeeds: on the fast path every boundary is allowed; off it, in each span whose ends are both
      allowed every boundary is, and in any other span no port at or after a boundary is, strays
      aside. */
  lemma ExactIff(p: Policy, ctx: Context)
    ensures Exact(p, ctx) <==>
            if FastPath(p, ctx) then forall b :: b in Boundaries(Candidates(p.acls)) ==> Allows(p, ctx, b)
            else forall s :: s in Spans(p) ==> ChecksOut(p, ctx, s)
  {
    if FastPath(p, ctx) {
      FastPathExact(p, ctx);
      if forall b :: b in Boundaries(Candidates(p.acls)) ==> Allows(p, ctx, b) {
        forall q: Port ensures Allows(p, ctx, q) { var b := FromBoundary(p, ctx, 0, q); }
      }
    } else {
      ExactIffFaithful(p, ctx);
      forall s | s in Spans(p) { FaithfulIffChecksOut(p, ctx, s); }
    }
  }

  lemma FastPathExact(p: Policy, ctx: Context)
    requires FastPath(p, ctx)
    ensures Exact(p, ctx) <==> forall q: Port :: Allows(p, ctx, q)
  {
    assert ALL_PORTS in AllowedPorts(p, ctx);
    assert forall q: Port :: ALL_PORTS.Contains(q);
    assert forall q: Port :: Covers(AllowedPorts(p, ctx), q);
  }

  lemma {:induction false} ProbeNothingIff(p: Policy, ctx: Context, spans: seq<PortRange>)
    ensures ProbeAll(p, ctx, spans) == [] <==>
            forall s :: s in spans ==> !Allows(p, ctx, s.start) && !Allows(p, ctx, s.end)
  {
    if spans != [] {
      var n := |spans| - 1;
      ProbeNothingIff(p, ctx, spans[..n]);
      assert spans == spans[..n] + [spans[n]];
    }
  }

  /** Destination `k` of rule `i` writes the range, a star standing for all ports. */
  predicate Writes(rules: seq<Rule>, i: nat, k: nat, r: PortRange) {
    && i < |rules| && k < |rules[i].dst| && rules[i].dst[k].Some?
    && var ports := rules[i].dst[k].value.ports;
       (ports == AnyPort && r == PortRange(0, 65535)) || (ports.Ports? && r in ports.ranges)
  }

  /** The candidates are the ranges written in some rule. */
  lemma {:induction false} CandidateIff(rules: seq<Rule>, r: PortRange)
    ensures r in Candidates(rules) <==> exists i: nat, k: nat :: Writes(rules, i, k, r)
  {
    if rules != [] {
      var n := |rules| - 1;
      CandidateIff(rules[..n], r);
      WritesBelow(rules, n, r);
      LastWrites(rules, r);
    }
  }

  lemma WritesBelow(rules: seq<Rule>, n: nat, r: PortRange)
    requires n <= |rules|
    ensures forall i: nat, k: nat :: Writes(rules[..n], i, k, r) <==> i < n && Writes(rules, i, k, r)
  {
  }

  lemma LastWrites(rules: seq<Rule>, r: PortRange)
    requires rules != []
    ensures var n := |rules| - 1; r in RuleRanges(rules[n].dst) <==> exists k: nat :: Writes(rules, n, k, r)
  {
    var n := |rules| - 1;
    RuleRangeIff(rules[n].dst, r);
    if k :| 0 <= k < |rules[n].dst| && r in DstRanges(rules[n].dst[k]) { assert Writes(rules, n, k, r); }
  }

  lemma {:induction false} RuleRangeIff(ds: seq<Option<DstTarget>>, r: PortRange)
    ensures r in RuleRanges(ds) <==> exists k :: 0 <= k < |ds| && r in DstRanges(ds[k])
  {
    if ds != [] {
      var n := |ds| - 1;
      RuleRangeIff(ds[..n], r);
      assert forall k :: 0 <= k < n ==> ds[..n][k] == ds[k];
      if r in RuleRanges(ds[..n]) {
        var k :| 0 <= k < n && r in DstRanges(ds[..n][k]);
        assert r in DstRanges(ds[k]);
      }
    }
  }

  /** A span whose two ends were probed yields the port. */
  predicate Yields(p: Policy, ctx: Context, s: PortRange, q: Port) {
    var first, last := Evaluate(p, ctx.(dstPort := s.start)).allowed, Evaluate(p, ctx.(dstPort := s.end)).allowed;
    (first && last && s.start <= q <= s.end) || (first && !last && q == s.start) || (last && !first && q == s.end)
  }

  lemma YieldsIff(p: Policy, ctx: Context, s: PortRange, q: Port)
    ensures Covers(ProbeSpan(p, ctx, s), q) <==> Yields(p, ctx, s, q)
  {
    var probe := ProbeSpan(p, ctx, s);
    if probe != [] { assert probe[0] in probe; }
  }

  /** A port is compiled exactly when ports 0 and 65535 are both allowed, or some span yields it: all of
      it when both ends are allowed, otherwise the one end that is. */
  lemma CompiledIff(p: Policy, ctx: Context, q: Port)
    ensures Covers(AllowedPorts(p, ctx), q) <==>
            || (Evaluate(p, ctx.(dstPort := 0)).allowed && Evaluate(p, ctx.(dstPort := 65535)).allowed)
            || exists s :: s in Spans(p) && Yields(p, ctx, s, q)
  {
    if FastPath(p, ctx) {
      assert ALL_PORTS in AllowedPorts(p, ctx) && ALL_PORTS.Contains(q);
    } else {
      CoveredByProbe(p, ctx, q);
      forall s | s in Spans(p) ensures Covers(ProbeSpan(p, ctx, s), q) <==> Yields(p, ctx, s, q) {
        YieldsIff(p, ctx, s, q);
      }
    }
  }

  /** No port at all is compiled exactly when neither the fast path nor any span end is allowed. */
  lemma NothingCompiledIff(p: Policy, ctx: Context)
    ensures AllowedPorts(p, ctx) == [] <==>
            !FastPath(p, ctx) && forall s :: s in Spans(p) ==> !Allows(p, ctx, s.start) && !Allows(p, ctx, s.end)
  {
    ProbeNothingIff(p, ctx, Spans(p));
    NormalizedKeeps(ProbeAll(p, ctx, Spans(p)), 0);
  }

  /** Some port is allowed exactly when some boundary is. */
  lemma ReachableIff(p: Policy, ctx: Context)
    ensures (exists q: Port :: Allows(p, ctx, q)) <==>
            exists b: Port :: b in Boundaries(Candidates(p.acls)) && Allows(p, ctx, b)
  {
    if q: Port :| Allows(p, ctx, q) {
      var b := FromBoundary(p, ctx, 0, q);
      assert b in Boundaries(Candidates(p.acls)) && Allows(p, ctx, b);
    }
  }

  function Everyone(action: Action, r: PortRange): Rule {
    Rule(action, [Any], [Some(DstTarget(Any, Ports([r])))], None)
  }

  lemma EveryoneOutcome(p: Policy, action: Action, r: PortRange, ctx: Context)
    ensures RuleOutcome(p, None, Everyone(action, r), ctx) == if r.Contains(ctx.dstPort) then Match else NoMatch
    ensures RuleRanges(Everyone(action, r).dst) == [r]
  {
    var rule := Everyone(action, r);
    assert MatchesSource(p, Any, ctx) && Any in rule.src;
    assert r in [r];
    assert rule.dst[1..] == [] && rule.dst[..0] == [];
    assert MatchesDestination(p, None, rule.dst[0].value, ctx) == Ok(r.Contains(ctx.dstPort));
    assert DstOutcome(p, None, rule.dst[1..], ctx) == NoMatch;
    assert DstOutcome(p, None, rule.dst, ctx) == if r.Contains(ctx.dstPort) then Match else NoMatch;
    assert ProtoMatches(rule.proto, ctx.proto);
  }

  function DenyThenAccept(denied: PortRange, accepted: PortRange): Policy {
    Policy(map[], map[], [Everyone(Deny, denied), Everyone(Accept, accepted)])
  }

  lemma DenyThenAcceptMeaning(denied: PortRange, accepted: PortRange, ctx: Context, q: Port)
    ensures Allows(DenyThenAccept(denied, accepted), ctx, q) <==> accepted.Contains(q) && !denied.Contains(q)
  {
    var p, c := DenyThenAccept(denied, accepted), ctx.(dstPort := q);
    EveryoneOutcome(p, Deny, denied, c);
    EveryoneOutcome(p, Accept, accepted, c);
    assert TryFrom(p, None, c, 1) ==
           if accepted.Contains(q) then Ok(EvalResult(true, Some(1), Some(Accept))) else Ok(DEFAULT_DENY);
  }

  lemma DenyThenAcceptRanges(denied: PortRange, accepted: PortRange, ctx: Context)
    ensures Candidates(DenyThenAccept(denied, accepted).acls) == [denied, accepted]
  {
    var p := DenyThenAccept(denied, accepted);
    var deny, accept := p.acls[0], p.acls[1];
    EveryoneOutcome(p, Deny, denied, ctx);
    EveryoneOutcome(p, Accept, accepted, ctx);
    assert [deny, accept][..1] == [deny] && [deny][..0] == [];
    assert Candidates([deny]) == [denied];
  }

  /** Ports denied in the middle of a span whose ends are allowed: the compiled range includes them. */
  lemma DeniedInsideSpan(ctx: Context, denied: PortRange, accepted: PortRange)
    requires 0 < accepted.start < denied.start <= denied.end < accepted.end
    ensures var p := DenyThenAccept(denied, accepted);
            !FastPath(p, ctx) && !Allows(p, ctx, denied.start) && Covers(AllowedPorts(p, ctx), denied.start)
  {
    var p := DenyThenAccept(denied, accepted);
    DenyThenAcceptMeaning(denied, accepted, ctx, 0);
    DenyThenAcceptMeaning(denied, accepted, ctx, accepted.start);
    DenyThenAcceptMeaning(denied, accepted, ctx, accepted.end);
    DenyThenAcceptMeaning(denied, accepted, ctx, denied.start);
    DenyThenAcceptRanges(denied, accepted, ctx);
    NestedNormalizes(denied, accepted);
    KeptWhole(p, ctx, accepted, denied.start);
  }

  /** Off the fast path a span whose ends are both allowed is compiled whole. */
  lemma KeptWhole(p: Policy, ctx: Context, s: PortRange, q: Port)
    requires !FastPath(p, ctx) && s in Spans(p) && Allows(p, ctx, s.start) && Allows(p, ctx, s.end) && s.Contains(q)
    ensures Covers(AllowedPorts(p, ctx), q)
  {
    CoveredByProbe(p, ctx, q);
    assert s in ProbeSpan(p, ctx, s);
    assert Covers(ProbeSpan(p, ctx, s), q);
  }

  /** Ports denied before everything is accepted: the fast path compiles to every port. */
  lemma DeniedOnFastPath(ctx: Context, denied: PortRange)
    requires 0 < denied.start <= denied.end < 65535
    ensures var p := DenyThenAccept(denied, ALL_PORTS);
            FastPath(p, ctx) && !Allows(p, ctx, denied.start) && AllowedPorts(p, ctx) == [ALL_PORTS]
  {
    DenyThenAcceptMeaning(denied, ALL_PORTS, ctx, 0);
    DenyThenAcceptMeaning(denied, ALL_PORTS, ctx, 65535);
    DenyThenAcceptMeaning(denied, ALL_PORTS, ctx, denied.start);
  }

  /** Some ports for everyone, a range around them for a tag. */
  function AroundForTag(inner: PortRange, outer: PortRange, tag: string): Policy {
    Policy(map[], map[],
           [Everyone(Accept, inner), Rule(Accept, [Tag(tag)], [Some(DstTarget(Any, Ports([outer])))], None)])
  }

  lemma AroundForTagMeaning(inner: PortRange, outer: PortRange, tag: string, ctx: Context, q: Port)
    requires tag !in ctx.srcTags
    ensures Allows(AroundForTag(inner, outer, tag), ctx, q) <==> inner.Contains(q)
  {
    var p, c := AroundForTag(inner, outer, tag), ctx.(dstPort := q);
    EveryoneOutcome(p, Accept, inner, c);
    assert forall t :: t in p.acls[1].src ==> t == Tag(tag) && !MatchesSource(p, t, c);
    assert RuleOutcome(p, None, p.acls[1], c) == NoMatch;
    assert TryFrom(p, None, c, 2) == Ok(DEFAULT_DENY) && TryFrom(p, None, c, 1) == Ok(DEFAULT_DENY);
  }

  lemma AroundForTagRanges(inner: PortRange, outer: PortRange, tag: string, ctx: Context)
    ensures Candidates(AroundForTag(inner, outer, tag).acls) == [inner, outer]
  {
    var p := AroundForTag(inner, outer, tag);
    var one, two := p.acls[0], p.acls[1];
    EveryoneOutcome(p, Accept, inner, ctx);
    assert two.dst[..0] == [] && RuleRanges(two.dst) == [outer];
    assert [one, two][..1] == [one] && [one][..0] == [];
    assert Candidates([one]) == [inner];
  }

  /** An allowed port that is lost: for a source without the tag nothing is compiled. */
  lemma LostInsideSpan(ctx: Context, inner: PortRange, outer: PortRange, tag: string)
    requires tag !in ctx.srcTags && outer.start < inner.start <= inner.end < outer.end
    ensures var p := AroundForTag(inner, outer, tag); Allows(p, ctx, inner.start) && AllowedPorts(p, ctx) == []
  {
    var p := AroundForTag(inner, outer, tag);
    AroundForTagMeaning(inner, outer, tag, ctx, 0);
    AroundForTagMeaning(inner, outer, tag, ctx, inner.start);
    AroundForTagMeaning(inner, outer, tag, ctx, outer.start);
    AroundForTagMeaning(inner, outer, tag, ctx, outer.end);
    AroundForTagRanges(inner, outer, tag, ctx);
    NestedNormalizes(inner, outer);
    NothingCompiledIff(p, ctx);
  }

  lemma NestedNormalizes(inner: PortRange, outer: PortRange)
    requires outer.start < inner.start <= inner.end < outer.end
    ensures Normalized([inner, outer]) == [outer]
  {
    assert [inner, outer][1..] == [outer] && [outer][1..] == [];
    assert SortRanges([outer]) == [outer] && SortRanges([inner]) == [inner];
    assert SortRanges([inner, outer]) == [outer, inner];
    assert [outer, inner][..1] == [outer] && [outer, inner][1..] == [inner] && [inner][1..] == [];
    assert Dedup([outer, inner]) == [outer, inner];
    assert SortRanges([outer, inner]) == [outer, inner];
    assert [outer][..0] == [];
    assert MergeSorted([outer]) == [outer];
  }
}
