/** What the documentation of `evaluate` says about destination groups that cannot be resolved, in
    both of its readings, against what the code does. */
module AclPermissive {
  import opened Wrappers
  import opened AclEval

  /** A rule that references an unresolved group is skipped, or only that target does not match. */
  datatype Reading = SkipRule | SkipTarget

  predicate SomeSource(p: Policy, rule: Rule, ctx: Context) { exists t :: t in rule.src && MatchesSource(p, t, ctx) }

  predicate SomeDestination(p: Policy, ds: seq<Option<DstTarget>>, ctx: Context) {
    exists d :: d in ds && d.Some? && MatchesDestination(p, None, d.value, ctx) == Ok(true)
  }

  /** Destination `k` names a group nobody resolves. */
  predicate Unresolved(p: Policy, ds: seq<Option<DstTarget>>, k: nat)
    requires k < |ds|
  {
    ds[k].Some? && ds[k].value.host.Group? && ds[k].value.host.name !in p.groups
  }

  predicate References(p: Policy, rule: Rule) { exists k :: 0 <= k < |rule.dst| && Unresolved(p, rule.dst, k) }

  predicate RuleMatches(reading: Reading, p: Policy, rule: Rule, ctx: Context) {
    && ProtoMatches(rule.proto, ctx.proto) && SomeSource(p, rule, ctx) && SomeDestination(p, rule.dst, ctx)
    && (reading.SkipRule? ==> !References(p, rule))
  }

  function Answer(p: Policy, i: nat): EvalResult
    requires i < |p.acls|
  {
    EvalResult(p.acls[i].action == Accept, Some(i), Some(p.acls[i].action))
  }

  function DocumentedFrom(reading: Reading, p: Policy, ctx: Context, i: nat): EvalResult
    requires i <= |p.acls|
    decreases |p.acls| - i
  {
    if i == |p.acls| then DEFAULT_DENY
    else if RuleMatches(reading, p, p.acls[i], ctx) then Answer(p, i)
    else DocumentedFrom(reading, p, ctx, i + 1)
  }

  /** The documented evaluation: the first matching rule answers, otherwise the default denial. */
  function Documented(reading: Reading, p: Policy, ctx: Context): EvalResult { DocumentedFrom(reading, p, ctx, 0) }

  predicate FirstMatch(reading: Reading, p: Policy, ctx: Context, k: nat) {
    && k < |p.acls| && RuleMatches(reading, p, p.acls[k], ctx)
    && forall j :: 0 <= j < k ==> !RuleMatches(reading, p, p.acls[j], ctx)
  }

  /** The evaluation ends at a rule that faults although some rule should answer. */
  predicate CutShort(reading: Reading, p: Policy, ctx: Context) {
    exists i: nat, k: nat :: i < |p.acls| && k < |p.acls| && Decides(p, None, ctx, i)
                        && RuleOutcome(p, None, p.acls[i], ctx).Fault? && RuleMatches(reading, p, p.acls[k], ctx)
  }

  /** The answer comes from a rule that should be skipped: it matches, and names an unresolved group
      further on. */
  predicate Overlooked(reading: Reading, p: Policy, ctx: Context) {
    reading.SkipRule? && exists i: nat :: i < |p.acls| && Decides(p, None, ctx, i)
                                          && RuleOutcome(p, None, p.acls[i], ctx) == Match && References(p, p.acls[i])
  }

  predicate Passed(p: Policy, ds: seq<Option<DstTarget>>, ctx: Context, k: nat)
    requires k <= |ds|
  {
    forall j :: 0 <= j < k ==> ds[j].None? || MatchesDestination(p, None, ds[j].value, ctx) == Ok(false)
  }

  lemma {:induction false} DstFaultIff(p: Policy, ds: seq<Option<DstTarget>>, ctx: Context)
    ensures DstOutcome(p, None, ds, ctx).Fault? <==>
            exists k :: 0 <= k < |ds| && Unresolved(p, ds, k) && Passed(p, ds, ctx, k)
  {
    if ds != [] {
      var rest := ds[1..];
      DstFaultIff(p, rest, ctx);
      var first := ds[0].None? || MatchesDestination(p, None, ds[0].value, ctx) == Ok(false);
      if k :| 0 <= k < |rest| && Unresolved(p, rest, k) && Passed(p, rest, ctx, k) {
        if first { assert Unresolved(p, ds, k + 1) && Passed(p, ds, ctx, k + 1); }
      }
      if k :| 0 <= k < |ds| && Unresolved(p, ds, k) && Passed(p, ds, ctx, k) {
        if k > 0 {
          assert Unresolved(p, rest, k - 1);
          forall j | 0 <= j < k - 1
            ensures rest[j].None? || MatchesDestination(p, None, rest[j].value, ctx) == Ok(false)
          {
            assert rest[j] == ds[j + 1];
          }
          assert Passed(p, rest, ctx, k - 1);
        }
      }
      if DstOutcome(p, None, ds, ctx).Fault? && !first { assert Unresolved(p, ds, 0) && Passed(p, ds, ctx, 0); }
    }
  }

  /** A rule faults exactly when it applies to the connection and reaches an undeclared group before
      any destination that matches. */
  lemma FaultIff(p: Policy, rule: Rule, ctx: Context)
    ensures RuleOutcome(p, None, rule, ctx).Fault? <==>
            && ProtoMatches(rule.proto, ctx.proto) && SomeSource(p, rule, ctx)
            && exists k :: 0 <= k < |rule.dst| && Unresolved(p, rule.dst, k) && Passed(p, rule.dst, ctx, k)
  {
    DstFaultIff(p, rule.dst, ctx);
  }

  lemma {:induction false} DstAgrees(p: Policy, ds: seq<Option<DstTarget>>, ctx: Context)
    ensures DstOutcome(p, None, ds, ctx) == Match ==> SomeDestination(p, ds, ctx)
    ensures DstOutcome(p, None, ds, ctx) == NoMatch ==> !SomeDestination(p, ds, ctx)
  {
    if ds != [] {
      DstAgrees(p, ds[1..], ctx);
      assert ds == [ds[0]] + ds[1..];
    }
  }

  /** A rule that does not match in the code matches in no reading; one that does matches in both,
      unless it is to be skipped. */
  lemma RuleAgrees(reading: Reading, p: Policy, rule: Rule, ctx: Context)
    ensures RuleOutcome(p, None, rule, ctx) == NoMatch ==> !RuleMatches(reading, p, rule, ctx)
    ensures RuleOutcome(p, None, rule, ctx) == Match ==>
              (RuleMatches(reading, p, rule, ctx) <==> !(reading.SkipRule? && References(p, rule)))
  {
    DstAgrees(p, rule.dst, ctx);
  }

  lemma {:induction false} DocumentedMeaning(reading: Reading, p: Policy, ctx: Context, i: nat)
    requires i <= |p.acls| && forall j :: 0 <= j < i ==> !RuleMatches(reading, p, p.acls[j], ctx)
    ensures var d := DocumentedFrom(reading, p, ctx, i);
            (d == DEFAULT_DENY && forall j :: 0 <= j < |p.acls| ==> !RuleMatches(reading, p, p.acls[j], ctx))
            || exists k :: 0 <= k < |p.acls| && FirstMatch(reading, p, ctx, k) && d == Answer(p, k)
    decreases |p.acls| - i
  {
    if i < |p.acls| {
      if RuleMatches(reading, p, p.acls[i], ctx) {
        assert FirstMatch(reading, p, ctx, i);
      } else {
        DocumentedMeaning(reading, p, ctx, i + 1);
      }
    }
  }

  lemma EvaluateMeaning(p: Policy, ctx: Context)
    ensures Undecided(p, None, ctx) ==> Evaluate(p, ctx) == DEFAULT_DENY
    ensures Undecided(p, None, ctx) || exists i: nat :: Decides(p, None, ctx, i)
    ensures forall i: nat :: Decides(p, None, ctx, i) ==>
              Evaluate(p, ctx) == if RuleOutcome(p, None, p.acls[i], ctx) == Match then Answer(p, i) else DEFAULT_DENY
  {
    FirstMatchWins(p, None, ctx);
  }

  /** The deciding rule answers as documented if it matches and need not be skipped; if it faults, no
      rule before it matches either. */
  lemma DecidingRule(reading: Reading, p: Policy, ctx: Context, i: nat)
    requires Decides(p, None, ctx, i)
    ensures forall j :: 0 <= j < i ==> !RuleMatches(reading, p, p.acls[j], ctx)
    ensures RuleOutcome(p, None, p.acls[i], ctx) == Match ==>
              (FirstMatch(reading, p, ctx, i) <==> !(reading.SkipRule? && References(p, p.acls[i])))
  {
    forall j | 0 <= j <= i { RuleAgrees(reading, p, p.acls[j], ctx); }
  }

  lemma OnlyDecider(reading: Reading, p: Policy, ctx: Context, i: nat)
    requires Decides(p, None, ctx, i)
    ensures CutShort(reading, p, ctx) <==>
              && RuleOutcome(p, None, p.acls[i], ctx).Fault?
              && exists k: nat :: k < |p.acls| && RuleMatches(reading, p, p.acls[k], ctx)
    ensures Overlooked(reading, p, ctx) <==>
              reading.SkipRule? && RuleOutcome(p, None, p.acls[i], ctx) == Match && References(p, p.acls[i])
  {
    forall j: nat | Decides(p, None, ctx, j) { DecidesOnce(p, None, ctx, i, j); }
  }

  /** In either reading the code answers as documented, rule and action included, exactly when it
      neither ends at a fault before a rule that should answer nor answers from a rule that should be
      skipped. Only the second can allow what the documentation denies. */
  lemma AsDocumentedIff(reading: Reading, p: Policy, ctx: Context)
    ensures Evaluate(p, ctx) == Documented(reading, p, ctx) <==>
            !CutShort(reading, p, ctx) && !Overlooked(reading, p, ctx)
    ensures CutShort(reading, p, ctx) ==> Evaluate(p, ctx) == DEFAULT_DENY
    ensures Evaluate(p, ctx).allowed && !Documented(reading, p, ctx).allowed ==> Overlooked(reading, p, ctx)
  {
    DocumentedMeaning(reading, p, ctx, 0);
    EvaluateMeaning(p, ctx);
    if Undecided(p, None, ctx) {
      forall j | 0 <= j < |p.acls| { RuleAgrees(reading, p, p.acls[j], ctx); }
    } else {
      var i: nat :| Decides(p, None, ctx, i);
      DecidingRule(reading, p, ctx, i);
      OnlyDecider(reading, p, ctx, i);
    }
  }

  // ---------- Policies on which they differ ----------

  const ANYWHERE := Some(DstTarget(Any, AnyPort))
  const UNKNOWN := Some(DstTarget(Group("group:unknown"), AnyPort))

  function ToAll(action: Action, ds: seq<Option<DstTarget>>): Rule { Rule(action, [Any], ds, None) }

  function Alone(rules: seq<Rule>): Policy { Policy(map[], map[], rules) }

  lemma OneDestination(p: Policy, action: Action, d: Option<DstTarget>, ctx: Context)
    requires p.groups == map[] && (d == ANYWHERE || d == UNKNOWN)
    ensures RuleOutcome(p, None, ToAll(action, [d]), ctx) ==
            if d == ANYWHERE then Match else Fault(UnsupportedTargetInPosition("group:unknown"))
    ensures SomeSource(p, ToAll(action, [d]), ctx)
  {
    var rule := ToAll(action, [d]);
    assert Any in rule.src && MatchesSource(p, Any, ctx);
    assert MatchesDestination(p, None, d.value, ctx) ==
           if d == ANYWHERE then Ok(true) else Err(UnsupportedTargetInPosition("group:unknown"));
    assert rule.dst[0] == d;
  }

  /** An unresolved group, then a rule for everything: both readings answer with the second rule,
      the code with the default denial, whatever the second rule's action. */
  lemma UnresolvedRuleFirst(reading: Reading, action: Action, ctx: Context)
    ensures var p := Alone([ToAll(Accept, [UNKNOWN]), ToAll(action, [ANYWHERE])]);
            && Evaluate(p, ctx) == DEFAULT_DENY
            && Documented(reading, p, ctx) == EvalResult(action == Accept, Some(1), Some(action))
  {
    var p := Alone([ToAll(Accept, [UNKNOWN]), ToAll(action, [ANYWHERE])]);
    OneDestination(p, Accept, UNKNOWN, ctx);
    OneDestination(p, action, ANYWHERE, ctx);
    RuleAgrees(reading, p, p.acls[1], ctx);
    assert !SomeDestination(p, p.acls[0].dst, ctx);
    assert DocumentedFrom(reading, p, ctx, 1) == Answer(p, 1);
  }

  lemma TwoDestinations(p: Policy, rule: Rule, ctx: Context)
    requires p.groups == map[]
    requires rule == ToAll(Accept, [UNKNOWN, ANYWHERE]) || rule == ToAll(Accept, [ANYWHERE, UNKNOWN])
    ensures RuleMatches(SkipTarget, p, rule, ctx) && !RuleMatches(SkipRule, p, rule, ctx)
    ensures if rule.dst[0] == UNKNOWN then RuleOutcome(p, None, rule, ctx).Fault?
            else RuleOutcome(p, None, rule, ctx) == Match
  {
    assert Any in rule.src && MatchesSource(p, Any, ctx);
    assert MatchesDestination(p, None, UNKNOWN.value, ctx).Err? &&
           MatchesDestination(p, None, ANYWHERE.value, ctx) == Ok(true);
    assert ANYWHERE in rule.dst && (Unresolved(p, rule.dst, 0) || Unresolved(p, rule.dst, 1));
  }

  /** An unresolved group and a matching destination in one rule: skipping the rule denies as the
      code does, skipping the target allows. */
  lemma UnresolvedTargetFirst(ctx: Context)
    ensures var p := Alone([ToAll(Accept, [UNKNOWN, ANYWHERE])]);
            && Evaluate(p, ctx) == DEFAULT_DENY && Documented(SkipRule, p, ctx) == DEFAULT_DENY
            && Documented(SkipTarget, p, ctx) == EvalResult(true, Some(0), Some(Accept))
  {
    var p := Alone([ToAll(Accept, [UNKNOWN, ANYWHERE])]);
    TwoDestinations(p, p.acls[0], ctx);
    assert DocumentedFrom(SkipRule, p, ctx, 1) == DEFAULT_DENY;
  }

  /** The other way round the rule should be skipped all the same, but the code allows. */
  lemma UnresolvedTargetLast(ctx: Context)
    ensures var p := Alone([ToAll(Accept, [ANYWHERE, UNKNOWN])]);
            && Evaluate(p, ctx) == EvalResult(true, Some(0), Some(Accept))
            && Documented(SkipRule, p, ctx) == DEFAULT_DENY
            && Documented(SkipTarget, p, ctx) == EvalResult(true, Some(0), Some(Accept))
  {
    var p := Alone([ToAll(Accept, [ANYWHERE, UNKNOWN])]);
    TwoDestinations(p, p.acls[0], ctx);
    assert DocumentedFrom(SkipRule, p, ctx, 1) == DEFAULT_DENY;
  }
}
