/** The ACL evaluator: rules are tried in order and the first one that does not fail to match
    decides. Targets and ports are in parsed form; a destination that does not parse is `None`. */
module AclEval {
  import opened Wrappers
  import Groups

  type Port = n: nat | n < 65536

  datatype Ip = Ip(v6: bool, addr: nat)

  /** A CIDR block as the interval of addresses it holds. */
  datatype Net = Net(v6: bool, lo: nat, hi: nat) {
    predicate Contains(ip: Ip) { ip.v6 == v6 && lo <= ip.addr <= hi }
  }

  datatype Proto = Tcp | Udp | Icmp | Sctp | Number(n: nat)

  datatype Target =
    | Any
    | Group(name: string)
    | User(name: string)
    | Tag(name: string)
    | Address(ip: Ip)
    | Cidr(net: Net)
    | HostAlias(name: string)
    | Autogroup(name: string)

  datatype PortRange = PortRange(start: Port, end: Port) {
    predicate Contains(p: Port) { start <= p <= end }
  }

  datatype PortSet = AnyPort | Ports(ranges: seq<PortRange>) {
    predicate Contains(p: Port) { AnyPort? || exists r :: r in ranges && r.Contains(p) }
  }

  datatype DstTarget = DstTarget(host: Target, ports: PortSet)

  datatype Action = Accept | Deny

  datatype Rule = Rule(action: Action, src: seq<Target>, dst: seq<Option<DstTarget>>, proto: Option<Proto>)

  /** A host alias whose text is no address or block maps to `None`. */
  datatype Policy = Policy(groups: Groups.GroupMap, hosts: map<string, Option<Net>>, acls: seq<Rule>)

  datatype Context = Context(srcUser: Option<string>, srcGroups: seq<string>, srcTags: seq<string>, srcIp: Ip,
                             dstIp: Ip, dstTags: seq<string>, dstPort: Port, dstUser: Option<string>,
                             proto: Option<Proto>)

  /** The optional external group resolver. */
  type Resolver = Option<string -> seq<string>>

  datatype EvalResult = EvalResult(allowed: bool, matchingRule: Option<nat>, action: Option<Action>)

  datatype Error = UnsupportedTargetInPosition(group: string)

  const DEFAULT_DENY := EvalResult(false, None, None)

  predicate ProtoMatches(rule: Option<Proto>, ctx: Option<Proto>) { rule.None? || ctx.None? || rule == ctx }

  predicate AliasContains(p: Policy, name: string, ip: Ip) {
    name in p.hosts && p.hosts[name].Some? && p.hosts[name].value.Contains(ip)
  }

  predicate MatchesSource(p: Policy, t: Target, ctx: Context) {
    match t
    case Any => true
    case User(u) => ctx.srcUser == Some(u)
    case Group(g) =>
      g in ctx.srcGroups ||
      (ctx.srcUser.Some? &&
       match Groups.GroupMembers(p.groups, g) case Ok(ms) => ctx.srcUser.value in ms case Err(_) => false)
    case Tag(tag) => tag in ctx.srcTags
    case Address(ip) => ctx.srcIp == ip
    case Cidr(net) => net.Contains(ctx.srcIp)
    case HostAlias(name) => AliasContains(p, name, ctx.srcIp)
    case Autogroup(name) => if name == "member" then ctx.srcUser.Some? else name == "tagged" && ctx.srcTags != []
  }

  function MatchesDestination(p: Policy, resolver: Resolver, d: DstTarget, ctx: Context): Result<bool, Error> {
    var host: Result<bool, Error> :=
      match d.host
      case Any => Ok(true)
      case Tag(tag) => Ok(tag in ctx.dstTags)
      case Address(ip) => Ok(ctx.dstIp == ip)
      case Cidr(net) => Ok(net.Contains(ctx.dstIp))
      case HostAlias(name) => Ok(AliasContains(p, name, ctx.dstIp))
      case User(u) => Ok(ctx.dstUser == Some(u))
      case Group(g) =>
        if resolver.None? && g !in p.groups then Err(UnsupportedTargetInPosition(g))
        else
          var members := if resolver.Some? then resolver.value(g)
                         else match Groups.GroupMembers(p.groups, g) case Ok(ms) => ms case Err(_) => [];
          Ok(ctx.dstUser.Some? && ctx.dstUser.value in members)
      case Autogroup(name) => Ok(name == "internet" || (name == "self" && ctx.srcIp == ctx.dstIp));
    match host case Err(e) => Err(e) case Ok(h) => Ok(h && d.ports.Contains(ctx.dstPort))
  }

  /** How one rule answers a context. */
  datatype Outcome = NoMatch | Match | Fault(error: Error)

  function DstOutcome(p: Policy, resolver: Resolver, ds: seq<Option<DstTarget>>, ctx: Context): Outcome {
    if ds == [] then NoMatch
    else if ds[0].None? then DstOutcome(p, resolver, ds[1..], ctx)
    else
      match MatchesDestination(p, resolver, ds[0].value, ctx)
      case Err(e) => Fault(e)
      case Ok(true) => Match
      case Ok(false) => DstOutcome(p, resolver, ds[1..], ctx)
  }

  function RuleOutcome(p: Policy, resolver: Resolver, rule: Rule, ctx: Context): Outcome {
    if !ProtoMatches(rule.proto, ctx.proto) then NoMatch
    else if !exists t :: t in rule.src && MatchesSource(p, t, ctx) then NoMatch
    else DstOutcome(p, resolver, rule.dst, ctx)
  }

  /** Rule `i` is the first whose outcome is not `NoMatch`. */
  predicate Decides(p: Policy, resolver: Resolver, ctx: Context, i: nat) {
    && i < |p.acls| && RuleOutcome(p, resolver, p.acls[i], ctx) != NoMatch
    && forall j :: 0 <= j < i ==> RuleOutcome(p, resolver, p.acls[j], ctx) == NoMatch
  }

  function TryFrom(p: Policy, resolver: Resolver, ctx: Context, i: nat): Result<EvalResult, Error>
    requires i <= |p.acls|
    decreases |p.acls| - i
  {
    if i == |p.acls| then Ok(DEFAULT_DENY)
    else
      match RuleOutcome(p, resolver, p.acls[i], ctx)
      case NoMatch => TryFrom(p, resolver, ctx, i + 1)
      case Match => Ok(EvalResult(p.acls[i].action == Accept, Some(i), Some(p.acls[i].action)))
      case Fault(e) => Err(e)
  }

  function TryEvaluated(p: Policy, resolver: Resolver, ctx: Context): Result<EvalResult, Error> {
    TryFrom(p, resolver, ctx, 0)
  }

  /** `evaluate`: no resolver, errors answered with the default denial. */
  function Evaluate(p: Policy, ctx: Context): EvalResult {
    match TryEvaluated(p, None, ctx) case Ok(r) => r case Err(_) => DEFAULT_DENY
  }

  /** `try_evaluate`: the rule loop with its early exits. */
  method TryEvaluate(p: Policy, resolver: Resolver, ctx: Context) returns (r: Result<EvalResult, Error>)
    ensures r == TryEvaluated(p, resolver, ctx)
  {
    for i := 0 to |p.acls|
      invariant TryEvaluated(p, resolver, ctx) == TryFrom(p, resolver, ctx, i)
    {
      var rule := p.acls[i];
      if !ProtoMatches(rule.proto, ctx.proto) {
        continue;
      }
      if !exists t :: t in rule.src && MatchesSource(p, t, ctx) {
        continue;
      }
      var dstMatches := false;
      var k := 0;
      while k < |rule.dst|
        invariant 0 <= k <= |rule.dst|
        invariant dstMatches ==> DstOutcome(p, resolver, rule.dst, ctx) == Match
        invariant !dstMatches ==> DstOutcome(p, resolver, rule.dst, ctx) == DstOutcome(p, resolver, rule.dst[k..], ctx)
      {
        assert rule.dst[k..][1..] == rule.dst[k + 1..];
        if rule.dst[k].Some? {
          var matched := MatchesDestination(p, resolver, rule.dst[k].value, ctx);
          if matched.Err? {
            return Err(matched.error);
          }
          if matched.value {
            dstMatches := true;
            break;
          }
        }
        k := k + 1;
      }
      if !dstMatches {
        continue;
      }
      return Ok(EvalResult(rule.action == Accept, Some(i), Some(rule.action)));
    }
    r := Ok(DEFAULT_DENY);
  }

  // ---------- First match decides ----------

  /** The answer when rule `i` decides. */
  function Verdict(p: Policy, resolver: Resolver, ctx: Context, i: nat): Result<EvalResult, Error>
    requires Decides(p, resolver, ctx, i)
  {
    match RuleOutcome(p, resolver, p.acls[i], ctx)
    case Match => Ok(EvalResult(p.acls[i].action == Accept, Some(i), Some(p.acls[i].action)))
    case Fault(e) => Err(e)
  }

  ghost predicate Undecided(p: Policy, resolver: Resolver, ctx: Context) {
    forall j :: 0 <= j < |p.acls| ==> RuleOutcome(p, resolver, p.acls[j], ctx) == NoMatch
  }

  lemma {:induction false} TryFromMeaning(p: Policy, resolver: Resolver, ctx: Context, i: nat)
    requires i <= |p.acls|
    requires forall j :: 0 <= j < i ==> RuleOutcome(p, resolver, p.acls[j], ctx) == NoMatch
    ensures Undecided(p, resolver, ctx) ==> TryFrom(p, resolver, ctx, i) == Ok(DEFAULT_DENY)
    ensures !Undecided(p, resolver, ctx) ==>
              exists k: nat :: Decides(p, resolver, ctx, k) &&
                  TryFrom(p, resolver, ctx, i) == Verdict(p, resolver, ctx, k)
    decreases |p.acls| - i
  {
    if i < |p.acls| {
      if RuleOutcome(p, resolver, p.acls[i], ctx) == NoMatch {
        TryFromMeaning(p, resolver, ctx, i + 1);
      } else {
        assert Decides(p, resolver, ctx, i);
      }
    }
  }

  lemma DecidesOnce(p: Policy, resolver: Resolver, ctx: Context, i: nat, k: nat)
    requires Decides(p, resolver, ctx, i) && Decides(p, resolver, ctx, k)
    ensures i == k
  {
  }

  /** The deciding rule, and it alone, gives the answer; without one the default denial stands. */
  lemma FirstMatchWins(p: Policy, resolver: Resolver, ctx: Context)
    ensures forall i: nat :: Decides(p, resolver, ctx, i) ==>
            TryEvaluated(p, resolver, ctx) == Verdict(p, resolver, ctx, i)
    ensures Undecided(p, resolver, ctx) ==> TryEvaluated(p, resolver, ctx) == Ok(DEFAULT_DENY)
    ensures Undecided(p, resolver, ctx) || exists i: nat :: Decides(p, resolver, ctx, i)
  {
    TryFromMeaning(p, resolver, ctx, 0);
    forall i: nat | Decides(p, resolver, ctx, i)
      ensures TryEvaluated(p, resolver, ctx) == Verdict(p, resolver, ctx, i)
    {
      var k: nat :| Decides(p, resolver, ctx, k) && TryEvaluated(p, resolver, ctx) == Verdict(p, resolver, ctx, k);
      DecidesOnce(p, resolver, ctx, i, k);
    }
  }

  /** A context is allowed exactly when the deciding rule matches and accepts: a denying rule or an
      unresolved destination group before it denies. */
  lemma AllowedIff(p: Policy, ctx: Context)
    ensures Evaluate(p, ctx).allowed <==>
            exists i: nat :: Decides(p, None, ctx, i) && RuleOutcome(p, None, p.acls[i], ctx) == Match &&
                p.acls[i].action == Accept
  {
    FirstMatchWins(p, None, ctx);
  }

  /** Sources are matched on the source side of a connection alone. */
  lemma SourceSideOnly(p: Policy, t: Target, a: Context, b: Context)
    requires a.srcUser == b.srcUser && a.srcGroups == b.srcGroups && a.srcTags == b.srcTags && a.srcIp == b.srcIp
    ensures MatchesSource(p, t, a) == MatchesSource(p, t, b)
  {
  }

  /** Destinations are matched on the destination side alone, except `autogroup:self`, and on the port
      only through the target's port set, outside which nothing matches. */
  lemma DestinationSideOnly(p: Policy, resolver: Resolver, d: DstTarget, a: Context, b: Context)
    requires a.dstIp == b.dstIp && a.dstTags == b.dstTags && a.dstUser == b.dstUser
    requires d.ports.Contains(a.dstPort) <==> d.ports.Contains(b.dstPort)
    requires d.host == Autogroup("self") ==> (a.srcIp == a.dstIp <==> b.srcIp == b.dstIp)
    ensures MatchesDestination(p, resolver, d, a) == MatchesDestination(p, resolver, d, b)
    ensures !d.ports.Contains(a.dstPort) ==> MatchesDestination(p, resolver, d, a) != Ok(true)
  {
  }

  /** Outcomes depend on the policy's groups and hosts, not on its other rules. */
  lemma {:induction false} DstOutcomeLocal(p: Policy, q: Policy, resolver: Resolver, ds: seq<Option<DstTarget>>,
                                           ctx: Context)
    requires p.groups == q.groups && p.hosts == q.hosts
    ensures DstOutcome(p, resolver, ds, ctx) == DstOutcome(q, resolver, ds, ctx)
  {
    if ds != [] { DstOutcomeLocal(p, q, resolver, ds[1..], ctx); }
  }

  lemma OutcomeLocal(p: Policy, q: Policy, resolver: Resolver, rule: Rule, ctx: Context)
    requires p.groups == q.groups && p.hosts == q.hosts
    ensures RuleOutcome(p, resolver, rule, ctx) == RuleOutcome(q, resolver, rule, ctx)
  {
    DstOutcomeLocal(p, q, resolver, rule.dst, ctx);
    forall t | t in rule.src ensures MatchesSource(p, t, ctx) == MatchesSource(q, t, ctx) {}
  }

  /** Appending rules never changes the answer for a context that was already decided. */
  lemma {:induction false} DecidedIsStable(p: Policy, more: seq<Rule>, resolver: Resolver, ctx: Context, i: nat)
    requires i <= |p.acls| && exists k :: i <= k < |p.acls| && RuleOutcome(p, resolver, p.acls[k], ctx) != NoMatch
    ensures TryFrom(p.(acls := p.acls + more), resolver, ctx, i) == TryFrom(p, resolver, ctx, i)
    decreases |p.acls| - i
  {
    var q := p.(acls := p.acls + more);
    assert q.acls[i] == p.acls[i];
    OutcomeLocal(p, q, resolver, p.acls[i], ctx);
    if RuleOutcome(p, resolver, p.acls[i], ctx) == NoMatch { DecidedIsStable(p, more, resolver, ctx, i + 1); }
  }
}
