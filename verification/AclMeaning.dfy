/** What a policy allows, in terms of the connection alone: when a source or destination target applies,
    kind by kind, and from that the answer of the whole policy. */
module AclMeaning {
  import opened Wrappers
  import opened AclEval
  import Groups

  /** `user` is listed by `group`, directly or through groups it names, and that list exists: no cycle
      and no undeclared group is met on the way. */
  ghost predicate IsMember(groups: Groups.GroupMap, group: string, user: string) {
    && !Groups.Stuck(groups, group, {}) && !Groups.Dangling(groups, group)
    && Groups.HasMember(groups, group, user)
  }

  lemma MemberIff(groups: Groups.GroupMap, group: string, user: string)
    ensures IsMember(groups, group, user) <==>
            var ms := Groups.GroupMembers(groups, group); ms.Ok? && user in ms.value
  {
    Groups.ExpandMeaning(groups, group, {});
  }

  predicate IsWithin(net: Net, ip: Ip) { net.v6 == ip.v6 && net.lo <= ip.addr && ip.addr <= net.hi }

  predicate IsAliasOf(hosts: map<string, Option<Net>>, name: string, ip: Ip) {
    name in hosts && hosts[name].Some? && IsWithin(hosts[name].value, ip)
  }

  ghost predicate IsFrom(p: Policy, t: Target, ctx: Context) {
    || t == Any
    || (t.User? && ctx.srcUser == Some(t.name))
    || (t.Group? && t.name in ctx.srcGroups)
    || (t.Group? && ctx.srcUser.Some? && IsMember(p.groups, t.name, ctx.srcUser.value))
    || (t.Tag? && t.name in ctx.srcTags)
    || t == Address(ctx.srcIp)
    || (t.Cidr? && IsWithin(t.net, ctx.srcIp))
    || (t.HostAlias? && IsAliasOf(p.hosts, t.name, ctx.srcIp))
    || (t == Autogroup("member") && ctx.srcUser != None)
    || (t == Autogroup("tagged") && ctx.srcTags != [])
  }

  lemma FromIff(p: Policy, t: Target, ctx: Context)
    ensures MatchesSource(p, t, ctx) <==> IsFrom(p, t, ctx)
  {
    if t.Group? && ctx.srcUser.Some? { MemberIff(p.groups, t.name, ctx.srcUser.value); }
  }

  predicate OpensPort(ports: PortSet, port: Port) {
    ports == AnyPort || exists i :: 0 <= i < |ports.ranges| && ports.ranges[i].start <= port <= ports.ranges[i].end
  }

  ghost predicate IsAt(p: Policy, resolver: Resolver, t: Target, ctx: Context) {
    || t == Any
    || (t.User? && ctx.dstUser == Some(t.name))
    || (t.Group? && resolver.Some? && ctx.dstUser.Some? && ctx.dstUser.value in resolver.value(t.name))
    || (t.Group? && resolver.None? && ctx.dstUser.Some? && IsMember(p.groups, t.name, ctx.dstUser.value))
    || (t.Tag? && t.name in ctx.dstTags)
    || t == Address(ctx.dstIp)
    || (t.Cidr? && IsWithin(t.net, ctx.dstIp))
    || (t.HostAlias? && IsAliasOf(p.hosts, t.name, ctx.dstIp))
    || t == Autogroup("internet")
    || (t == Autogroup("self") && ctx.srcIp == ctx.dstIp)
  }

  ghost predicate IsTo(p: Policy, resolver: Resolver, d: DstTarget, ctx: Context) {
    OpensPort(d.ports, ctx.dstPort) && IsAt(p, resolver, d.host, ctx)
  }

  /** A group that nobody resolves. */
  predicate IsUnknown(p: Policy, resolver: Resolver, t: Target) {
    t.Group? && resolver.None? && t.name !in p.groups
  }

  lemma PortIff(ports: PortSet, port: Port)
    ensures ports.Contains(port) <==> OpensPort(ports, port)
  {
    if ports.Ports? && OpensPort(ports, port) {
      var i :| 0 <= i < |ports.ranges| && ports.ranges[i].start <= port <= ports.ranges[i].end;
      assert ports.ranges[i] in ports.ranges && ports.ranges[i].Contains(port);
    }
  }

  lemma ToIff(p: Policy, resolver: Resolver, d: DstTarget, ctx: Context)
    ensures MatchesDestination(p, resolver, d, ctx) ==
            if IsUnknown(p, resolver, d.host) then Err(UnsupportedTargetInPosition(d.host.name))
            else Ok(IsTo(p, resolver, d, ctx))
  {
    PortIff(d.ports, ctx.dstPort);
    if d.host.Group? && ctx.dstUser.Some? { MemberIff(p.groups, d.host.name, ctx.dstUser.value); }
  }

  // ---------- One rule ----------

  /** The rule is about this connection: protocol and some source. */
  ghost predicate Applies(p: Policy, rule: Rule, ctx: Context) {
    && (rule.proto == None || ctx.proto == None || rule.proto == ctx.proto)
    && exists i :: 0 <= i < |rule.src| && IsFrom(p, rule.src[i], ctx)
  }

  lemma AppliesIff(p: Policy, rule: Rule, ctx: Context)
    ensures Applies(p, rule, ctx) <==>
            ProtoMatches(rule.proto, ctx.proto) && exists t :: t in rule.src && MatchesSource(p, t, ctx)
  {
    forall t | t in rule.src ensures MatchesSource(p, t, ctx) <==> IsFrom(p, t, ctx) { FromIff(p, t, ctx); }
    if i :| 0 <= i < |rule.src| && IsFrom(p, rule.src[i], ctx) { assert rule.src[i] in rule.src; }
  }

  /** A destination that is passed over: it does not parse, or it can be resolved and is another one. */
  ghost predicate IsOther(p: Policy, resolver: Resolver, d: Option<DstTarget>, ctx: Context) {
    d.None? || (!IsUnknown(p, resolver, d.value.host) && !IsTo(p, resolver, d.value, ctx))
  }

  /** Destination `k` is the first that is not passed over. */
  ghost predicate StopsAt(p: Policy, resolver: Resolver, ds: seq<Option<DstTarget>>, ctx: Context, k: nat) {
    k < |ds| && !IsOther(p, resolver, ds[k], ctx) && forall j :: 0 <= j < k ==> IsOther(p, resolver, ds[j], ctx)
  }

  lemma {:induction false} DstFrom(p: Policy, resolver: Resolver, ds: seq<Option<DstTarget>>, ctx: Context, i: nat)
    requires i <= |ds| && forall j :: 0 <= j < i ==> IsOther(p, resolver, ds[j], ctx)
    ensures forall k: nat :: StopsAt(p, resolver, ds, ctx, k) ==>
              DstOutcome(p, resolver, ds[i..], ctx) ==
              var t := ds[k].value.host;
              if IsUnknown(p, resolver, t) then Fault(UnsupportedTargetInPosition(t.name)) else Match
    ensures (forall k :: 0 <= k < |ds| ==> IsOther(p, resolver, ds[k], ctx)) ==>
              DstOutcome(p, resolver, ds[i..], ctx) == NoMatch
    decreases |ds| - i
  {
    if i < |ds| {
      assert ds[i..][0] == ds[i] && ds[i..][1..] == ds[i + 1..];
      if ds[i].Some? { ToIff(p, resolver, ds[i].value, ctx); }
      if IsOther(p, resolver, ds[i], ctx) {
        DstFrom(p, resolver, ds, ctx, i + 1);
      } else {
        forall k: nat | StopsAt(p, resolver, ds, ctx, k) ensures k == i {}
      }
    }
  }

  /** How one rule answers, without naming the matching functions. */
  lemma RuleIff(p: Policy, resolver: Resolver, rule: Rule, ctx: Context)
    ensures RuleOutcome(p, resolver, rule, ctx) != NoMatch ==>
              Applies(p, rule, ctx) && exists k: nat :: StopsAt(p, resolver, rule.dst, ctx, k)
    ensures forall k: nat :: Applies(p, rule, ctx) && StopsAt(p, resolver, rule.dst, ctx, k) ==>
              RuleOutcome(p, resolver, rule, ctx) ==
              var t := rule.dst[k].value.host;
              if IsUnknown(p, resolver, t) then Fault(UnsupportedTargetInPosition(t.name)) else Match
  {
    AppliesIff(p, rule, ctx);
    DstFrom(p, resolver, rule.dst, ctx, 0);
    assert rule.dst[0..] == rule.dst;
    if k :| 0 <= k < |rule.dst| && !IsOther(p, resolver, rule.dst[k], ctx) {
      var first := FirstStop(p, resolver, rule.dst, ctx, k);
    }
  }

  lemma {:induction false} FirstStop(p: Policy, resolver: Resolver, ds: seq<Option<DstTarget>>, ctx: Context, k: nat)
    returns (first: nat)
    requires k < |ds| && !IsOther(p, resolver, ds[k], ctx)
    ensures StopsAt(p, resolver, ds, ctx, first)
  {
    first := k;
    if j :| 0 <= j < k && !IsOther(p, resolver, ds[j], ctx) { first := FirstStop(p, resolver, ds, ctx, j); }
  }

  // ---------- The whole policy ----------

  ghost predicate Answers(p: Policy, resolver: Resolver, ctx: Context, i: nat, k: nat) {
    i < |p.acls| && Applies(p, p.acls[i], ctx) && StopsAt(p, resolver, p.acls[i].dst, ctx, k)
  }

  /** Rule `i` is the first that answers, at its destination `k`. */
  ghost predicate AnswersFirst(p: Policy, resolver: Resolver, ctx: Context, i: nat, k: nat) {
    Answers(p, resolver, ctx, i, k) && forall j: nat, l: nat :: j < i ==> !Answers(p, resolver, ctx, j, l)
  }

  lemma AnswersIff(p: Policy, resolver: Resolver, ctx: Context, i: nat)
    requires i < |p.acls|
    ensures RuleOutcome(p, resolver, p.acls[i], ctx) != NoMatch <==> exists k: nat :: Answers(p, resolver, ctx, i, k)
  {
    RuleIff(p, resolver, p.acls[i], ctx);
    if RuleOutcome(p, resolver, p.acls[i], ctx) != NoMatch {
      var k: nat :| StopsAt(p, resolver, p.acls[i].dst, ctx, k);
      assert Answers(p, resolver, ctx, i, k);
    }
  }

  /** Evaluation with its errors, for every policy, resolver and connection: the first rule that applies
      and reaches a destination that is not passed over decides; an unresolved group there is an error. */
  lemma TryEvaluateIff(p: Policy, resolver: Resolver, ctx: Context)
    ensures forall i: nat, k: nat :: AnswersFirst(p, resolver, ctx, i, k) ==>
              TryEvaluated(p, resolver, ctx) ==
              var rule, t := p.acls[i], p.acls[i].dst[k].value.host;
              if IsUnknown(p, resolver, t) then Err(UnsupportedTargetInPosition(t.name))
              else Ok(EvalResult(rule.action == Accept, Some(i), Some(rule.action)))
    ensures (forall i: nat, k: nat :: !Answers(p, resolver, ctx, i, k)) ==>
              TryEvaluated(p, resolver, ctx) == Ok(EvalResult(false, None, None))
  {
    FirstMatchWins(p, resolver, ctx);
    forall i: nat | i < |p.acls|
      ensures RuleOutcome(p, resolver, p.acls[i], ctx) != NoMatch <==> exists k: nat :: Answers(p, resolver, ctx, i, k)
    {
      AnswersIff(p, resolver, ctx, i);
    }
    forall i: nat, k: nat | AnswersFirst(p, resolver, ctx, i, k)
      ensures Decides(p, resolver, ctx, i)
      ensures var t := p.acls[i].dst[k].value.host;
              RuleOutcome(p, resolver, p.acls[i], ctx) ==
              if IsUnknown(p, resolver, t) then Fault(UnsupportedTargetInPosition(t.name)) else Match
    {
      RuleIff(p, resolver, p.acls[i], ctx);
    }
  }

  /** `evaluate` answers the same with errors turned into the default denial: a connection is allowed
      exactly when the first rule that answers accepts, at a destination it is going to. */
  lemma EvaluateIff(p: Policy, ctx: Context)
    ensures Evaluate(p, ctx).allowed <==>
            exists i: nat, k: nat :: AnswersFirst(p, None, ctx, i, k) && p.acls[i].action == Accept
                                     && IsTo(p, None, p.acls[i].dst[k].value, ctx)
  {
    TryEvaluateIff(p, None, ctx);
    FirstMatchWins(p, None, ctx);
    if Evaluate(p, ctx).allowed {
      var i: nat :| Decides(p, None, ctx, i);
      var k := AnswerOf(p, None, ctx, i);
    }
    forall i: nat, k: nat | AnswersFirst(p, None, ctx, i, k) && IsTo(p, None, p.acls[i].dst[k].value, ctx)
      ensures !IsUnknown(p, None, p.acls[i].dst[k].value.host)
    {
      UnknownIsNowhere(p, p.acls[i].dst[k].value, ctx);
    }
  }

  lemma AnswerOf(p: Policy, resolver: Resolver, ctx: Context, i: nat) returns (k: nat)
    requires Decides(p, resolver, ctx, i)
    ensures AnswersFirst(p, resolver, ctx, i, k)
  {
    forall j: nat | j <= i { AnswersIff(p, resolver, ctx, j); }
    k :| Answers(p, resolver, ctx, i, k);
  }

  lemma UnknownIsNowhere(p: Policy, d: DstTarget, ctx: Context)
    requires IsTo(p, None, d, ctx)
    ensures !IsUnknown(p, None, d.host)
  {
    if d.host.Group? { Groups.ReachesSelf(p.groups, d.host.name); }
  }

  // ---------- Kind by kind ----------

  /** A policy of one accepting rule allows the connection. */
  predicate Permits(groups: Groups.GroupMap, hosts: map<string, Option<Net>>, t: Target, d: DstTarget,
                    proto: Option<Proto>, ctx: Context) {
    Evaluate(Policy(groups, hosts, [Rule(Accept, [t], [Some(d)], proto)]), ctx).allowed
  }

  const ALL_PORTS := DstTarget(Any, AnyPort)

  lemma PermitsIff(groups: Groups.GroupMap, hosts: map<string, Option<Net>>, t: Target, d: DstTarget,
                   proto: Option<Proto>, ctx: Context)
    ensures var p := Policy(groups, hosts, [Rule(Accept, [t], [Some(d)], proto)]);
            Permits(groups, hosts, t, d, proto, ctx) <==>
            && (proto == None || ctx.proto == None || proto == ctx.proto)
            && IsFrom(p, t, ctx) && IsTo(p, None, d, ctx)
  {
    var rule := Rule(Accept, [t], [Some(d)], proto);
    var p := Policy(groups, hosts, [rule]);
    EvaluateIff(p, ctx);
    assert rule.src[0] == t && rule.dst[0] == Some(d) && p.acls[0] == rule;
    if Applies(p, rule, ctx) && IsTo(p, None, d, ctx) { assert AnswersFirst(p, None, ctx, 0, 0); }
  }

  lemma LetsFrom(groups: Groups.GroupMap, hosts: map<string, Option<Net>>, t: Target, ctx: Context)
    ensures Permits(groups, hosts, t, ALL_PORTS, None, ctx) <==>
            IsFrom(Policy(groups, hosts, [Rule(Accept, [t], [Some(ALL_PORTS)], None)]), t, ctx)
  {
    PermitsIff(groups, hosts, t, ALL_PORTS, None, ctx);
  }

  /** When each kind of source lets a connection in. */
  lemma SourceKinds(groups: Groups.GroupMap, hosts: map<string, Option<Net>>, ctx: Context, name: string, ip: Ip,
                    net: Net)
    ensures Permits(groups, hosts, Any, ALL_PORTS, None, ctx)
    ensures Permits(groups, hosts, User(name), ALL_PORTS, None, ctx) <==> ctx.srcUser == Some(name)
    ensures Permits(groups, hosts, Group(name), ALL_PORTS, None, ctx) <==>
            name in ctx.srcGroups || (ctx.srcUser.Some? && IsMember(groups, name, ctx.srcUser.value))
    ensures Permits(groups, hosts, Tag(name), ALL_PORTS, None, ctx) <==> name in ctx.srcTags
    ensures Permits(groups, hosts, Address(ip), ALL_PORTS, None, ctx) <==> ctx.srcIp == ip
    ensures Permits(groups, hosts, Cidr(net), ALL_PORTS, None, ctx) <==>
            ctx.srcIp.v6 == net.v6 && net.lo <= ctx.srcIp.addr <= net.hi
    ensures Permits(groups, hosts, HostAlias(name), ALL_PORTS, None, ctx) <==>
            name in hosts && hosts[name].Some? && ctx.srcIp.v6 == hosts[name].value.v6
            && hosts[name].value.lo <= ctx.srcIp.addr <= hosts[name].value.hi
    ensures Permits(groups, hosts, Autogroup(name), ALL_PORTS, None, ctx) <==>
            (name == "member" && ctx.srcUser.Some?) || (name == "tagged" && |ctx.srcTags| > 0)
  {
    LetsFrom(groups, hosts, Any, ctx);
    LetsFrom(groups, hosts, User(name), ctx);
    LetsFrom(groups, hosts, Group(name), ctx);
    LetsFrom(groups, hosts, Tag(name), ctx);
    LetsFrom(groups, hosts, Address(ip), ctx);
    LetsFrom(groups, hosts, Cidr(net), ctx);
    LetsFrom(groups, hosts, HostAlias(name), ctx);
    LetsFrom(groups, hosts, Autogroup(name), ctx);
  }

  lemma LetsTo(groups: Groups.GroupMap, hosts: map<string, Option<Net>>, t: Target, ctx: Context)
    ensures Permits(groups, hosts, Any, DstTarget(t, AnyPort), None, ctx) <==>
            IsAt(Policy(groups, hosts, [Rule(Accept, [Any], [Some(DstTarget(t, AnyPort))], None)]), None, t, ctx)
  {
    PermitsIff(groups, hosts, Any, DstTarget(t, AnyPort), None, ctx);
  }

  /** When each kind of destination lets a connection in; an undeclared group never does. */
  lemma DestinationKinds(groups: Groups.GroupMap, hosts: map<string, Option<Net>>, ctx: Context, name: string, ip: Ip,
                         net: Net)
    ensures Permits(groups, hosts, Any, DstTarget(User(name), AnyPort), None, ctx) <==> ctx.dstUser == Some(name)
    ensures Permits(groups, hosts, Any, DstTarget(Group(name), AnyPort), None, ctx) <==>
            ctx.dstUser.Some? && IsMember(groups, name, ctx.dstUser.value)
    ensures Permits(groups, hosts, Any, DstTarget(Tag(name), AnyPort), None, ctx) <==> name in ctx.dstTags
    ensures Permits(groups, hosts, Any, DstTarget(Address(ip), AnyPort), None, ctx) <==> ctx.dstIp == ip
    ensures Permits(groups, hosts, Any, DstTarget(Cidr(net), AnyPort), None, ctx) <==>
            ctx.dstIp.v6 == net.v6 && net.lo <= ctx.dstIp.addr <= net.hi
    ensures Permits(groups, hosts, Any, DstTarget(HostAlias(name), AnyPort), None, ctx) <==>
            name in hosts && hosts[name].Some? && ctx.dstIp.v6 == hosts[name].value.v6
            && hosts[name].value.lo <= ctx.dstIp.addr <= hosts[name].value.hi
    ensures Permits(groups, hosts, Any, DstTarget(Autogroup(name), AnyPort), None, ctx) <==>
            name == "internet" || (name == "self" && ctx.srcIp == ctx.dstIp)
  {
    LetsTo(groups, hosts, User(name), ctx);
    LetsTo(groups, hosts, Group(name), ctx);
    LetsTo(groups, hosts, Tag(name), ctx);
    LetsTo(groups, hosts, Address(ip), ctx);
    LetsTo(groups, hosts, Cidr(net), ctx);
    LetsTo(groups, hosts, HostAlias(name), ctx);
    LetsTo(groups, hosts, Autogroup(name), ctx);
  }

  /** Ports and protocol: some range holds the port, and the protocols agree where both are given. */
  lemma PortAndProtocol(groups: Groups.GroupMap, hosts: map<string, Option<Net>>, ctx: Context,
                        ranges: seq<PortRange>, proto: Option<Proto>)
    ensures Permits(groups, hosts, Any, DstTarget(Any, Ports(ranges)), proto, ctx) <==>
            && (exists i :: 0 <= i < |ranges| && ranges[i].start <= ctx.dstPort <= ranges[i].end)
            && (proto.None? || ctx.proto.None? || proto.value == ctx.proto.value)
  {
    PermitsIff(groups, hosts, Any, DstTarget(Any, Ports(ranges)), proto, ctx);
  }
}
