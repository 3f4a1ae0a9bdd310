/** Building one node's view of the mesh: the peers it may reach, their owners, and the packet
    filter for traffic towards it. Hash maps are walked in an arbitrary order. */
module MapBuilder {
  import opened Wrappers
  import opened AclEval
  import opened PortMap
  import opened PortExactness

  /** An address as text, and what it parses to. */
  datatype MeshAddress = MeshAddress(text: string, ip: Option<Ip>)

  datatype Node = Node(id: nat, addresses: seq<MeshAddress>, tags: seq<string>, user: Option<nat>, authorized: bool)

  datatype MeshUser = MeshUser(id: nat, loginName: string, displayName: string)

  datatype DstPortRange = DstPortRange(ip: string, first: Port, last: Port)

  datatype FilterRule = FilterRule(srcIps: seq<string>, dstPorts: seq<DstPortRange>)

  datatype MapResponse = MapResponse(node: Node, peers: seq<Node>, userProfiles: seq<MeshUser>,
      packetFilter: seq<FilterRule>)

  type UserMap = map<nat, MeshUser>

  function OwnerLogin(users: UserMap, n: Node): Option<string> {
    if n.user.Some? && n.user.value in users then Some(users[n.user.value].loginName) else None
  }

  /** `allowed_ports`, no ports at all when an address is missing or does not parse. */
  function PortsFor(acl: Policy, users: UserMap, from: Node, to: Node): seq<PortRange> {
    if from.addresses == [] || from.addresses[0].ip.None? || to.addresses == [] || to.addresses[0].ip.None? then []
    else AllowedPorts(acl, Connection(users, from, to))
  }

  function FilterFor(acl: Policy, users: UserMap, peer: Node, node: Node): FilterRule
    requires peer.addresses != [] && node.addresses != []
  {
    var ports := PortsFor(acl, users, peer, node);
    FilterRule([peer.addresses[0].text + "/32"],
               seq(|ports|, i requires 0 <= i < |ports| =>
                 DstPortRange(node.addresses[0].text + "/32", ports[i].start, ports[i].end)))
  }

  predicate DistinctNodes(l: seq<Node>) { forall i, j :: 0 <= i < j < |l| ==> l[i].id != l[j].id }

  predicate DistinctUsers(l: seq<MeshUser>) { forall i, j :: 0 <= i < j < |l| ==> l[i].id != l[j].id }

  /** The owners, known to the server, of some listed peer. */
  ghost predicate OwnersOf(profiles: seq<MeshUser>, users: UserMap, peers: seq<Node>) {
    forall u :: u in profiles <==>
      exists p :: p in peers && p.user.Some? && p.user.value in users && users[p.user.value] == u
  }

  class Builder {
    var nodes: map<nat, Node>
    var users: UserMap
    var acl: Policy

    /** Kept by every sequence of upserts and removals: entries sit under their own id. */
    ghost predicate Valid()
      reads this
    {
      && (forall id :: id in nodes ==> nodes[id].id == id)
      && forall id :: id in users ==> users[id].id == id
    }

    constructor (acl: Policy)
      ensures Valid() && nodes == map[] && users == map[] && this.acl == acl
    {
      this.acl := acl;
      nodes, users := map[], map[];
    }

    method SetAcl(acl: Policy)
      requires Valid()
      modifies this
      ensures Valid() && this.acl == acl && nodes == old(nodes) && users == old(users)
    {
      this.acl := acl;
    }

    method UpsertNode(n: Node)
      requires Valid()
      modifies this
      ensures Valid() && nodes == old(nodes)[n.id := n] && users == old(users) && acl == old(acl)
    {
      nodes := nodes[n.id := n];
    }

    method RemoveNode(id: nat)
      requires Valid()
      modifies this
      ensures Valid() && nodes == old(nodes) - {id} && users == old(users) && acl == old(acl)
    {
      nodes := nodes - {id};
    }

    method UpsertUser(u: MeshUser)
      requires Valid()
      modifies this
      ensures Valid() && users == old(users)[u.id := u] && nodes == old(nodes) && acl == old(acl)
    {
      users := users[u.id := u];
    }

    /** Another authorized node with an address that `self` may reach on some port. */
    predicate Listed(self: Node, p: Node)
      reads this
    {
      p.id != self.id && p.authorized && p.addresses != [] && PortsFor(acl, users, self, p) != []
    }

    /** Another authorized node with an address that may reach `self` on some port. */
    predicate Inbound(self: Node, p: Node)
      reads this
    {
      p.id != self.id && p.authorized && p.addresses != [] && PortsFor(acl, users, p, self) != []
    }

    method CollectPeers(self: Node) returns (peers: seq<Node>, profiles: seq<MeshUser>)
      requires Valid() && self.addresses != []
      ensures DistinctNodes(peers) && forall n :: n in peers <==> n in nodes.Values && Listed(self, n)
      ensures DistinctUsers(profiles) && OwnersOf(profiles, users, peers)
    {
      peers, profiles := [], [];
      var left := nodes.Keys;
      while left != {}
        invariant left <= nodes.Keys
        invariant DistinctNodes(peers)
        invariant forall n :: n in peers <==>
                    n.id in nodes && n.id !in left && nodes[n.id] == n && Listed(self, n)
        invariant DistinctUsers(profiles) && OwnersOf(profiles, users, peers)
      {
        var id :| id in left;
        left := left - {id};
        var peer := nodes[id];
        if id == self.id || !peer.authorized || peer.addresses == [] {
          continue;
        }
        if PortsFor(acl, users, self, peer) != [] {
          OwnersSnoc(profiles, users, peers, peer);
          peers := peers + [peer];
          profiles := AddOwner(profiles, users, peer);
        }
      }
      forall n: Node | n.id in nodes && nodes[n.id] == n ensures n in nodes.Values {}
      forall n | n in nodes.Values ensures n.id in nodes && nodes[n.id] == n {}
    }

    /** `build_packet_filter`; `inbound` names the node each rule was made for. */
    method BuildPacketFilter(self: Node) returns (rules: seq<FilterRule>, ghost inbound: seq<Node>)
      requires Valid()
      ensures self.addresses == [] ==> rules == []
      ensures self.addresses != [] ==>
                && DistinctNodes(inbound) && (forall n :: n in inbound <==> n in nodes.Values && Inbound(self, n))
                && |rules| == |inbound|
                && forall i :: 0 <= i < |rules| ==>
                   inbound[i].addresses != [] && rules[i] == FilterFor(acl, users, inbound[i], self)
    {
      rules, inbound := [], [];
      if self.addresses == [] {
        return;
      }
      var left := nodes.Keys;
      while left != {}
        invariant left <= nodes.Keys
        invariant DistinctNodes(inbound)
        invariant forall n :: n in inbound <==>
                    n.id in nodes && n.id !in left && nodes[n.id] == n && Inbound(self, n)
        invariant |rules| == |inbound|
        invariant forall i :: 0 <= i < |rules| ==>
                  inbound[i].addresses != [] && rules[i] == FilterFor(acl, users, inbound[i], self)
      {
        var id :| id in left;
        left := left - {id};
        var peer := nodes[id];
        if peer.id == self.id || !peer.authorized || peer.addresses == [] {
          continue;
        }
        if PortsFor(acl, users, peer, self) == [] {
          continue;
        }
        rules := rules + [FilterFor(acl, users, peer, self)];
        inbound := inbound + [peer];
      }
      forall n: Node | n.id in nodes && nodes[n.id] == n ensures n in nodes.Values {}
    }

    /** `build_map`: nothing for an unknown or addressless node; otherwise exactly the reachable
        peers, each known owner of one of them once, and one filter rule per node that may reach in. */
    method BuildMap(nodeId: nat) returns (r: Option<MapResponse>, ghost inbound: seq<Node>)
      requires Valid()
      ensures r.None? <==> nodeId !in nodes || nodes[nodeId].addresses == []
      ensures r.Some? ==>
                var self, m := nodes[nodeId], r.value;
                && m.node == self
                && DistinctNodes(m.peers) && (forall n :: n in m.peers <==> n in nodes.Values && Listed(self, n))
                && DistinctUsers(m.userProfiles) && OwnersOf(m.userProfiles, users, m.peers)
                && DistinctNodes(inbound) && (forall n :: n in inbound <==> n in nodes.Values && Inbound(self, n))
                && |m.packetFilter| == |inbound|
                && forall i :: 0 <= i < |inbound| ==>
                     inbound[i].addresses != [] && m.packetFilter[i] == FilterFor(acl, users, inbound[i], self)
      ensures r.Some? ==> forall n :: n in r.value.peers <==>
                n in nodes.Values && n.id != nodeId && n.authorized && n.addresses != []
                && PortsFor(acl, users, nodes[nodeId], n) != []
      ensures r.Some? ==> forall n :: n in inbound <==>
                n in nodes.Values && n.id != nodeId && n.authorized && n.addresses != []
                && PortsFor(acl, users, n, nodes[nodeId]) != []
    {
      inbound := [];
      if nodeId !in nodes || nodes[nodeId].addresses == [] {
        return None, inbound;
      }
      var self := nodes[nodeId];
      var peers, profiles := CollectPeers(self);
      var rules;
      rules, inbound := BuildPacketFilter(self);
      r := Some(MapResponse(self, peers, profiles, rules));
    }
  }

  function AddOwner(profiles: seq<MeshUser>, users: UserMap, peer: Node): seq<MeshUser> {
    if peer.user.Some? && peer.user.value in users && !exists u :: u in profiles && u.id == peer.user.value
    then profiles + [users[peer.user.value]] else profiles
  }

  lemma OwnersSnoc(profiles: seq<MeshUser>, users: UserMap, peers: seq<Node>, peer: Node)
    requires DistinctUsers(profiles) && OwnersOf(profiles, users, peers)
    requires forall id :: id in users ==> users[id].id == id
    ensures var more := AddOwner(profiles, users, peer); DistinctUsers(more) && OwnersOf(more, users, peers + [peer])
  {
    var more, all := AddOwner(profiles, users, peer), peers + [peer];
    assert forall p :: p in all <==> p in peers || p == peer;
    if peer.user.Some? && peer.user.value in users {
      var owner := users[peer.user.value];
      if u :| u in profiles && u.id == peer.user.value {
        var p :| p in peers && p.user.Some? && p.user.value in users && users[p.user.value] == u;
        assert u == owner;
      }
      assert owner in more;
    }
    forall u
      ensures u in more <==>
              exists p :: p in all && p.user.Some? && p.user.value in users && users[p.user.value] == u
    {
      if u in profiles {
        var p :| p in peers && p.user.Some? && p.user.value in users && users[p.user.value] == u;
        assert p in all;
      }
      if p :| p in all && p.user.Some? && p.user.value in users && users[p.user.value] == u {
        if p in peers { assert u in profiles; }
      }
    }
  }

  function Connection(users: UserMap, from: Node, to: Node): Context
    requires from.addresses != [] && from.addresses[0].ip.Some? && to.addresses != [] && to.addresses[0].ip.Some?
  {
    Context(OwnerLogin(users, from), [], from.tags, from.addresses[0].ip.value,
            to.addresses[0].ip.value, to.tags, 0, OwnerLogin(users, to), None)
  }

  /** A peer is listed only if the evaluator allows some port on the connection from the first node's
      owner, tags and address to the second's, with no groups and no protocol. A peer that can be reached
      goes unlisted exactly when, off the fast path, some boundary port is allowed but no span end. */
  lemma ListedIsReachable(acl: Policy, users: UserMap, from: Node, to: Node, ctx: Context)
    requires from.addresses != [] && from.addresses[0].ip.Some? && to.addresses != [] && to.addresses[0].ip.Some?
    requires ctx.srcUser ==
             if from.user.Some? && from.user.value in users then Some(users[from.user.value].loginName) else None
    requires ctx.dstUser ==
             if to.user.Some? && to.user.value in users then Some(users[to.user.value].loginName) else None
    requires ctx.srcTags == from.tags && ctx.srcIp == from.addresses[0].ip.value && ctx.srcGroups == []
    requires ctx.dstTags == to.tags && ctx.dstIp == to.addresses[0].ip.value && ctx.dstPort == 0 && ctx.proto == None
    ensures PortsFor(acl, users, from, to) != [] ==> exists q: Port :: Allows(acl, ctx, q)
    ensures (exists q: Port :: Allows(acl, ctx, q)) && PortsFor(acl, users, from, to) == [] <==>
            && !FastPath(acl, ctx) && (exists b: Port :: b in Boundaries(Candidates(acl.acls)) && Allows(acl, ctx, b))
            && forall s :: s in Spans(acl) ==> !Allows(acl, ctx, s.start) && !Allows(acl, ctx, s.end)
  {
    var ports := PortsFor(acl, users, from, to);
    NothingCompiledIff(acl, ctx);
    ReachableIff(acl, ctx);
    if ports != [] { EndpointsAllowed(acl, ctx, ports[0]); }
  }

  /** A packet filter carries the two nodes' addresses with `/32` appended, and port ranges whose ends
      the evaluator allows from the peer's owner, tags and address to the node's. */
  lemma FilterMeaning(acl: Policy, users: UserMap, peer: Node, node: Node, ctx: Context, d: DstPortRange)
    requires peer.addresses != [] && peer.addresses[0].ip.Some? && node.addresses != [] && node.addresses[0].ip.Some?
    requires ctx.srcUser ==
             if peer.user.Some? && peer.user.value in users then Some(users[peer.user.value].loginName) else None
    requires ctx.dstUser ==
             if node.user.Some? && node.user.value in users then Some(users[node.user.value].loginName) else None
    requires ctx.srcTags == peer.tags && ctx.srcIp == peer.addresses[0].ip.value && ctx.srcGroups == []
    requires ctx.dstTags == node.tags && ctx.dstIp == node.addresses[0].ip.value
    requires ctx.dstPort == 0 && ctx.proto == None
    ensures var f := FilterFor(acl, users, peer, node);
            && f.srcIps == [peer.addresses[0].text + "/32"]
            && (d in f.dstPorts ==>
                  d.ip == node.addresses[0].text + "/32" && Allows(acl, ctx, d.first) && Allows(acl, ctx, d.last))
  {
    FilterEnds(acl, ctx, PortsFor(acl, users, peer, node), FilterFor(acl, users, peer, node).dstPorts);
  }

  /** Where the compiled ports are exact, the filter lists exactly the allowed ports. */
  lemma FilterPorts(acl: Policy, users: UserMap, peer: Node, node: Node, q: Port)
    requires peer.addresses != [] && peer.addresses[0].ip.Some? && node.addresses != [] && node.addresses[0].ip.Some?
    requires Exact(acl, Connection(users, peer, node))
    ensures Allows(acl, Connection(users, peer, node), q) <==>
            exists d :: d in FilterFor(acl, users, peer, node).dstPorts && d.first <= q <= d.last
  {
    FilterCovers(PortsFor(acl, users, peer, node), FilterFor(acl, users, peer, node).dstPorts, q);
    ExactAt(acl, Connection(users, peer, node), q);
  }

  lemma FilterEnds(acl: Policy, ctx: Context, ports: seq<PortRange>, dstPorts: seq<DstPortRange>)
    requires ports == AllowedPorts(acl, ctx) && |ports| == |dstPorts|
    requires forall i :: 0 <= i < |ports| ==> dstPorts[i].first == ports[i].start && dstPorts[i].last == ports[i].end
    ensures forall d :: d in dstPorts ==> Allows(acl, ctx, d.first) && Allows(acl, ctx, d.last)
  {
    forall d | d in dstPorts ensures Allows(acl, ctx, d.first) && Allows(acl, ctx, d.last) {
      var i :| 0 <= i < |ports| && dstPorts[i] == d;
      EndpointsAllowed(acl, ctx, ports[i]);
    }
  }

  lemma FilterCovers(ports: seq<PortRange>, dstPorts: seq<DstPortRange>, q: Port)
    requires |ports| == |dstPorts|
    requires forall i :: 0 <= i < |ports| ==>
               dstPorts[i].first == ports[i].start && dstPorts[i].last == ports[i].end
    ensures Covers(ports, q) <==> exists d :: d in dstPorts && d.first <= q <= d.last
  {
    if Covers(ports, q) {
      var i :| 0 <= i < |ports| && ports[i].Contains(q);
      assert dstPorts[i] in dstPorts;
    }
    if d :| d in dstPorts && d.first <= q <= d.last {
      var i :| 0 <= i < |ports| && dstPorts[i] == d;
      assert ports[i] in ports && ports[i].Contains(q);
    }
  }

  // ---------- What `/32` means ----------

  function Pow2(n: nat): (p: nat)
    ensures p > n && (n > 0 ==> p % 2 == 0)
  {
    if n == 0 then 1 else 2 * Pow2(n - 1)
  }

  function Width(ip: Ip): nat { if ip.v6 then 128 else 32 }

  predicate IsAddress(ip: Ip) { ip.addr < Pow2(Width(ip)) }

  /** The largest multiple of `size` that is not above `n`. */
  function Floor(n: nat, size: nat): (lo: nat)
    requires size > 0
    ensures lo <= n < lo + size
    ensures size % 2 == 0 ==> lo % 2 == 0
  {
    if n < size then 0 else size + Floor(n - size, size)
  }

  /** The block of addresses sharing the first `prefix` bits. */
  function Block(ip: Ip, prefix: nat): Net
    requires prefix <= Width(ip)
  {
    var size := Pow2(Width(ip) - prefix);
    Net(ip.v6, Floor(ip.addr, size), Floor(ip.addr, size) + size - 1)
  }

  /** A `/32` block is the one address exactly for IPv4. */
  lemma BlockIsAddressIff(ip: Ip)
    requires IsAddress(ip)
    ensures Block(ip, 32).Contains(ip)
    ensures (forall x :: IsAddress(x) && Block(ip, 32).Contains(x) ==> x == ip) <==> !ip.v6
  {
    if ip.v6 { var x := Neighbour(ip); }
  }

  function Flipped(n: nat): nat { if n % 2 == 0 then n + 1 else n - 1 }

  lemma FlipStays(n: nat, lo: nat, size: nat)
    requires lo <= n < lo + size && lo % 2 == 0 && size % 2 == 0
    ensures lo <= Flipped(n) < lo + size
  {
  }

  /** Another address in the block of an IPv6 address: its last bit flipped. */
  lemma Neighbour(ip: Ip) returns (x: Ip)
    requires ip.v6 && IsAddress(ip)
    ensures IsAddress(x) && x != ip && Block(ip, 32).Contains(x)
  {
    x := Ip(true, Flipped(ip.addr));
    FlipStays(ip.addr, Floor(ip.addr, Pow2(96)), Pow2(96));
    FlipStays(ip.addr, 0, Pow2(128));
  }

  /** A packet the rule for `peer` at `node` lets through, its texts read as address blocks. */
  predicate Admits(acl: Policy, users: UserMap, peer: Node, node: Node, src: Ip, dst: Ip, q: Port)
    requires peer.addresses != [] && peer.addresses[0].ip.Some? && node.addresses != [] && node.addresses[0].ip.Some?
  {
    && Block(peer.addresses[0].ip.value, 32).Contains(src) && Block(node.addresses[0].ip.value, 32).Contains(dst)
    && exists d :: d in FilterFor(acl, users, peer, node).dstPorts && d.first <= q <= d.last
  }

  /** Exact ports make an exact rule, admitting the evaluated connection and nothing else, if and only
      if both addresses are IPv4: an IPv6 address is widened to 2^96 of them. */
  lemma FilterExactIff(acl: Policy, users: UserMap, peer: Node, node: Node)
    requires peer.addresses != [] && peer.addresses[0].ip.Some? && node.addresses != [] && node.addresses[0].ip.Some?
    requires IsAddress(peer.addresses[0].ip.value) && IsAddress(node.addresses[0].ip.value)
    requires var ctx := Connection(users, peer, node); Exact(acl, ctx) && exists q: Port :: Allows(acl, ctx, q)
    ensures var ctx := Connection(users, peer, node);
            (forall src, dst, q: Port :: IsAddress(src) && IsAddress(dst) ==>
               (Admits(acl, users, peer, node, src, dst, q) <==>
                   src == ctx.srcIp && dst == ctx.dstIp && Allows(acl, ctx, q)))
            <==> !ctx.srcIp.v6 && !ctx.dstIp.v6
  {
    var ctx := Connection(users, peer, node);
    forall q: Port { FilterPorts(acl, users, peer, node, q); }
    BlockIsAddressIff(ctx.srcIp);
    BlockIsAddressIff(ctx.dstIp);
    var q: Port :| Allows(acl, ctx, q);
    if ctx.srcIp.v6 {
      var x := Neighbour(ctx.srcIp);
      assert Admits(acl, users, peer, node, x, ctx.dstIp, q);
    }
    if ctx.dstIp.v6 {
      var x := Neighbour(ctx.dstIp);
      assert Admits(acl, users, peer, node, ctx.srcIp, x, q);
    }
  }

  /** The loopback address `::1` with `/32` also holds `::`. */
  lemma WidenedLoopback()
    ensures Block(Ip(true, 1), 32).Contains(Ip(true, 0))
  {
    assert Pow2(96) > 96;
  }
}
