/**
 The trees of gateways: registrations travel from the gateway a node is attached to up to the
 core of its tree, each gateway recording a next hop under its own clock reading; packets climb
 until a gateway knows the destination and then descend. A registration reaches the core as one step.
 */
module GatewayTree {
  import opened Bytes
  import opened SoftState

  type Gw = Nid

  /** A gateway without a parent is the core of its tree. */
  datatype Topology = Topology(gws: set<Gw>, parent: map<Gw, Gw>, depth: map<Gw, nat>, loc: map<Gw, Locator>, owner: map<Locator, Gw>) {
    predicate Valid() {
      && depth.Keys == gws && loc.Keys == gws && parent.Keys <= gws
      && (forall g | g in parent :: parent[g] in gws && depth[g] == depth[parent[g]] + 1)
      && (forall g | g in gws :: loc[g] != 0 && loc[g] in owner && owner[loc[g]] == g)
      && (forall l | l in owner :: owner[l] in gws && loc[owner[l]] == l)
    }

    /** `a` is `g` or lies below it. */
    predicate Under(a: Gw, g: Gw)
      requires Valid() && a in gws
      decreases depth[a]
    {
      a == g || (a in parent && Under(parent[a], g))
    }

    /** The child of `g` on the way down to `a`. */
    function Child(a: Gw, g: Gw): (c: Gw)
      requires Valid() && a in gws && Under(a, g) && a != g
      ensures c in parent && parent[c] == g && Under(a, c)
      decreases depth[a]
    {
      if parent[a] == g then a else Child(parent[a], g)
    }

    function CoreOf(g: Gw): (c: Gw)
      requires Valid() && g in gws
      ensures c in gws && c !in parent && Under(g, c)
      decreases depth[g]
    {
      if g in parent then CoreOf(parent[g]) else g
    }

    lemma UnderDepth(a: Gw, g: Gw)
      requires Valid() && a in gws && Under(a, g)
      ensures g in gws && depth[g] <= depth[a] && (depth[g] == depth[a] ==> a == g)
      decreases depth[a]
    {
      if a != g {
        UnderDepth(parent[a], g);
      }
    }

    /** How many levels `a` lies below `g`. */
    function Levels(a: Gw, g: Gw): (n: nat)
      requires Valid() && a in gws && Under(a, g)
      ensures n == 0 <==> a == g
      decreases depth[a]
    {
      if a == g then 0
      else
        UnderDepth(parent[a], g);
        1 + Levels(parent[a], g)
    }

    /** The same count from the other end. */
    lemma {:induction false} LevelsFromTop(a: Gw, g: Gw)
      requires Valid() && a in gws && Under(a, g) && a != g
      ensures Levels(a, g) == 1 + Levels(a, Child(a, g))
      decreases depth[a]
    {
      if parent[a] != g {
        LevelsFromTop(parent[a], g);
      }
    }

    lemma UnderTrans(a: Gw, b: Gw, c: Gw)
      requires Valid() && a in gws && b in gws && Under(a, b) && Under(b, c)
      ensures Under(a, c)
      decreases depth[a]
    {
      if a != b {
        UnderTrans(parent[a], b, c);
      }
    }
  }

  // ----- tables -----

  /** A routing lookup; on a miss the packet goes to the next gateway up. */
  function RtGet(m: Table, nid: Nid, now: int, gateway: Locator): (Table, Locator, bool) {
    if nid in m && Live(m[nid], GATEWAY_TIMEOUT, now) then
      if m[nid].ip != 0 then (m, m[nid].ip, true) else (m, gateway, false)
    else (m - {nid}, gateway, false)
  }

  type Registry = map<Nid, Locator>

  function RegistryPut(m: Registry, nid: Nid, ip: Locator): Registry {
    m[nid := ip]
  }

  /** The locator of another core, for a node that roams; 0 stands for none. */
  function RegistryGet(m: Registry, nid: Nid): Locator {
    if nid in m then m[nid] else 0
  }

  // ----- the network -----

  /** A registration handled: node, gateway it is attached to, locator, instant. */
  datatype Reg = Reg(nid: Nid, at: Gw, addr: Locator, time: int)

  /** The notice one core sends another about a node whose home that is. */
  datatype Redirect = Redirect(nid: Nid, home: Gw, ip: Locator)

  /** What a core did to its registry: a node came home, or a notice was handled. */
  datatype CoreEvent = CameHome(core: Gw, nid: Nid) | Noticed(core: Gw, nid: Nid, ip: Locator)

  datatype Net = Net(now: int, rt: map<Gw, Table>, registry: map<Gw, Registry>, sent: set<Redirect>,
                     log: seq<Reg>, coreLog: seq<CoreEvent>)

  datatype Act =
    | Tick
    | Register(nid: Nid, at: Gw, addr: Locator, home: Gw)
    | Lookup(g: Gw, nid: Nid)
    | Handle(notice: Redirect)
    | Pin(g: Gw, nid: Nid, ip: Locator)
    | Unpin(g: Gw, nid: Nid)

  /** The message on its way up from `g`: record `ip`, then pass on under one's own locator. */
  function Propagate(t: Topology, rt: map<Gw, Table>, nid: Nid, g: Gw, ip: Locator, now: int): (r: map<Gw, Table>)
    requires t.Valid() && g in t.gws && rt.Keys == t.gws
    ensures r.Keys == t.gws
    decreases t.depth[g]
  {
    var rt1 := rt[g := Write(rt[g], nid, ip, now)];
    if g in t.parent then Propagate(t, rt1, nid, t.parent[g], t.loc[g], now) else rt1
  }

  predicate WellFormed(t: Topology, n: Net) {
    t.Valid() && n.now > 0 && n.rt.Keys == t.gws && n.registry.Keys == t.gws
  }

  /**
   `pins` are the identifiers with static routes and those of the gateways themselves. They register like
   any other node, a gateway from a locator that is its own; every other node does so from a locator that
   is no gateway's.
   */
  predicate Enabled(t: Topology, pins: set<Nid>, n: Net, a: Act)
    requires WellFormed(t, n)
  {
    match a
    case Tick => true
    case Register(nid, at, addr, home) => at in t.gws && (nid !in pins ==> addr != 0 && addr !in t.owner)
    case Lookup(g, _) => g in t.gws
    case Handle(notice) => notice in n.sent && notice.home in t.gws && notice.home !in t.parent
    case Pin(g, nid, _) => g in t.gws && nid in pins
    case Unpin(g, nid) => g in t.gws && nid in pins
  }

  function Next(t: Topology, pins: set<Nid>, n: Net, a: Act): (n': Net)
    requires WellFormed(t, n) && Enabled(t, pins, n, a)
    ensures WellFormed(t, n')
  {
    match a
    case Tick => n.(now := n.now + 1)
    case Register(nid, at, addr, home) =>
      var core := t.CoreOf(at);
      var n1 := n.(rt := Propagate(t, n.rt, nid, at, addr, n.now), log := n.log + [Reg(nid, at, addr, n.now)]);
      if home == core then
        n1.(registry := n.registry[core := RegistryPut(n.registry[core], nid, 0)], coreLog := n.coreLog + [CameHome(core, nid)])
      else n1.(sent := n.sent + {Redirect(nid, home, t.loc[core])})
    case Lookup(g, nid) =>
      n.(rt := n.rt[g := RtGet(n.rt[g], nid, n.now, 0).0])
    case Handle(notice) =>
      n.(registry := n.registry[notice.home := RegistryPut(n.registry[notice.home], notice.nid, notice.ip)],
         coreLog := n.coreLog + [Noticed(notice.home, notice.nid, notice.ip)])
    case Pin(g, nid, ip) => n.(rt := n.rt[g := StaticWrite(n.rt[g], nid, ip)])
    case Unpin(g, nid) => n.(rt := n.rt[g := n.rt[g] - {nid}])
  }

  // ----- static routes -----

  /** A route without an age: `nid` is at `ip`, whatever the time. */
  predicate StaticAt(m: Table, nid: Nid, ip: Locator) {
    nid in m && m[nid] == Entry(ip, 0)
  }

  /** Registrations leave static routes alone. */
  lemma {:induction false} PropagateKeepsStatic(t: Topology, rt: map<Gw, Table>, nid: Nid, g: Gw, ip: Locator, now: int, x: Gw, id: Nid, at: Locator)
    requires t.Valid() && g in t.gws && rt.Keys == t.gws && x in t.gws && StaticAt(rt[x], id, at)
    ensures StaticAt(Propagate(t, rt, nid, g, ip, now)[x], id, at)
    decreases t.depth[g]
  {
    if g in t.parent {
      PropagateKeepsStatic(t, rt[g := Write(rt[g], nid, ip, now)], nid, t.parent[g], t.loc[g], now, x, id, at);
    }
  }

  /** Where a static route points after a step that does not take it back. */
  function Readdressed(a: Act, x: Gw, id: Nid, at: Locator): Locator {
    if a.Pin? && a.g == x && a.nid == id then a.ip else at
  }

  /** No step but its own removal takes a static route from a table, or moves it but a static write to it. */
  lemma StaticStep(t: Topology, pins: set<Nid>, n: Net, a: Act, x: Gw, id: Nid, at: Locator)
    requires WellFormed(t, n) && Enabled(t, pins, n, a) && x in t.gws && StaticAt(n.rt[x], id, at)
    requires !(a.Unpin? && a.g == x && a.nid == id)
    ensures StaticAt(Next(t, pins, n, a).rt[x], id, Readdressed(a, x, id, at))
  {
    if a.Register? {
      PropagateKeepsStatic(t, n.rt, a.nid, a.at, a.addr, n.now, x, id, at);
    }
  }

  /** A packet for an identifier with a static route goes where the route says, on the first lookup and on every other. */
  lemma StaticHop(t: Topology, n: Net, g: Gw, nid: Nid, dht: Locator, at: Locator)
    requires WellFormed(t, n) && g in t.gws && StaticAt(n.rt[g], nid, at) && at != 0
    ensures Hop(t, n, g, nid, dht) == Locate(t, at)
  {
  }

  // ----- routes as a function of the registrations -----

  /** The last registration of `nid` at or below `g`. */
  function Latest(t: Topology, log: seq<Reg>, nid: Nid, g: Gw): (r: Option<Reg>)
    requires t.Valid()
    ensures r.Some? ==> r.value.nid == nid && r.value in log && r.value.at in t.gws && t.Under(r.value.at, g)
  {
    if log == [] then None
    else
      var last := log[|log| - 1];
      if last.nid == nid && last.at in t.gws && t.Under(last.at, g) then Some(last)
      else Latest(t, log[..|log| - 1], nid, g)
  }

  /** Where a route at `g` for that registration must point: to the node, or to the child towards it. */
  function Towards(t: Topology, g: Gw, r: Reg): Locator
    requires t.Valid() && r.at in t.gws && t.Under(r.at, g)
  {
    if r.at == g then r.addr else t.loc[t.Child(r.at, g)]
  }

  predicate Fresh(r: Reg, now: int) {
    r.time + GATEWAY_TIMEOUT > now
  }

  /** The route of `nid` at `g` is what the latest registration below `g` says, unless that has expired. */
  predicate RouteFollowsLog(t: Topology, n: Net, g: Gw, nid: Nid)
    requires WellFormed(t, n) && g in t.gws
  {
    var r := Latest(t, n.log, nid, g);
    && (r.None? ==> nid !in n.rt[g])
    && (r.Some? ==>
          && 0 < r.value.time <= n.now
          && (nid in n.rt[g] ==> n.rt[g][nid] == Entry(Towards(t, g, r.value), r.value.time))
          && (nid !in n.rt[g] ==> !Fresh(r.value, n.now)))
  }

  ghost predicate Consistent(t: Topology, pins: set<Nid>, n: Net)
    requires WellFormed(t, n)
  {
    && (forall r | r in n.log && r.nid !in pins :: r.at in t.gws && r.addr != 0 && r.addr !in t.owner)
    && forall g, nid | g in t.gws && nid !in pins :: RouteFollowsLog(t, n, g, nid)
  }

  /** One registration writes exactly the tables from its gateway up to the core. */
  lemma {:induction false} PropagateAt(t: Topology, rt: map<Gw, Table>, nid: Nid, g: Gw, ip: Locator, now: int, x: Gw)
    requires t.Valid() && g in t.gws && rt.Keys == t.gws && x in t.gws
    ensures Propagate(t, rt, nid, g, ip, now)[x] ==
            if t.Under(g, x) then Write(rt[x], nid, if x == g then ip else t.loc[t.Child(g, x)], now) else rt[x]
    decreases t.depth[g]
  {
    var rt1 := rt[g := Write(rt[g], nid, ip, now)];
    if g in t.parent {
      var p := t.parent[g];
      PropagateAt(t, rt1, nid, p, t.loc[g], now, x);
      if x == g && t.Under(p, g) {
        t.UnderDepth(p, g);
      }
    }
  }

  lemma RegisterRoute(t: Topology, pins: set<Nid>, n: Net, a: Act, g: Gw, nid: Nid)
    requires WellFormed(t, n) && a.Register? && Enabled(t, pins, n, a)
    requires g in t.gws && nid !in pins && RouteFollowsLog(t, n, g, nid)
    ensures RouteFollowsLog(t, Next(t, pins, n, a), g, nid)
  {
    hide Topology.Valid, Topology.Under, Topology.Child, Topology.CoreOf, Propagate, RouteFollowsLog, Write;
    var n' := Next(t, pins, n, a);
    PropagateAt(t, n.rt, a.nid, a.at, a.addr, n.now, g);
    assert n'.log == n.log + [Reg(a.nid, a.at, a.addr, n.now)];
    RecordedRoute(t, n, n', Reg(a.nid, a.at, a.addr, n.now), g, nid);
  }

  /** A registration logged and, where it passes, recorded. */
  lemma RecordedRoute(t: Topology, n: Net, n': Net, r: Reg, g: Gw, nid: Nid)
    requires WellFormed(t, n) && WellFormed(t, n') && n'.now == n.now == r.time && n'.log == n.log + [r]
    requires r.at in t.gws && g in t.gws && RouteFollowsLog(t, n, g, nid)
    requires n'.rt[g] == if t.Under(r.at, g) then Write(n.rt[g], r.nid, Towards(t, g, r), n.now) else n.rt[g]
    ensures RouteFollowsLog(t, n', g, nid)
  {
    hide Topology.Valid, Topology.Under, Topology.Child;
    assert n'.log[..|n'.log| - 1] == n.log && n'.log[|n'.log| - 1] == r;
  }

  lemma LookupRoute(t: Topology, pins: set<Nid>, n: Net, a: Act, g: Gw, nid: Nid)
    requires WellFormed(t, n) && !a.Register? && Enabled(t, pins, n, a)
    requires g in t.gws && nid !in pins && RouteFollowsLog(t, n, g, nid)
    ensures RouteFollowsLog(t, Next(t, pins, n, a), g, nid)
  {
    hide Topology.Valid, Topology.Under, Topology.Child, Topology.CoreOf, Propagate;
  }

  /** Every step keeps the routes in agreement with the registrations. */
  lemma NextConsistent(t: Topology, pins: set<Nid>, n: Net, a: Act)
    requires WellFormed(t, n) && Enabled(t, pins, n, a) && Consistent(t, pins, n)
    ensures Consistent(t, pins, Next(t, pins, n, a))
  {
    hide RouteFollowsLog;
    forall g, nid | g in t.gws && nid !in pins
      ensures RouteFollowsLog(t, Next(t, pins, n, a), g, nid)
    {
      assert RouteFollowsLog(t, n, g, nid);
      if a.Register? {
        RegisterRoute(t, pins, n, a, g, nid);
      } else {
        LookupRoute(t, pins, n, a, g, nid);
      }
    }
  }

  // ----- forwarding -----

  datatype Where = AtGw(g: Gw) | Delivered(addr: Locator) | Dropped

  /** Who receives what is sent to a locator. */
  function Locate(t: Topology, dst: Locator): Where {
    if dst in t.owner then AtGw(t.owner[dst]) else Delivered(dst)
  }

  /** One forwarding decision; `dht` is what the hash table outside the system knows, 0 for nothing. */
  function Hop(t: Topology, n: Net, g: Gw, nid: Nid, dht: Locator): Where
    requires WellFormed(t, n) && g in t.gws
  {
    if g in t.parent then Locate(t, RtGet(n.rt[g], nid, n.now, t.loc[t.parent[g]]).1)
    else
      var (_, dst, found) := RtGet(n.rt[g], nid, n.now, 0);
      if found then Locate(t, dst)
      else if RegistryGet(n.registry[g], nid) != 0 then Locate(t, RegistryGet(n.registry[g], nid))
      else if dht != 0 then Locate(t, dht)
      else Dropped
  }

  function Travel(t: Topology, n: Net, w: Where, nid: Nid, dht: Locator, hops: nat): Where
    requires WellFormed(t, n) && (w.AtGw? ==> w.g in t.gws)
    decreases hops
  {
    if hops == 0 || !w.AtGw? then w else Travel(t, n, Hop(t, n, w.g, nid, dht), nid, dht, hops - 1)
  }

  /** A live registration of `nid` at or below `g`. */
  predicate Knows(t: Topology, n: Net, g: Gw, nid: Nid)
    requires WellFormed(t, n)
  {
    Latest(t, n.log, nid, g).Some? && Fresh(Latest(t, n.log, nid, g).value, n.now)
  }

  lemma {:induction false} LatestBelow(t: Topology, log: seq<Reg>, nid: Nid, g: Gw, c: Gw)
    requires t.Valid() && c in t.parent && t.parent[c] == g
    requires Latest(t, log, nid, g).Some? && t.Under(Latest(t, log, nid, g).value.at, c)
    ensures Latest(t, log, nid, c) == Latest(t, log, nid, g)
  {
    var last := log[|log| - 1];
    if !(last.nid == nid && last.at in t.gws && t.Under(last.at, g)) {
      if last.at in t.gws && t.Under(last.at, c) {
        t.UnderTrans(last.at, c, g);
      }
      LatestBelow(t, log[..|log| - 1], nid, g, c);
    }
  }

  /** A gateway that knows a live registration sends the packet to the node, or to a child that knows the same one. */
  lemma HopDown(t: Topology, pins: set<Nid>, n: Net, g: Gw, nid: Nid, dht: Locator)
    requires WellFormed(t, n) && Consistent(t, pins, n) && g in t.gws && nid !in pins && Knows(t, n, g, nid)
    ensures var r := Latest(t, n.log, nid, g).value;
            if r.at == g then Hop(t, n, g, nid, dht) == Delivered(r.addr)
            else
              var c := t.Child(r.at, g);
              Hop(t, n, g, nid, dht) == AtGw(c) && Knows(t, n, c, nid) && Latest(t, n.log, nid, c) == Some(r)
  {
    var r := Latest(t, n.log, nid, g).value;
    assert RouteFollowsLog(t, n, g, nid);
    assert r in n.log;
    if r.at != g {
      LatestBelow(t, n.log, nid, g, t.Child(r.at, g));
    }
  }

  /** A gateway below the core that knows none sends the packet to its parent. */
  lemma HopUp(t: Topology, pins: set<Nid>, n: Net, g: Gw, nid: Nid, dht: Locator)
    requires WellFormed(t, n) && Consistent(t, pins, n) && g in t.parent && nid !in pins && !Knows(t, n, g, nid)
    ensures Hop(t, n, g, nid, dht) == AtGw(t.parent[g])
  {
    assert RouteFollowsLog(t, n, g, nid);
  }

  /** From a gateway that knows the node the packet only descends, one level a hop. */
  lemma {:induction false} Descent(t: Topology, pins: set<Nid>, n: Net, g: Gw, nid: Nid, dht: Locator)
    requires WellFormed(t, n) && Consistent(t, pins, n) && g in t.gws && nid !in pins && Knows(t, n, g, nid)
    ensures var r := Latest(t, n.log, nid, g).value;
            Travel(t, n, AtGw(g), nid, dht, t.Levels(r.at, g) + 1) == Delivered(r.addr)
    decreases var r := Latest(t, n.log, nid, g).value; t.Levels(r.at, g)
  {
    var r := Latest(t, n.log, nid, g).value;
    HopDown(t, pins, n, g, nid, dht);
    if r.at != g {
      t.LevelsFromTop(r.at, g);
      Descent(t, pins, n, t.Child(r.at, g), nid, dht);
    }
  }

  /** The first gateway on the way up that knows the node. */
  function Knower(t: Topology, n: Net, g: Gw, nid: Nid): (k: Gw)
    requires WellFormed(t, n) && g in t.gws
    ensures k in t.gws && t.Under(g, k)
    ensures Knows(t, n, k, nid) || k == t.CoreOf(g)
    decreases t.depth[g]
  {
    if Knows(t, n, g, nid) || g !in t.parent then g else Knower(t, n, t.parent[g], nid)
  }

  /** Travelling is additive while the packet stays at gateways. */
  lemma {:induction false} Climb(t: Topology, pins: set<Nid>, n: Net, g: Gw, nid: Nid, dht: Locator, more: nat)
    requires WellFormed(t, n) && Consistent(t, pins, n) && g in t.gws && nid !in pins
    ensures var k := Knower(t, n, g, nid);
            Travel(t, n, AtGw(g), nid, dht, t.Levels(g, k) + more) == Travel(t, n, AtGw(k), nid, dht, more)
    decreases t.depth[g]
  {
    hide Topology.CoreOf, Topology.Under, Consistent, Hop, Latest;
    if !Knows(t, n, g, nid) && g in t.parent {
      HopUp(t, pins, n, g, nid, dht);
      Climb(t, pins, n, t.parent[g], nid, dht, more);
    }
  }

  /**
   Loop-free delivery: a packet for a node registered anywhere in the tree less than the timeout ago
   climbs to the first gateway that knows it and descends to the locator last registered below that
   gateway; the number of hops is exact.
   */
  lemma Delivery(t: Topology, pins: set<Nid>, n: Net, g: Gw, nid: Nid, dht: Locator)
    requires WellFormed(t, n) && Consistent(t, pins, n) && g in t.gws && nid !in pins
    requires Knows(t, n, t.CoreOf(g), nid)
    ensures var k := Knower(t, n, g, nid);
            && Knows(t, n, k, nid)
            && var r := Latest(t, n.log, nid, k).value;
            && Fresh(r, n.now)
            && Travel(t, n, AtGw(g), nid, dht, t.Levels(g, k) + t.Levels(r.at, k) + 1) == Delivered(r.addr)
  {
    hide Topology.Valid, Topology.Under, Topology.CoreOf, Topology.Levels, Consistent, RouteFollowsLog, Travel, Latest, Fresh;
    var k := Knower(t, n, g, nid);
    Descent(t, pins, n, k, nid, dht);
    var r := Latest(t, n.log, nid, k).value;
    Climb(t, pins, n, g, nid, dht, t.Levels(r.at, k) + 1);
  }
}
