/**
 Registrations that take their time: each gateway passes a registration up in a message that arrives
 within a delay, late, twice, out of order or not at all. Routes of different levels then lapse at
 different times, and a packet can bounce between two of them; this bounds when, and for how long.
 */
module DelayedClimb {
  import opened Bytes
  import opened SoftState
  import opened GatewayTree
  import Roaming

  /** The message from a gateway to its parent, under the gateway's own locator. */
  datatype Message = Message(nid: Nid, from: Gw, sentAt: int)

  /** `wrote` records when a gateway last handled a registration of a node. */
  datatype State = State(net: Net, climbing: set<Message>, wrote: map<(Gw, Nid), int>)

  datatype Act =
    | Tick
    | Attach(nid: Nid, at: Gw, addr: Locator)
    | Arrive(m: Message)
    | Lookup(g: Gw, nid: Nid)
    | Pin(g: Gw, nid: Nid, ip: Locator)
    | Unpin(g: Gw, nid: Nid)

  predicate Enabled(t: Topology, pins: set<Nid>, delay: nat, s: State, a: Act) {
    match a
    case Tick => true
    case Attach(nid, at, addr) => at in t.gws && (nid !in pins ==> addr != 0 && addr !in t.owner)
    case Arrive(m) => m in s.climbing && m.from in t.parent && s.net.now <= m.sentAt + delay
    case Lookup(g, _) => g in t.gws
    case Pin(g, nid, _) => g in t.gws && nid in pins
    case Unpin(g, nid) => g in t.gws && nid in pins
  }

  /** A gateway handles a registration: it records the route and passes the message on. */
  function Record(t: Topology, s: State, g: Gw, nid: Nid, ip: Locator): (s': State)
    requires WellFormed(t, s.net) && g in t.gws
    ensures WellFormed(t, s'.net)
  {
    State(s.net.(rt := s.net.rt[g := Write(s.net.rt[g], nid, ip, s.net.now)]),
          s.climbing + {Message(nid, g, s.net.now)},
          s.wrote[(g, nid) := s.net.now])
  }

  function Next(t: Topology, pins: set<Nid>, delay: nat, s: State, a: Act): (s': State)
    requires WellFormed(t, s.net) && Enabled(t, pins, delay, s, a)
    ensures WellFormed(t, s'.net)
  {
    match a
    case Tick => s.(net := s.net.(now := s.net.now + 1))
    case Attach(nid, at, addr) =>
      Record(t, s.(net := s.net.(log := s.net.log + [Reg(nid, at, addr, s.net.now)])), at, nid, addr)
    case Arrive(m) => Record(t, s, t.parent[m.from], m.nid, t.loc[m.from])
    case Lookup(g, nid) => s.(net := s.net.(rt := s.net.rt[g := RtGet(s.net.rt[g], nid, s.net.now, 0).0]))
    case Pin(g, nid, ip) => s.(net := s.net.(rt := s.net.rt[g := StaticWrite(s.net.rt[g], nid, ip)]))
    case Unpin(g, nid) => s.(net := s.net.(rt := s.net.rt[g := s.net.rt[g] - {nid}]))
  }

  // ----- what every run keeps -----

  /** The route of `nid` at `g` is where its last registration left it, unless it has expired. */
  predicate Kept(s: State, g: Gw, nid: Nid)
    requires g in s.net.rt
  {
    if nid in s.net.rt[g] then
      (g, nid) in s.wrote && s.wrote[(g, nid)] == s.net.rt[g][nid].tstamp && 0 < s.net.rt[g][nid].tstamp <= s.net.now
    else
      (g, nid) in s.wrote ==> s.wrote[(g, nid)] + GATEWAY_TIMEOUT <= s.net.now
  }

  /** `ip` is the node itself, registered at `g` at `time`. */
  predicate NamesNode(t: Topology, s: State, g: Gw, nid: Nid, ip: Locator, time: int) {
    ip != 0 && ip !in t.owner && Reg(nid, g, ip, time) in s.net.log
  }

  /** `ip` is a child of `g` that handled a registration at most the delay before `time`. */
  predicate NamesChild(t: Topology, delay: nat, s: State, g: Gw, nid: Nid, ip: Locator, time: int)
    requires t.Valid()
  {
    && ip in t.owner && t.owner[ip] in t.parent && t.parent[t.owner[ip]] == g
    && (t.owner[ip], nid) in s.wrote && time - delay <= s.wrote[(t.owner[ip], nid)]
  }

  predicate RouteInv(t: Topology, delay: nat, s: State, g: Gw, nid: Nid)
    requires WellFormed(t, s.net) && g in t.gws
  {
    && Kept(s, g, nid)
    && (nid in s.net.rt[g] ==>
          var e := s.net.rt[g][nid];
          NamesNode(t, s, g, nid, e.ip, e.tstamp) || NamesChild(t, delay, s, g, nid, e.ip, e.tstamp))
  }

  predicate MessageInv(s: State, m: Message) {
    (m.from, m.nid) in s.wrote && m.sentAt <= s.wrote[(m.from, m.nid)] <= s.net.now
  }

  ghost predicate Inv(t: Topology, pins: set<Nid>, delay: nat, s: State) {
    && WellFormed(t, s.net)
    && (forall m | m in s.climbing :: MessageInv(s, m))
    && (forall g, nid | g in t.gws && nid !in pins :: RouteInv(t, delay, s, g, nid))
  }

  /** Handling a registration of an ordinary node keeps every route. */
  lemma RecordKeeps(t: Topology, pins: set<Nid>, delay: nat, s: State, g: Gw, nid: Nid, ip: Locator, x: Gw, id: Nid)
    requires WellFormed(t, s.net) && g in t.gws && x in t.gws && RouteInv(t, delay, s, x, id)
    requires (g, nid) in s.wrote ==> s.wrote[(g, nid)] <= s.net.now
    requires g == x && nid == id ==>
               NamesNode(t, s, g, nid, ip, s.net.now) || NamesChild(t, delay, s, g, nid, ip, s.net.now)
    ensures RouteInv(t, delay, Record(t, s, g, nid, ip), x, id)
  {
    hide Topology.Valid;
    var s' := Record(t, s, g, nid, ip);
    if g == x && nid == id {
      assert s'.net.rt[x] == Write(s.net.rt[x], id, ip, s.net.now);
    } else {
      assert id in s'.net.rt[x] <==> id in s.net.rt[x];
    }
  }

  /** What a message that arrives makes its receiver's route name. */
  lemma ArrivalNamesChild(t: Topology, pins: set<Nid>, delay: nat, s: State, m: Message)
    requires WellFormed(t, s.net) && Enabled(t, pins, delay, s, Arrive(m)) && MessageInv(s, m)
    ensures NamesChild(t, delay, s, t.parent[m.from], m.nid, t.loc[m.from], s.net.now)
  {
  }

  /** No time is recorded that has not come yet. */
  ghost predicate PastOnly(s: State) {
    forall k | k in s.wrote :: s.wrote[k] <= s.net.now
  }

  lemma LogGrows(t: Topology, delay: nat, s: State, r: Reg, x: Gw, id: Nid)
    requires WellFormed(t, s.net) && x in t.gws && RouteInv(t, delay, s, x, id)
    ensures RouteInv(t, delay, s.(net := s.net.(log := s.net.log + [r])), x, id)
  {
  }

  lemma AttachKeeps(t: Topology, pins: set<Nid>, delay: nat, s: State, a: Act, x: Gw, id: Nid)
    requires WellFormed(t, s.net) && PastOnly(s) && a.Attach? && Enabled(t, pins, delay, s, a)
    requires x in t.gws && id !in pins && RouteInv(t, delay, s, x, id)
    ensures RouteInv(t, delay, Next(t, pins, delay, s, a), x, id)
  {
    hide RouteInv, Record, NamesChild, Topology.Valid;
    var r := Reg(a.nid, a.at, a.addr, s.net.now);
    LogGrows(t, delay, s, r, x, id);
    RecordKeeps(t, pins, delay, s.(net := s.net.(log := s.net.log + [r])), a.at, a.nid, a.addr, x, id);
  }

  lemma ArriveKeeps(t: Topology, pins: set<Nid>, delay: nat, s: State, a: Act, x: Gw, id: Nid)
    requires WellFormed(t, s.net) && PastOnly(s) && a.Arrive? && Enabled(t, pins, delay, s, a) && MessageInv(s, a.m)
    requires x in t.gws && RouteInv(t, delay, s, x, id)
    ensures RouteInv(t, delay, Next(t, pins, delay, s, a), x, id)
  {
    hide RouteInv, Record, NamesNode, NamesChild, Topology.Valid;
    ParentThere(t, a.m.from);
    ArrivalNamesChild(t, pins, delay, s, a.m);
    RecordKeeps(t, pins, delay, s, t.parent[a.m.from], a.m.nid, t.loc[a.m.from], x, id);
  }

  lemma RouteStep(t: Topology, pins: set<Nid>, delay: nat, s: State, a: Act, x: Gw, id: Nid)
    requires Inv(t, pins, delay, s) && PastOnly(s) && Enabled(t, pins, delay, s, a) && x in t.gws && id !in pins
    ensures RouteInv(t, delay, Next(t, pins, delay, s, a), x, id)
  {
    assert RouteInv(t, delay, s, x, id);
    if a.Attach? {
      AttachKeeps(t, pins, delay, s, a, x, id);
    } else if a.Arrive? {
      ArriveKeeps(t, pins, delay, s, a, x, id);
    } else {
      QuietKeeps(t, pins, delay, s, a, x, id);
    }
  }

  lemma QuietKeeps(t: Topology, pins: set<Nid>, delay: nat, s: State, a: Act, x: Gw, id: Nid)
    requires WellFormed(t, s.net) && !a.Attach? && !a.Arrive? && Enabled(t, pins, delay, s, a)
    requires x in t.gws && id !in pins && RouteInv(t, delay, s, x, id)
    ensures RouteInv(t, delay, Next(t, pins, delay, s, a), x, id)
  {
    hide Topology.Valid;
  }

  lemma ParentThere(t: Topology, c: Gw)
    requires t.Valid() && c in t.parent
    ensures t.parent[c] in t.gws && c in t.loc
  {
  }

  lemma MessageStep(t: Topology, pins: set<Nid>, delay: nat, s: State, a: Act, m: Message)
    requires Inv(t, pins, delay, s) && PastOnly(s) && Enabled(t, pins, delay, s, a)
    requires m in Next(t, pins, delay, s, a).climbing
    ensures MessageInv(Next(t, pins, delay, s, a), m)
  {
    hide RouteInv, Topology.Valid;
  }

  lemma PastStep(t: Topology, pins: set<Nid>, delay: nat, s: State, a: Act)
    requires WellFormed(t, s.net) && PastOnly(s) && Enabled(t, pins, delay, s, a)
    ensures PastOnly(Next(t, pins, delay, s, a))
  {
    hide Topology.Valid;
  }

  lemma StepInv(t: Topology, pins: set<Nid>, delay: nat, s: State, a: Act)
    requires Inv(t, pins, delay, s) && PastOnly(s) && Enabled(t, pins, delay, s, a)
    ensures Inv(t, pins, delay, Next(t, pins, delay, s, a)) && PastOnly(Next(t, pins, delay, s, a))
  {
    PastStep(t, pins, delay, s, a);
    hide RouteInv, MessageInv, Next, PastOnly;
    forall x, id | x in t.gws && id !in pins
      ensures RouteInv(t, delay, Next(t, pins, delay, s, a), x, id)
    {
      RouteStep(t, pins, delay, s, a, x, id);
    }
    forall m | m in Next(t, pins, delay, s, a).climbing
      ensures MessageInv(Next(t, pins, delay, s, a), m)
    {
      MessageStep(t, pins, delay, s, a, m);
    }
  }

  // ----- runs -----

  /** At start-up there are static routes only, and nothing is under way. */
  predicate Initial(t: Topology, pins: set<Nid>, s: State) {
    && WellFormed(t, s.net) && s.climbing == {} && s.wrote == map[]
    && forall g | g in t.gws :: s.net.rt[g].Keys <= pins
  }

  predicate CanStep(t: Topology, pins: set<Nid>, delay: nat, s: State, a: Act) {
    WellFormed(t, s.net) && Enabled(t, pins, delay, s, a)
  }

  /** The state after `acts`; steps that are not enabled do nothing. */
  function After(t: Topology, pins: set<Nid>, delay: nat, s: State, acts: seq<Act>): State {
    if acts == [] then s
    else
      var before := After(t, pins, delay, s, acts[..|acts| - 1]);
      if CanStep(t, pins, delay, before, acts[|acts| - 1]) then Next(t, pins, delay, before, acts[|acts| - 1]) else before
  }

  lemma {:induction false} RunInv(t: Topology, pins: set<Nid>, delay: nat, s: State, acts: seq<Act>)
    requires Initial(t, pins, s)
    ensures Inv(t, pins, delay, After(t, pins, delay, s, acts)) && PastOnly(After(t, pins, delay, s, acts))
  {
    if acts != [] {
      hide Inv, PastOnly, Next, Enabled, Initial;
      var front, a := acts[..|acts| - 1], acts[|acts| - 1];
      RunInv(t, pins, delay, s, front);
      if CanStep(t, pins, delay, After(t, pins, delay, s, front), a) {
        StepInv(t, pins, delay, After(t, pins, delay, s, front), a);
      }
    }
  }

  // ----- static routes -----

  /** Where the acts have left a static route that was at `at`. */
  function StaticLocator(acts: seq<Act>, x: Gw, id: Nid, at: Locator): Locator {
    if acts == [] then at
    else
      var a := acts[|acts| - 1];
      if a.Pin? && a.g == x && a.nid == id then a.ip else StaticLocator(acts[..|acts| - 1], x, id, at)
  }

  lemma StaticStep(t: Topology, pins: set<Nid>, delay: nat, s: State, a: Act, x: Gw, id: Nid, at: Locator)
    requires CanStep(t, pins, delay, s, a) && x in t.gws && StaticAt(s.net.rt[x], id, at)
    requires a != Act.Unpin(x, id)
    ensures StaticAt(Next(t, pins, delay, s, a).net.rt[x], id, if a.Pin? && a.g == x && a.nid == id then a.ip else at)
  {
    hide Topology.Valid;
  }

  /** With delays too a static route stays until it is taken back, and packets go where its last static write says. */
  lemma {:induction false} StaticRoutes(t: Topology, pins: set<Nid>, delay: nat, s: State, acts: seq<Act>, x: Gw, id: Nid, at: Locator, dht: Locator)
    requires WellFormed(t, s.net) && x in t.gws && StaticAt(s.net.rt[x], id, at)
    requires Act.Unpin(x, id) !in acts
    requires forall i | 0 <= i < |acts| :: CanStep(t, pins, delay, After(t, pins, delay, s, acts[..i]), acts[i])
    ensures var n, ip := After(t, pins, delay, s, acts).net, StaticLocator(acts, x, id, at);
            WellFormed(t, n) && StaticAt(n.rt[x], id, ip) && (ip != 0 ==> Hop(t, n, x, id, dht) == Locate(t, ip))
  {
    hide Next, CanStep, StaticAt, Hop, Topology.Valid;
    if acts != [] {
      var front, a := acts[..|acts| - 1], acts[|acts| - 1];
      assert forall i | 0 <= i < |front| :: front[..i] == acts[..i] && front[i] == acts[i];
      assert acts[..|front|] == front && a in acts;
      StaticRoutes(t, pins, delay, s, front, x, id, at, dht);
      StaticStep(t, pins, delay, After(t, pins, delay, s, front), a, x, id, StaticLocator(front, x, id, at));
    }
    if StaticLocator(acts, x, id, at) != 0 {
      StaticHop(t, After(t, pins, delay, s, acts).net, x, id, dht, StaticLocator(acts, x, id, at));
    }
  }

  // ----- delivery -----

  predicate LiveAt(n: Net, g: Gw, nid: Nid)
    requires g in n.rt
  {
    nid in n.rt[g] && Live(n.rt[g][nid], GATEWAY_TIMEOUT, n.now)
  }

  /** The route at `c` lapsed less than the delay ago, so that its parent may not know yet. */
  predicate Lapsing(delay: nat, s: State, c: Gw, nid: Nid) {
    && (c, nid) in s.wrote
    && s.wrote[(c, nid)] + GATEWAY_TIMEOUT <= s.net.now < s.wrote[(c, nid)] + GATEWAY_TIMEOUT + delay
  }

  /** No route of `nid` lapsed less than the delay ago. */
  ghost predicate Settled(t: Topology, delay: nat, s: State, nid: Nid) {
    forall c | c in t.gws :: !Lapsing(delay, s, c, nid)
  }

  /** A registration of `nid` that is recent enough at the gateway it was made at. */
  predicate Recent(s: State, nid: Nid, r: Reg) {
    r.nid == nid && r in s.net.log && Fresh(r, s.net.now)
  }

  /** A live route leads to the node, or to a child whose route is live or lapsed less than the delay ago. */
  lemma LiveHop(t: Topology, pins: set<Nid>, delay: nat, s: State, g: Gw, nid: Nid, dht: Locator)
    requires Inv(t, pins, delay, s) && g in t.gws && nid !in pins && LiveAt(s.net, g, nid)
    ensures var e := s.net.rt[g][nid];
            if e.ip in t.owner then
              var c := t.owner[e.ip];
              c in t.parent && t.parent[c] == g && Hop(t, s.net, g, nid, dht) == AtGw(c)
              && (Lapsing(delay, s, c, nid) || LiveAt(s.net, c, nid))
            else
              Hop(t, s.net, g, nid, dht) == Where.Delivered(e.ip) && Recent(s, nid, Reg(nid, g, e.ip, e.tstamp))
  {
    assert RouteInv(t, delay, s, g, nid);
    var e := s.net.rt[g][nid];
    if e.ip in t.owner {
      assert RouteInv(t, delay, s, t.owner[e.ip], nid);
    }
  }

  lemma DeadHop(t: Topology, pins: set<Nid>, delay: nat, s: State, g: Gw, nid: Nid, dht: Locator)
    requires Inv(t, pins, delay, s) && g in t.parent && nid !in pins && !LiveAt(s.net, g, nid)
    ensures t.parent[g] in t.gws && t.depth[g] > 0 && t.depth[t.parent[g]] == t.depth[g] - 1
    ensures Hop(t, s.net, g, nid, dht) == AtGw(t.parent[g])
  {
    assert RouteInv(t, delay, s, g, nid);
  }

  /** A packet bounces between a gateway and its child only while the child's route has lapsed less than the delay ago. */
  lemma BounceMeansLapsing(t: Topology, pins: set<Nid>, delay: nat, s: State, p: Gw, c: Gw, nid: Nid, dht: Locator)
    requires Inv(t, pins, delay, s) && c in t.parent && t.parent[c] == p && p in t.gws && nid !in pins
    requires Hop(t, s.net, p, nid, dht) == AtGw(c) && Hop(t, s.net, c, nid, dht) == AtGw(p)
    requires LiveAt(s.net, p, nid)
    ensures Lapsing(delay, s, c, nid)
  {
    LiveHop(t, pins, delay, s, p, nid, dht);
    if LiveAt(s.net, c, nid) {
      LiveHop(t, pins, delay, s, c, nid, dht);
    }
  }

  lemma ChildDeeper(t: Topology, c: Gw, g: Gw)
    requires t.Valid() && c in t.parent && t.parent[c] == g
    ensures c in t.gws && t.depth[c] == t.depth[g] + 1
  {
  }

  /** The live route at `g` names a child whose own route is not live. */
  predicate NamesDead(t: Topology, n: Net, g: Gw, nid: Nid)
    requires WellFormed(t, n) && g in t.gws
  {
    LiveAt(n, g, nid) && n.rt[g][nid].ip in t.owner && !LiveAt(n, t.owner[n.rt[g][nid].ip], nid)
  }

  /** From `g` down, route after route leads to a live one, until one names the node; `k` bounds the levels. */
  predicate LeadsDown(t: Topology, n: Net, g: Gw, nid: Nid, k: nat)
    requires WellFormed(t, n) && g in t.gws
    decreases k
  {
    && LiveAt(n, g, nid)
    && (n.rt[g][nid].ip in t.owner ==> k > 0 && LeadsDown(t, n, t.owner[n.rt[g][nid].ip], nid, k - 1))
  }

  /** The packet has reached the node after `hops` hops. */
  predicate DeliveredIn(t: Topology, n: Net, g: Gw, nid: Nid, dht: Locator, hops: nat)
    requires WellFormed(t, n) && g in t.gws
  {
    Travel(t, n, AtGw(g), nid, dht, hops).Delivered?
  }

  predicate Bottom(t: Topology, bottom: nat)
    requires t.Valid()
  {
    forall x | x in t.gws :: t.depth[x] <= bottom
  }

  /** A route that names a dead child never delivers. */
  lemma DeadChildLoops(t: Topology, pins: set<Nid>, delay: nat, s: State, g: Gw, nid: Nid, dht: Locator, hops: nat)
    requires Inv(t, pins, delay, s) && g in t.gws && nid !in pins && NamesDead(t, s.net, g, nid)
    ensures !DeliveredIn(t, s.net, g, nid, dht, hops)
  {
    LiveHop(t, pins, delay, s, g, nid, dht);
    Roaming.LapsedChildBounces(t, s.net, g, t.owner[s.net.rt[g][nid].ip], nid, dht, hops);
  }

  /** One hop along a route to a child. */
  lemma HopToChild(t: Topology, pins: set<Nid>, delay: nat, s: State, g: Gw, nid: Nid, dht: Locator, hops: nat)
    requires Inv(t, pins, delay, s) && g in t.gws && nid !in pins && LiveAt(s.net, g, nid) && s.net.rt[g][nid].ip in t.owner
    ensures var c := t.owner[s.net.rt[g][nid].ip];
            && c in t.gws && t.depth[c] == t.depth[g] + 1
            && Travel(t, s.net, AtGw(g), nid, dht, hops + 1) == Travel(t, s.net, AtGw(c), nid, dht, hops)
  {
    LiveHop(t, pins, delay, s, g, nid, dht);
    ChildDeeper(t, t.owner[s.net.rt[g][nid].ip], g);
  }

  /** Where all routes on the way down are live, the packet descends, one level a hop, to a recent registration. */
  lemma {:induction false} DescentDelivers(t: Topology, pins: set<Nid>, delay: nat, s: State, g: Gw, nid: Nid, dht: Locator, k: nat)
      returns (hops: nat, r: Reg)
    requires Inv(t, pins, delay, s) && g in t.gws && nid !in pins && LeadsDown(t, s.net, g, nid, k)
    ensures hops <= k + 1 && Recent(s, nid, r)
    ensures Travel(t, s.net, AtGw(g), nid, dht, hops) == Where.Delivered(r.addr)
    decreases k
  {
    var e := s.net.rt[g][nid];
    if e.ip in t.owner {
      HopToChild(t, pins, delay, s, g, nid, dht, 0);
      var below, r' := DescentDelivers(t, pins, delay, s, t.owner[e.ip], nid, dht, k - 1);
      HopToChild(t, pins, delay, s, g, nid, dht, below);
      hops, r := below + 1, r';
    } else {
      LiveHop(t, pins, delay, s, g, nid, dht);
      hops, r := 1, Reg(nid, g, e.ip, e.tstamp);
      assert Travel(t, s.net, Where.Delivered(e.ip), nid, dht, 0) == Where.Delivered(e.ip);
    }
  }

  /** Where one of them names a dead child, the packet is not delivered in any number of hops. */
  lemma {:induction false} DescentLoops(t: Topology, pins: set<Nid>, delay: nat, s: State, g: Gw, nid: Nid, dht: Locator, k: nat, hops: nat)
    requires Inv(t, pins, delay, s) && g in t.gws && nid !in pins && LiveAt(s.net, g, nid) && !LeadsDown(t, s.net, g, nid, k)
    requires Bottom(t, t.depth[g] + k)
    ensures !DeliveredIn(t, s.net, g, nid, dht, hops)
    decreases k
  {
    if NamesDead(t, s.net, g, nid) {
      DeadChildLoops(t, pins, delay, s, g, nid, dht, hops);
    } else {
      HopToChild(t, pins, delay, s, g, nid, dht, 0);
      if hops > 0 {
        HopToChild(t, pins, delay, s, g, nid, dht, hops - 1);
        DescentLoops(t, pins, delay, s, t.owner[s.net.rt[g][nid].ip], nid, dht, k - 1, hops - 1);
      }
    }
  }

  /** `g` or a gateway above it has a live route. */
  predicate KnownAbove(t: Topology, n: Net, g: Gw, nid: Nid)
    requires WellFormed(t, n) && g in t.gws
    decreases t.depth[g]
  {
    LiveAt(n, g, nid) || (g in t.parent && KnownAbove(t, n, t.parent[g], nid))
  }

  /** The first of them. */
  function FirstLive(t: Topology, n: Net, g: Gw, nid: Nid): (f: Gw)
    requires WellFormed(t, n) && g in t.gws && KnownAbove(t, n, g, nid)
    ensures f in t.gws && LiveAt(n, f, nid) && t.depth[f] <= t.depth[g]
    decreases t.depth[g]
  {
    if LiveAt(n, g, nid) then g else FirstLive(t, n, t.parent[g], nid)
  }

  /** The packet climbs to the first live route, one level a hop. */
  lemma {:induction false} ClimbToLive(t: Topology, pins: set<Nid>, delay: nat, s: State, g: Gw, nid: Nid, dht: Locator, more: nat)
    requires Inv(t, pins, delay, s) && g in t.gws && nid !in pins && KnownAbove(t, s.net, g, nid)
    ensures var f := FirstLive(t, s.net, g, nid);
            Travel(t, s.net, AtGw(g), nid, dht, t.depth[g] - t.depth[f] + more) == Travel(t, s.net, AtGw(f), nid, dht, more)
    decreases t.depth[g]
  {
    if !LiveAt(s.net, g, nid) {
      DeadHop(t, pins, delay, s, g, nid, dht);
      ClimbToLive(t, pins, delay, s, t.parent[g], nid, dht, more);
    }
  }

  /** Before it gets there it is not delivered. */
  lemma {:induction false} NotBeforeLive(t: Topology, pins: set<Nid>, delay: nat, s: State, g: Gw, nid: Nid, dht: Locator, hops: nat)
    requires Inv(t, pins, delay, s) && g in t.gws && nid !in pins && KnownAbove(t, s.net, g, nid)
    requires hops <= t.depth[g] - t.depth[FirstLive(t, s.net, g, nid)]
    ensures !DeliveredIn(t, s.net, g, nid, dht, hops)
    decreases hops
  {
    if hops > 0 {
      DeadHop(t, pins, delay, s, g, nid, dht);
      NotBeforeLive(t, pins, delay, s, t.parent[g], nid, dht, hops - 1);
    }
  }

  /**
   Delivery with delays, exactly: a packet that enters at or below a live route reaches the node if and only
   if every route from the first live one down names a live child or the node; it then reaches a recent
   registration, without loop, in at most as many hops as the tree has levels up and down.
   */
  lemma DeliveredExactly(t: Topology, pins: set<Nid>, delay: nat, s: State, g: Gw, nid: Nid, dht: Locator, bottom: nat)
      returns (hops: nat, r: Reg)
    requires Inv(t, pins, delay, s) && g in t.gws && nid !in pins && KnownAbove(t, s.net, g, nid) && Bottom(t, bottom)
    ensures var f := FirstLive(t, s.net, g, nid);
            && t.depth[f] <= bottom
            && ((exists h: nat :: DeliveredIn(t, s.net, g, nid, dht, h)) <==> LeadsDown(t, s.net, f, nid, bottom - t.depth[f]))
            && (LeadsDown(t, s.net, f, nid, bottom - t.depth[f]) ==>
                  && hops <= t.depth[g] + bottom + 1 && Recent(s, nid, r)
                  && Travel(t, s.net, AtGw(g), nid, dht, hops) == Where.Delivered(r.addr))
  {
    var f := FirstLive(t, s.net, g, nid);
    var up, k := t.depth[g] - t.depth[f], bottom - t.depth[f];
    hide Inv, Recent, KnownAbove, FirstLive, Topology.Valid;
    if LeadsDown(t, s.net, f, nid, k) {
      var down, r' := DescentDelivers(t, pins, delay, s, f, nid, dht, k);
      ClimbToLive(t, pins, delay, s, g, nid, dht, down);
      hops, r := up + down, r';
      assert DeliveredIn(t, s.net, g, nid, dht, hops);
    } else {
      hops, r := 0, Reg(nid, g, 0, 0);
      forall h: nat
        ensures !DeliveredIn(t, s.net, g, nid, dht, h)
      {
        if h <= up {
          NotBeforeLive(t, pins, delay, s, g, nid, dht, h);
        } else {
          ClimbToLive(t, pins, delay, s, g, nid, dht, h - up);
          DescentLoops(t, pins, delay, s, f, nid, dht, k, h - up);
        }
      }
    }
  }

  /** No live route names a child whose own route is not live. */
  ghost predicate NoDeadChild(t: Topology, n: Net, nid: Nid)
    requires WellFormed(t, n)
  {
    forall g | g in t.gws :: !NamesDead(t, n, g, nid)
  }

  lemma {:induction false} NoDeadChildLeadsDown(t: Topology, pins: set<Nid>, delay: nat, s: State, g: Gw, nid: Nid, k: nat)
    requires Inv(t, pins, delay, s) && g in t.gws && nid !in pins && LiveAt(s.net, g, nid) && NoDeadChild(t, s.net, nid)
    requires Bottom(t, t.depth[g] + k)
    ensures LeadsDown(t, s.net, g, nid, k)
    decreases k
  {
    assert !NamesDead(t, s.net, g, nid);
    if s.net.rt[g][nid].ip in t.owner {
      HopToChild(t, pins, delay, s, g, nid, 0, 0);
      NoDeadChildLeadsDown(t, pins, delay, s, t.owner[s.net.rt[g][nid].ip], nid, k - 1);
    }
  }

  /** Every gateway with a live route delivers. */
  ghost predicate AllDeliver(t: Topology, n: Net, nid: Nid, dht: Locator)
    requires WellFormed(t, n)
  {
    forall g | g in t.gws && LiveAt(n, g, nid) :: exists hops: nat :: DeliveredIn(t, n, g, nid, dht, hops)
  }

  /** For the tree as a whole: every gateway with a live route delivers if and only if none names a dead child. */
  lemma AllDeliverExactly(t: Topology, pins: set<Nid>, delay: nat, s: State, nid: Nid, dht: Locator, bottom: nat)
    requires Inv(t, pins, delay, s) && nid !in pins && Bottom(t, bottom)
    ensures AllDeliver(t, s.net, nid, dht) <==> NoDeadChild(t, s.net, nid)
  {
    assert WellFormed(t, s.net);
    hide Inv, NamesDead, DeliveredIn, LeadsDown;
    if NoDeadChild(t, s.net, nid) {
      forall g | g in t.gws && LiveAt(s.net, g, nid)
        ensures exists hops: nat :: DeliveredIn(t, s.net, g, nid, dht, hops)
      {
        NoDeadChildLeadsDown(t, pins, delay, s, g, nid, bottom - t.depth[g]);
        var _, _ := DeliveredExactly(t, pins, delay, s, g, nid, dht, bottom);
      }
    } else {
      var g :| g in t.gws && NamesDead(t, s.net, g, nid);
      DeadIsLive(t, s.net, g, nid);
      forall hops: nat
        ensures !DeliveredIn(t, s.net, g, nid, dht, hops)
      {
        DeadChildLoops(t, pins, delay, s, g, nid, dht, hops);
      }
    }
  }

  lemma DeadIsLive(t: Topology, n: Net, g: Gw, nid: Nid)
    requires WellFormed(t, n) && g in t.gws && NamesDead(t, n, g, nid)
    ensures LiveAt(n, g, nid)
  {
  }

  /** By the clock: a dead child is named only while some route lapsed less than the delay ago. */
  lemma SettledHasNoDeadChild(t: Topology, pins: set<Nid>, delay: nat, s: State, nid: Nid)
    requires Inv(t, pins, delay, s) && nid !in pins && Settled(t, delay, s, nid)
    ensures NoDeadChild(t, s.net, nid)
  {
    forall g | g in t.gws
      ensures !NamesDead(t, s.net, g, nid)
    {
      if LiveAt(s.net, g, nid) {
        LiveHop(t, pins, delay, s, g, nid, 0);
      }
    }
  }

  lemma SettledLeadsDown(t: Topology, pins: set<Nid>, delay: nat, s: State, g: Gw, nid: Nid, bottom: nat)
    requires Inv(t, pins, delay, s) && Settled(t, delay, s, nid)
    requires g in t.gws && nid !in pins && KnownAbove(t, s.net, g, nid) && Bottom(t, bottom)
    ensures t.depth[FirstLive(t, s.net, g, nid)] <= bottom
    ensures LeadsDown(t, s.net, FirstLive(t, s.net, g, nid), nid, bottom - t.depth[FirstLive(t, s.net, g, nid)])
  {
    assert WellFormed(t, s.net);
    hide Settled, KnownAbove, FirstLive, LeadsDown, Inv, NoDeadChild;
    SettledHasNoDeadChild(t, pins, delay, s, nid);
    var f := FirstLive(t, s.net, g, nid);
    NoDeadChildLeadsDown(t, pins, delay, s, f, nid, bottom - t.depth[f]);
  }

  /** Some run from start-up leads to `s`. */
  ghost predicate Reached(t: Topology, pins: set<Nid>, delay: nat, s: State) {
    WellFormed(t, s.net) && exists start, acts :: Initial(t, pins, start) && s == After(t, pins, delay, start, acts)
  }

  lemma ReachedInv(t: Topology, pins: set<Nid>, delay: nat, s: State)
    requires Reached(t, pins, delay, s)
    ensures Inv(t, pins, delay, s)
  {
    var start, acts :| Initial(t, pins, start) && s == After(t, pins, delay, start, acts);
    hide Inv, After, Initial;
    RunInv(t, pins, delay, start, acts);
  }

  /** Over every run from start-up: delivered exactly where the routes lead down, and everywhere once settled. */
  lemma DelayedDelivery(t: Topology, pins: set<Nid>, delay: nat, s: State, g: Gw, nid: Nid, dht: Locator, bottom: nat)
      returns (hops: nat, r: Reg)
    requires Reached(t, pins, delay, s) && g in t.gws && nid !in pins && Bottom(t, bottom) && KnownAbove(t, s.net, g, nid)
    ensures t.depth[FirstLive(t, s.net, g, nid)] <= bottom
    ensures var f := FirstLive(t, s.net, g, nid);
            && ((exists h: nat :: DeliveredIn(t, s.net, g, nid, dht, h)) <==> LeadsDown(t, s.net, f, nid, bottom - t.depth[f]))
            && (Settled(t, delay, s, nid) ==> LeadsDown(t, s.net, f, nid, bottom - t.depth[f]))
            && (LeadsDown(t, s.net, f, nid, bottom - t.depth[f]) ==>
                  && hops <= t.depth[g] + bottom + 1 && Recent(s, nid, r)
                  && Travel(t, s.net, AtGw(g), nid, dht, hops) == Where.Delivered(r.addr))
  {
    hide Reached, After, Inv, Recent, KnownAbove, FirstLive, Topology.Valid, LeadsDown, DeliveredIn, Settled, Initial, PastOnly, Travel;
    ReachedInv(t, pins, delay, s);
    hops, r := DeliveredExactly(t, pins, delay, s, g, nid, dht, bottom);
    if Settled(t, delay, s, nid) {
      SettledLeadsDown(t, pins, delay, s, g, nid, bottom);
    }
  }

  // ----- the bound is attained -----

  function Ticks(n: nat): seq<Act> {
    seq(n, _ => Act.Tick)
  }

  function Later(s: State, n: nat): State {
    s.(net := s.net.(now := s.net.now + n))
  }

  lemma {:induction false} AfterAppend(t: Topology, pins: set<Nid>, delay: nat, s: State, a: seq<Act>, b: seq<Act>)
    ensures After(t, pins, delay, s, a + b) == After(t, pins, delay, After(t, pins, delay, s, a), b)
  {
    hide CanStep, Next;
    if b == [] {
      assert a + b == a;
    } else {
      assert (a + b)[..|a + b| - 1] == a + b[..|b| - 1];
      AfterAppend(t, pins, delay, s, a, b[..|b| - 1]);
    }
  }

  lemma {:induction false} AfterTicks(t: Topology, pins: set<Nid>, delay: nat, s: State, n: nat)
    requires WellFormed(t, s.net)
    ensures After(t, pins, delay, s, Ticks(n)) == Later(s, n)
  {
    hide Topology.Valid;
    if n > 0 {
      AfterTicks(t, pins, delay, s, n - 1);
      assert Ticks(n)[..n - 1] == Ticks(n - 1);
    }
  }

  /** One act, then `n` seconds. */
  lemma ActThenTicks(t: Topology, pins: set<Nid>, delay: nat, s: State, a: Act, n: nat)
    requires WellFormed(t, s.net) && Enabled(t, pins, delay, s, a)
    ensures After(t, pins, delay, s, [a] + Ticks(n)) == Later(Next(t, pins, delay, s, a), n)
  {
    hide Next, Enabled, WellFormed;
    assert After(t, pins, delay, s, [a]) == Next(t, pins, delay, s, a) by {
      assert [a][..0] == [];
    }
    AfterAppend(t, pins, delay, s, [a], Ticks(n));
    AfterTicks(t, pins, delay, Next(t, pins, delay, s, a), n);
  }

  /** A registration at `c` that reaches the parent only after the whole delay, and what both routes are nine seconds later. */
  lemma LateArrival(t: Topology, pins: set<Nid>, delay: nat, start: State, c: Gw, nid: Nid, addr: Locator)
    requires Initial(t, pins, start) && c in t.parent && nid !in pins && addr != 0 && addr !in t.owner
    ensures var now, p := start.net.now, t.parent[c];
            var s1 := Later(Next(t, pins, delay, start, Attach(nid, c, addr)), delay);
            && p in t.gws && Enabled(t, pins, delay, start, Attach(nid, c, addr))
            && WellFormed(t, s1.net) && Enabled(t, pins, delay, s1, Arrive(Message(nid, c, now)))
            && var s := Later(Next(t, pins, delay, s1, Arrive(Message(nid, c, now))), GATEWAY_TIMEOUT - 1);
            && WellFormed(t, s.net) && s.net.now == now + delay + GATEWAY_TIMEOUT - 1
            && nid in s.net.rt[c] && s.net.rt[c][nid] == Entry(addr, now)
            && nid in s.net.rt[p] && s.net.rt[p][nid] == Entry(t.loc[c], now + delay)
            && (c, nid) in s.wrote && s.wrote[(c, nid)] == now
  {
    ParentThere(t, c);
    ChildDeeper(t, c, t.parent[c]);
  }

  /** For every delay and every gateway below a core there is a run after which a packet bounces in the last second allowed. */
  lemma BounceAttained(t: Topology, pins: set<Nid>, delay: nat, start: State, c: Gw, nid: Nid, addr: Locator, dht: Locator)
      returns (acts: seq<Act>)
    requires delay > 0 && Initial(t, pins, start) && c in t.parent && nid !in pins && addr != 0 && addr !in t.owner
    ensures t.Valid() && t.parent[c] in t.gws
    ensures var s, p := After(t, pins, delay, start, acts), t.parent[c];
            && WellFormed(t, s.net)
            && Hop(t, s.net, p, nid, dht) == AtGw(c) && Hop(t, s.net, c, nid, dht) == AtGw(p)
            && (c, nid) in s.wrote && s.net.now == s.wrote[(c, nid)] + GATEWAY_TIMEOUT + delay - 1
  {
    LateArrival(t, pins, delay, start, c, nid, addr);
    var first, second := Attach(nid, c, addr), Arrive(Message(nid, c, start.net.now));
    var s1 := Later(Next(t, pins, delay, start, first), delay);
    acts := ([first] + Ticks(delay)) + ([second] + Ticks(GATEWAY_TIMEOUT - 1));
    ghost var s := Later(Next(t, pins, delay, s1, second), GATEWAY_TIMEOUT - 1);
    assert After(t, pins, delay, start, acts) == s by {
      hide Next, Later, Enabled;
      ActThenTicks(t, pins, delay, start, first, delay);
      ActThenTicks(t, pins, delay, s1, second, GATEWAY_TIMEOUT - 1);
      AfterAppend(t, pins, delay, start, [first] + Ticks(delay), [second] + Ticks(GATEWAY_TIMEOUT - 1));
    }
    hide Next, Later, After;
    ParentThere(t, c);
    BouncesNow(t, s.net, c, nid, addr, start.net.now, delay, dht);
  }

  /** A live route to a child whose own has expired. */
  lemma BouncesNow(t: Topology, n: Net, c: Gw, nid: Nid, addr: Locator, time: int, delay: nat, dht: Locator)
    requires WellFormed(t, n) && c in t.parent && t.parent[c] in t.gws && delay > 0 && time > 0
    requires n.now == time + delay + GATEWAY_TIMEOUT - 1
    requires nid in n.rt[c] && n.rt[c][nid] == Entry(addr, time)
    requires nid in n.rt[t.parent[c]] && n.rt[t.parent[c]][nid] == Entry(t.loc[c], time + delay)
    ensures Hop(t, n, t.parent[c], nid, dht) == AtGw(c) && Hop(t, n, c, nid, dht) == AtGw(t.parent[c])
  {
  }
}
