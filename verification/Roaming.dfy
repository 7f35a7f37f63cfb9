/** Whole runs of the gateway network, and nodes that roam from one tree to another. */
module Roaming {
  import opened Bytes
  import opened SoftState
  import opened GatewayTree

  // ----- the registry as a function of what the core handled -----

  /** What the last event about `nid` at core `g` left in its registry. */
  function LastNotice(coreLog: seq<CoreEvent>, g: Gw, nid: Nid): Locator {
    if coreLog == [] then 0
    else
      match coreLog[|coreLog| - 1]
      case Noticed(core, id, ip) =>
        if core == g && id == nid then ip else LastNotice(coreLog[..|coreLog| - 1], g, nid)
      case CameHome(core, id) =>
        if core == g && id == nid then 0 else LastNotice(coreLog[..|coreLog| - 1], g, nid)
  }

  /** A notice names the core it comes from, and never goes to that core. */
  predicate HonestNotice(t: Topology, notice: Redirect)
    requires t.Valid()
  {
    notice.ip in t.owner && t.owner[notice.ip] !in t.parent && t.owner[notice.ip] != notice.home
  }

  ghost predicate RegistryConsistent(t: Topology, n: Net)
    requires WellFormed(t, n)
  {
    && (forall g, nid | g in t.gws :: RegistryGet(n.registry[g], nid) == LastNotice(n.coreLog, g, nid))
    && (forall notice | notice in n.sent :: HonestNotice(t, notice))
    && (forall g, nid | g in t.gws && RegistryGet(n.registry[g], nid) != 0 ::
          HonestNotice(t, Redirect(nid, g, RegistryGet(n.registry[g], nid))))
  }

  /** `a` is the registration of `nid` at its home core `h`. */
  predicate ComesHome(t: Topology, a: Act, h: Gw, nid: Nid) {
    a.Register? && a.nid == nid && a.home == h && t.Valid() && a.at in t.gws && t.CoreOf(a.at) == h
  }

  /** `a` is the handling, at core `h`, of a notice about `nid`. */
  predicate HandlesNotice(a: Act, h: Gw, nid: Nid) {
    a.Handle? && a.notice.home == h && a.notice.nid == nid
  }

  /** What the core events become, and what they say about one node at one core. */
  lemma CoreLogStep(t: Topology, pins: set<Nid>, n: Net, a: Act, g: Gw, nid: Nid)
    requires WellFormed(t, n) && Enabled(t, pins, n, a) && g in t.gws
    ensures LastNotice(Next(t, pins, n, a).coreLog, g, nid) ==
            if HandlesNotice(a, g, nid) then a.notice.ip
            else if ComesHome(t, a, g, nid) then 0
            else LastNotice(n.coreLog, g, nid)
  {
    hide Topology.Valid, Topology.Under, Topology.CoreOf, Propagate, RtGet;
    var n' := Next(t, pins, n, a);
    if |n'.coreLog| > |n.coreLog| {
      assert n'.coreLog[..|n'.coreLog| - 1] == n.coreLog;
    }
  }

  /** What one registry entry becomes. */
  lemma RegistryWrite(t: Topology, pins: set<Nid>, n: Net, a: Act, g: Gw, nid: Nid)
    requires WellFormed(t, n) && Enabled(t, pins, n, a) && g in t.gws
    ensures g in Next(t, pins, n, a).registry
    ensures RegistryGet(Next(t, pins, n, a).registry[g], nid) ==
            if HandlesNotice(a, g, nid) then a.notice.ip
            else if ComesHome(t, a, g, nid) then 0
            else RegistryGet(n.registry[g], nid)
  {
    hide Topology.Valid, Topology.Under, Topology.CoreOf, Propagate, RtGet, LastNotice;
  }

  /** One step moves a registry entry and the last core event about it together. */
  lemma RegistryStep(t: Topology, pins: set<Nid>, n: Net, a: Act, g: Gw, nid: Nid)
    requires WellFormed(t, n) && Enabled(t, pins, n, a) && g in t.gws
    requires RegistryGet(n.registry[g], nid) == LastNotice(n.coreLog, g, nid)
    ensures g in Next(t, pins, n, a).registry
    ensures RegistryGet(Next(t, pins, n, a).registry[g], nid) == LastNotice(Next(t, pins, n, a).coreLog, g, nid)
  {
    hide Topology.Valid, Next, LastNotice, RegistryGet, HandlesNotice, ComesHome;
    CoreLogStep(t, pins, n, a, g, nid);
    RegistryWrite(t, pins, n, a, g, nid);
  }

  /** An entry in use names the core of a notice that was sent. */
  lemma EntryHonest(t: Topology, pins: set<Nid>, n: Net, a: Act, g: Gw, nid: Nid)
    requires WellFormed(t, n) && Enabled(t, pins, n, a) && RegistryConsistent(t, n) && g in t.gws
    ensures g in Next(t, pins, n, a).registry
    ensures RegistryGet(Next(t, pins, n, a).registry[g], nid) != 0 ==>
              HonestNotice(t, Redirect(nid, g, RegistryGet(Next(t, pins, n, a).registry[g], nid)))
  {
    hide Next, LastNotice, RegistryGet;
    RegistryWrite(t, pins, n, a, g, nid);
    assert a.Handle? ==> HonestNotice(t, a.notice);
  }

  lemma NextRegistry(t: Topology, pins: set<Nid>, n: Net, a: Act)
    requires WellFormed(t, n) && Enabled(t, pins, n, a) && RegistryConsistent(t, n)
    ensures RegistryConsistent(t, Next(t, pins, n, a))
  {
    hide Next, LastNotice, RegistryGet, HonestNotice;
    forall g, nid | g in t.gws
      ensures g in Next(t, pins, n, a).registry
      ensures RegistryGet(Next(t, pins, n, a).registry[g], nid) == LastNotice(Next(t, pins, n, a).coreLog, g, nid)
      ensures RegistryGet(Next(t, pins, n, a).registry[g], nid) != 0 ==>
                HonestNotice(t, Redirect(nid, g, RegistryGet(Next(t, pins, n, a).registry[g], nid)))
    {
      RegistryStep(t, pins, n, a, g, nid);
      EntryHonest(t, pins, n, a, g, nid);
    }
    NoticesHonest(t, pins, n, a);
  }

  lemma NoticesHonest(t: Topology, pins: set<Nid>, n: Net, a: Act)
    requires WellFormed(t, n) && Enabled(t, pins, n, a) && forall notice | notice in n.sent :: HonestNotice(t, notice)
    ensures forall notice | notice in Next(t, pins, n, a).sent :: HonestNotice(t, notice)
  {
    hide Topology.Under, Propagate, RtGet;
  }

  // ----- runs -----

  /** At start-up there are static routes only, and no registration has been seen. */
  predicate Initial(t: Topology, pins: set<Nid>, n: Net) {
    && WellFormed(t, n)
    && n.log == [] && n.coreLog == [] && n.sent == {}
    && (forall g | g in t.gws :: n.registry[g] == map[])
    && (forall g | g in t.gws :: n.rt[g].Keys <= pins)
  }

  predicate IsRun(t: Topology, pins: set<Nid>, nets: seq<Net>, acts: seq<Act>) {
    && |nets| == |acts| + 1 && Initial(t, pins, nets[0])
    && (forall i | 0 <= i < |nets| :: WellFormed(t, nets[i]))
    && forall i | 0 <= i < |acts| ::
         Enabled(t, pins, nets[i], acts[i]) && nets[i + 1] == Next(t, pins, nets[i], acts[i])
  }

  /** Some run leads to `n`. */
  ghost predicate Reachable(t: Topology, pins: set<Nid>, n: Net) {
    WellFormed(t, n) && exists nets, acts :: IsRun(t, pins, nets, acts) && nets[|acts|] == n
  }

  lemma ReachableConsistent(t: Topology, pins: set<Nid>, n: Net)
    requires Reachable(t, pins, n)
    ensures Consistent(t, pins, n) && RegistryConsistent(t, n)
  {
    var nets, acts :| IsRun(t, pins, nets, acts) && nets[|acts|] == n;
    RunConsistent(t, pins, nets, acts, |acts|);
  }

  /** Over every run, routes follow the registrations and registries follow the core events. */
  lemma {:induction false} RunConsistent(t: Topology, pins: set<Nid>, nets: seq<Net>, acts: seq<Act>, i: nat)
    requires IsRun(t, pins, nets, acts) && i <= |acts|
    ensures WellFormed(t, nets[i]) && Consistent(t, pins, nets[i]) && RegistryConsistent(t, nets[i])
  {
    if i > 0 {
      RunConsistent(t, pins, nets, acts, i - 1);
      assert nets[i - 1 + 1] == Next(t, pins, nets[i - 1], acts[i - 1]);
      NextConsistent(t, pins, nets[i - 1], acts[i - 1]);
      NextRegistry(t, pins, nets[i - 1], acts[i - 1]);
    }
  }

  /**
   On every run: whenever some gateway of the tree handled a registration of the node less than the
   timeout ago, a packet that enters the tree anywhere is delivered, without passing a gateway twice on
   the way down or up, to the locator of the latest registration below the first gateway that knows one;
   from the core that is the latest registration of all.
   */
  lemma RunDelivers(t: Topology, pins: set<Nid>, n: Net, g: Gw, nid: Nid, dht: Locator)
    requires Reachable(t, pins, n) && g in t.gws && nid !in pins
    requires Knows(t, n, t.CoreOf(g), nid)
    ensures var k := Knower(t, n, g, nid);
            && Latest(t, n.log, nid, k).Some? && (g !in t.parent ==> k == g)
            && var r := Latest(t, n.log, nid, k).value;
            && n.now - r.time < 10
            && Travel(t, n, AtGw(g), nid, dht, t.Levels(g, k) + t.Levels(r.at, k) + 1) == Delivered(r.addr)
  {
    ReachableConsistent(t, pins, n);
    hide Reachable, Topology.Valid, Topology.Under, Topology.CoreOf, Topology.Levels, Consistent, RegistryConsistent, Travel, Latest;
    Delivery(t, pins, n, g, nid, dht);
  }

  /** Where the acts have left a static route that was at `at`. */
  function StaticLocator(acts: seq<Act>, x: Gw, id: Nid, at: Locator): Locator {
    if acts == [] then at else Readdressed(acts[|acts| - 1], x, id, StaticLocator(acts[..|acts| - 1], x, id, at))
  }

  /** `a` takes back the static route of `id` at `x`. */
  predicate TakesBack(a: Act, x: Gw, id: Nid) {
    a.Unpin? && a.g == x && a.nid == id
  }

  /**
   Over every run a static route stays, through registrations, lookups and any length of time, until it
   is taken back, and packets for its identifier go where the last static write to it says.
   */
  lemma {:induction false} StaticRoutes(t: Topology, pins: set<Nid>, nets: seq<Net>, acts: seq<Act>, j: nat, x: Gw, id: Nid, at: Locator, dht: Locator)
    requires IsRun(t, pins, nets, acts) && j <= |acts| && x in t.gws && StaticAt(nets[0].rt[x], id, at)
    requires forall k | 0 <= k < j :: !TakesBack(acts[k], x, id)
    ensures WellFormed(t, nets[j]) && StaticAt(nets[j].rt[x], id, StaticLocator(acts[..j], x, id, at))
    ensures var ip := StaticLocator(acts[..j], x, id, at); ip != 0 ==> Hop(t, nets[j], x, id, dht) == Locate(t, ip)
  {
    if j > 0 {
      StaticRoutes(t, pins, nets, acts, j - 1, x, id, at, dht);
      assert nets[j - 1 + 1] == Next(t, pins, nets[j - 1], acts[j - 1]);
      assert acts[..j][..j - 1] == acts[..j - 1];
      hide Next, StaticAt, Hop, Topology.Valid, Readdressed;
      StaticStep(t, pins, nets[j - 1], acts[j - 1], x, id, StaticLocator(acts[..j - 1], x, id, at));
    }
    var ip := StaticLocator(acts[..j], x, id, at);
    if ip != 0 {
      StaticHop(t, nets[j], x, id, dht, ip);
    }
  }

  // ----- roaming -----

  /** A core without a live route uses its registry exactly when the last it handled about the node was a notice. */
  lemma CoreUsesRegistry(t: Topology, pins: set<Nid>, n: Net, h: Gw, nid: Nid, dht: Locator)
    requires WellFormed(t, n) && Consistent(t, pins, n) && RegistryConsistent(t, n)
    requires h in t.gws && h !in t.parent && nid !in pins && !Knows(t, n, h, nid)
    ensures Hop(t, n, h, nid, dht) ==
            if LastNotice(n.coreLog, h, nid) == 0 then (if dht != 0 then Locate(t, dht) else Dropped) else AtGw(t.owner[LastNotice(n.coreLog, h, nid)])
  {
    assert RouteFollowsLog(t, n, h, nid);
    var ip := RegistryGet(n.registry[h], nid);
    assert ip != 0 ==> HonestNotice(t, Redirect(nid, h, ip));
  }

  /**
   Once the home routes have aged out and the last the home core handled about the node is the visited
   core's notice, a packet anywhere in the home tree climbs to the home core, crosses to the visited
   core and descends to the node.
   */
  lemma RoamingDelivery(t: Topology, pins: set<Nid>, n: Net, g: Gw, h: Gw, v: Gw, nid: Nid, r: Reg, down: nat, dht: Locator)
    requires WellFormed(t, n) && Consistent(t, pins, n) && RegistryConsistent(t, n)
    requires g in t.gws && v in t.gws && v !in t.parent && nid !in pins
    requires h == Knower(t, n, g, nid) && h !in t.parent && !Knows(t, n, h, nid)
    requires LastNotice(n.coreLog, h, nid) == t.loc[v]
    requires Latest(t, n.log, nid, v) == Some(r) && Fresh(r, n.now) && down == t.Levels(r.at, v) + 1
    ensures Travel(t, n, AtGw(g), nid, dht, t.Levels(g, h) + (1 + down)) == Delivered(r.addr)
  {
    hide Topology.Valid, Topology.Under, Topology.Levels, Consistent, RegistryConsistent, Travel, Latest, Knower, LastNotice, Fresh;
    CrossAndDescend(t, pins, n, h, v, nid, r, down, dht);
    Climb(t, pins, n, g, nid, dht, 1 + down);
  }

  /** From the home core to the visited core and down. */
  lemma CrossAndDescend(t: Topology, pins: set<Nid>, n: Net, h: Gw, v: Gw, nid: Nid, r: Reg, down: nat, dht: Locator)
    requires WellFormed(t, n) && Consistent(t, pins, n) && RegistryConsistent(t, n)
    requires h in t.gws && h !in t.parent && v in t.gws && nid !in pins
    requires !Knows(t, n, h, nid) && LastNotice(n.coreLog, h, nid) == t.loc[v]
    requires Latest(t, n.log, nid, v) == Some(r) && Fresh(r, n.now)
    requires down == t.Levels(r.at, v) + 1
    ensures Travel(t, n, AtGw(h), nid, dht, 1 + down) == Delivered(r.addr)
  {
    hide Consistent, RegistryConsistent, Topology.Valid, Topology.Under, Topology.Levels, Travel, Hop, Latest, LastNotice;
    CrossToCore(t, pins, n, h, v, nid, dht);
    Descent(t, pins, n, v, nid, dht);
    TravelOne(t, n, h, nid, dht, down);
  }

  lemma CrossToCore(t: Topology, pins: set<Nid>, n: Net, h: Gw, v: Gw, nid: Nid, dht: Locator)
    requires WellFormed(t, n) && Consistent(t, pins, n) && RegistryConsistent(t, n)
    requires h in t.gws && h !in t.parent && v in t.gws && nid !in pins
    requires !Knows(t, n, h, nid) && LastNotice(n.coreLog, h, nid) == t.loc[v]
    ensures Hop(t, n, h, nid, dht) == AtGw(v)
  {
    hide Consistent, RegistryConsistent, LastNotice, Topology.Under, Latest, Hop;
    CoreUsesRegistry(t, pins, n, h, nid, dht);
  }

  lemma TravelOne(t: Topology, n: Net, g: Gw, nid: Nid, dht: Locator, more: nat)
    requires WellFormed(t, n) && g in t.gws
    ensures Travel(t, n, AtGw(g), nid, dht, 1 + more) == Travel(t, n, Hop(t, n, g, nid, dht), nid, dht, more)
  {
  }

  /** The visited core's part: a registration that names another home sends that home a notice of this core. */
  lemma VisitSendsNotice(t: Topology, pins: set<Nid>, n: Net, a: Act)
    requires WellFormed(t, n) && Enabled(t, pins, n, a) && a.Register?
    ensures var v := t.CoreOf(a.at); var n' := Next(t, pins, n, a);
            && (a.home != v ==> Redirect(a.nid, a.home, t.loc[v]) in n'.sent && n'.registry == n.registry)
            && (a.home == v ==> n'.sent == n.sent && RegistryGet(n'.registry[v], a.nid) == 0)
            && Knows(t, n', v, a.nid)
  {
    hide Propagate;
    var n' := Next(t, pins, n, a);
    assert n'.log[..|n'.log| - 1] == n.log;
  }

  /** After a registration at home the registry stays out of use until another notice is handled. */
  lemma HomeAgain(t: Topology, pins: set<Nid>, nets: seq<Net>, acts: seq<Act>, i: nat, j: nat, h: Gw, nid: Nid)
    requires IsRun(t, pins, nets, acts) && i < j <= |acts| && h in t.gws
    requires ComesHome(t, acts[i], h, nid)
    requires forall k | i < k < j :: !HandlesNotice(acts[k], h, nid)
    ensures Unused(nets[j], h, nid)
  {
    RegistryAlong(t, pins, nets, acts, i, h, nid);
    StaysClear(t, pins, nets, acts, i + 1, j, h, nid);
  }

  /** Core `h` has no other core's locator for `nid`. */
  predicate Unused(n: Net, h: Gw, nid: Nid) {
    h in n.registry && RegistryGet(n.registry[h], nid) == 0
  }

  lemma {:induction false} StaysClear(t: Topology, pins: set<Nid>, nets: seq<Net>, acts: seq<Act>, i: nat, j: nat, h: Gw, nid: Nid)
    requires IsRun(t, pins, nets, acts) && i <= j <= |acts| && h in t.gws
    requires Unused(nets[i], h, nid)
    requires forall k | i <= k < j :: !HandlesNotice(acts[k], h, nid)
    ensures Unused(nets[j], h, nid)
    decreases j
  {
    hide Unused, HandlesNotice, Next, Enabled, WellFormed;
    if i < j {
      StaysClear(t, pins, nets, acts, i, j - 1, h, nid);
      RegistryAlong(t, pins, nets, acts, j - 1, h, nid);
    }
  }

  /** What one step of a run does to a registry that is not in use, or that a homecoming clears. */
  lemma RegistryAlong(t: Topology, pins: set<Nid>, nets: seq<Net>, acts: seq<Act>, k: nat, h: Gw, nid: Nid)
    requires IsRun(t, pins, nets, acts) && k < |acts| && h in t.gws
    ensures Unused(nets[k], h, nid) && !HandlesNotice(acts[k], h, nid) ==> Unused(nets[k + 1], h, nid)
    ensures ComesHome(t, acts[k], h, nid) ==> Unused(nets[k + 1], h, nid)
  {
    assert nets[k + 1] == Next(t, pins, nets[k], acts[k]);
    hide Next, RegistryGet, ComesHome, HandlesNotice, Topology.Valid;
    RegistryWrite(t, pins, nets[k], acts[k], h, nid);
    NoNoticeAtHome(t, acts[k], h, nid);
  }

  lemma NoNoticeAtHome(t: Topology, a: Act, h: Gw, nid: Nid)
    ensures !(ComesHome(t, a, h, nid) && HandlesNotice(a, h, nid))
  {
  }

  // ----- what the one-step registration is needed for -----

  /**
   A live route at a gateway to a child whose own route has lapsed sends the packet up and down, for any
   number of hops made at that instant. No run above reaches such a pair of tables, since both are written
   by the same step; module DelayedClimb says for how long a pair can last when they are not.
   */
  lemma {:induction false} LapsedChildBounces(t: Topology, n: Net, p: Gw, c: Gw, nid: Nid, dht: Locator, hops: nat)
    requires WellFormed(t, n) && c in t.parent && t.parent[c] == p
    requires nid in n.rt[p] && Live(n.rt[p][nid], GATEWAY_TIMEOUT, n.now) && n.rt[p][nid].ip == t.loc[c]
    requires !(nid in n.rt[c] && Live(n.rt[c][nid], GATEWAY_TIMEOUT, n.now))
    ensures Travel(t, n, AtGw(p), nid, dht, hops) == if hops % 2 == 0 then AtGw(p) else AtGw(c)
  {
    assert Hop(t, n, p, nid, dht) == AtGw(c) && Hop(t, n, c, nid, dht) == AtGw(p);
    if hops >= 2 {
      LapsedChildBounces(t, n, p, c, nid, dht, hops - 2);
    }
  }

  /** On every run a live route that names a child finds that child's route live, and as recent. */
  lemma RunHasNoLapsedChild(t: Topology, pins: set<Nid>, n: Net, p: Gw, c: Gw, nid: Nid)
    requires Reachable(t, pins, n) && c in t.parent && t.parent[c] == p && nid !in pins
    ensures nid in n.rt[p] && Live(n.rt[p][nid], GATEWAY_TIMEOUT, n.now) && n.rt[p][nid].ip == t.loc[c] ==>
              nid in n.rt[c] && n.rt[c][nid].tstamp == n.rt[p][nid].tstamp && Live(n.rt[c][nid], GATEWAY_TIMEOUT, n.now)
  {
    if nid in n.rt[p] && Live(n.rt[p][nid], GATEWAY_TIMEOUT, n.now) && n.rt[p][nid].ip == t.loc[c] {
      ReachableConsistent(t, pins, n);
      assert RouteFollowsLog(t, n, p, nid) && RouteFollowsLog(t, n, c, nid);
      var r := Latest(t, n.log, nid, p).value;
      assert r in n.log && r.addr !in t.owner;
      assert t.owner[t.loc[c]] == c;
      LatestBelow(t, n.log, nid, p, c);
    }
  }
}
