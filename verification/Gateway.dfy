/** The tables of one gateway and the handlers that change them, against the network's step functions. */
module Gateway {
  import opened Bytes
  import opened SoftState
  import opened GatewayTree

  datatype MsgType = REGISTRY | REDIRECT_CORE

  /** A control message, with the fields of the struct all messages share. */
  datatype Msg = Msg(kind: MsgType, srcNID: Nid, destNID: Nid, srcNIDgw: Nid, destNIDgw: Nid, nid: Nid, ip: Locator)

  /** An entry leaves the table just when it is the one asked for, has an age, and is at least ten seconds old; no other changes. */
  ghost predicate OnlyExpiredLeaves(before: Table, after: Table, id: Nid, now: int) {
    && (forall k :: k in after <==> k in before && !(k == id && before[k].tstamp != 0 && before[k].tstamp + 10 <= now))
    && (forall k | k in after :: after[k] == before[k])
  }

  class Gateway {
    const nid: Nid
    const locator: Locator
    /** The next gateway up and its locator; a core has none and keeps 0. */
    var nidgw: Nid
    var gatewayIP: Locator
    var rtable: Table
    var registry: Registry

    constructor (nid: Nid, locator: Locator, nidgw: Nid, gatewayIP: Locator)
      ensures this.nid == nid && this.locator == locator && this.nidgw == nidgw && this.gatewayIP == gatewayIP
      ensures rtable == map[] && registry == map[]
    {
      this.nid, this.locator, this.nidgw, this.gatewayIP := nid, locator, nidgw, gatewayIP;
      rtable, registry := map[], map[];
    }

    method NewRTEntry(id: Nid, ip: Locator, now: int)
      modifies `rtable
      ensures rtable == Write(old(rtable), id, ip, now)
    {
      if id in rtable {
        if rtable[id].tstamp == 0 {
          return;
        }
      }
      rtable := rtable[id := Entry(ip, now)];
    }

    method StaticRTEntry(id: Nid, ip: Locator)
      modifies `rtable
      ensures rtable == StaticWrite(old(rtable), id, ip)
    {
      if id in rtable {
        rtable := rtable[id := Entry(ip, rtable[id].tstamp)];
      } else {
        rtable := rtable[id := Entry(ip, 0)];
      }
    }

    /** A live route without a locator is a miss, but stays; an expired one is deleted. */
    method GetRTEntry(id: Nid, now: int) returns (found: bool, dst: Locator)
      modifies `rtable
      ensures (rtable, dst, found) == RtGet(old(rtable), id, now, gatewayIP)
      ensures OnlyExpiredLeaves(old(rtable), rtable, id, now)
      ensures found <==> id in rtable && rtable[id].ip != 0
      ensures dst == if found then rtable[id].ip else gatewayIP
    {
      if id in rtable {
        var e := rtable[id];
        if e.tstamp + GATEWAY_TIMEOUT > now || e.tstamp == 0 {
          if e.ip != 0 {
            return true, e.ip;
          }
        } else {
          rtable := rtable - {id};
        }
      } else {
        assert rtable - {id} == rtable;
      }
      return false, gatewayIP;
    }

    /** A handover: the route to the old gateway goes, static or not, and the new one is adopted. */
    method UpdateRT(nidgw': Nid, gatewayIP': Locator)
      modifies `rtable, `nidgw, `gatewayIP
      ensures nidgw == nidgw' && gatewayIP == gatewayIP'
      ensures forall k :: k in rtable <==> k in old(rtable) && k != old(nidgw)
      ensures forall k | k in rtable :: rtable[k] == old(rtable)[k]
    {
      rtable := rtable - {nidgw};
      nidgw := nidgw';
      gatewayIP := gatewayIP';
    }

    /** A gateway below the core: record the route, pass the registration up under its own locator. */
    method HandleRegistry(m: Msg, now: int) returns (up: Msg)
      requires m.kind == REGISTRY
      modifies `rtable
      ensures rtable == Write(old(rtable), m.nid, m.ip, now)
      ensures up == Msg(REGISTRY, m.srcNID, nidgw, m.srcNIDgw, m.destNIDgw, m.nid, locator)
    {
      NewRTEntry(m.nid, m.ip, now);
      up := m.(destNID := nidgw);
      up := up.(ip := locator);
    }

    /** The core: record the route; a node at home clears the registry, any other is announced to its home. */
    method HandleRegistryAtCore(m: Msg, now: int) returns (notice: Option<Msg>)
      requires m.kind == REGISTRY
      modifies `rtable, `registry
      ensures rtable == Write(old(rtable), m.nid, m.ip, now)
      ensures m.srcNIDgw == nid ==> notice == None && registry == RegistryPut(old(registry), m.nid, 0)
      ensures m.srcNIDgw != nid ==>
                && notice == Some(Msg(REDIRECT_CORE, nid, m.srcNIDgw, nid, m.srcNIDgw, m.nid, locator))
                && registry == old(registry)
    {
      NewRTEntry(m.nid, m.ip, now);
      if m.srcNIDgw == nid {
        AddRegistry(m.nid, 0);
        notice := None;
      } else {
        var n := m.(kind := REDIRECT_CORE, srcNID := nid);
        n := n.(destNID := n.srcNIDgw, destNIDgw := n.srcNIDgw);
        n := n.(srcNIDgw := nid);
        notice := Some(n.(ip := locator));
      }
    }

    method HandleRedirectCore(m: Msg)
      requires m.kind == REDIRECT_CORE
      modifies `registry
      ensures registry == RegistryPut(old(registry), m.nid, m.ip)
    {
      AddRegistry(m.nid, m.ip);
    }

    method AddRegistry(id: Nid, ip: Locator)
      modifies `registry
      ensures registry == RegistryPut(old(registry), id, ip)
    {
      registry := registry[id := ip];
    }

    method GetRegistry(id: Nid) returns (found: bool, dst: Locator)
      ensures dst == RegistryGet(registry, id) && found == (dst != 0)
    {
      if id in registry && registry[id] != 0 {
        return true, registry[id];
      }
      return false, 0;
    }

    /** Forwarding below the core: the route, else the next gateway up. */
    method ForwardGw(ghost t: Topology, ghost n: Net, id: Nid, now: int) returns (dst: Locator)
      requires WellFormed(t, n) && nid in t.parent && n.rt[nid] == rtable && n.now == now
      requires gatewayIP == t.loc[t.parent[nid]]
      modifies `rtable
      ensures Locate(t, dst) == Hop(t, n, nid, id, 0)
      ensures rtable == RtGet(old(rtable), id, now, 0).0 && OnlyExpiredLeaves(old(rtable), rtable, id, now)
    {
      var _, ip := GetRTEntry(id, now);
      dst := ip;
    }

    /** Forwarding at the core: the route, else the registry, else the outside table, else the packet is dropped. */
    method ForwardCore(ghost t: Topology, ghost n: Net, id: Nid, now: int, dht: Locator) returns (dst: Option<Locator>)
      requires WellFormed(t, n) && nid in t.gws && nid !in t.parent
      requires n.rt[nid] == rtable && n.registry[nid] == registry && n.now == now
      modifies `rtable
      ensures Hop(t, n, nid, id, dht) == if dst.Some? then Locate(t, dst.value) else Dropped
      ensures rtable == RtGet(old(rtable), id, now, 0).0 && OnlyExpiredLeaves(old(rtable), rtable, id, now)
    {
      var found, ip := GetRTEntry(id, now);
      if !found {
        found, ip := GetRegistry(id);
        if !found {
          found, ip := dht != 0, dht;
          if !found {
            return None;
          }
        }
      }
      return Some(ip);
    }
  }
}
