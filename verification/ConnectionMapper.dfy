/**
 The connection mapper: a cache from node identifiers to locators, kept in a chained
 hash table of heap entries that are readdressed and re-stamped in place.
 */
module ConnectionMapper {
  import opened Bytes
  import opened SoftState
  import HT = HashTable
  import LL = LinkedList

  const LOCK_TIME := 150000

  class ConnEntry {
    var ip: Locator
    var tstamp: int

    constructor (ip: Locator, tstamp: int)
      ensures this.ip == ip && this.tstamp == tstamp
    {
      this.ip, this.tstamp := ip, tstamp;
    }
  }

  /** Still to be trusted at `now`, by the test the enumeration makes. */
  predicate EntryLive(e: Entry, now: int) {
    Live(e, RVS_UPDATE_TIMEOUT, now)
  }

  /** What enumeration and cleanup leave: the entries that were no longer live. */
  ghost function Expired(m: Table, now: int): Table {
    map k | k in m && !EntryLive(m[k], now) :: m[k]
  }

  /** The cache after a handover at `now` away from the identifiers `dropped`. */
  ghost function Handover(m: Table, dropped: set<Nid>, nidgw: Nid, nidrvs: Nid, gatewayIP: Locator, rvsIP: Locator, now: int): Table {
    StaticWrite(StaticWrite(Expired(m - dropped, now), nidgw, gatewayIP), nidrvs, rvsIP)
  }

  /** Every item is a live entry of `m` with its locator. */
  ghost predicate Sound(items: seq<(Nid, Locator)>, m: Table, now: int) {
    forall x | x in items :: x.0 in m && EntryLive(m[x.0], now) && x.1 == m[x.0].ip
  }

  /** No key is listed twice. */
  ghost predicate Once(items: seq<(Nid, Locator)>) {
    forall i, j | 0 <= i < j < |items| :: items[i].0 != items[j].0
  }

  /** Every live entry of `m` is an item. */
  ghost predicate Complete(items: seq<(Nid, Locator)>, m: Table, now: int) {
    forall k | k in m && EntryLive(m[k], now) :: (k, m[k].ip) in items
  }

  /** `m` without the keys of `items`, dropped one after the other. */
  ghost function Drop(m: Table, items: seq<(Nid, Locator)>): Table {
    if items == [] then m else Drop(m, items[..|items| - 1]) - {items[|items| - 1].0}
  }

  lemma {:induction false} DropKeys(m: Table, items: seq<(Nid, Locator)>)
    ensures forall k :: k in Drop(m, items) <==> k in m && forall x | x in items :: x.0 != k
    ensures forall k | k in Drop(m, items) :: Drop(m, items)[k] == m[k]
  {
    if items != [] {
      var front := items[..|items| - 1];
      assert items == front + [items[|items| - 1]];
      DropKeys(m, front);
    }
  }

  /** Dropping what a sound and complete enumeration lists leaves the entries that were not live. */
  lemma DropListed(m: Table, items: seq<(Nid, Locator)>, now: int)
    requires Sound(items, m, now) && Complete(items, m, now)
    ensures Drop(m, items) == Expired(m, now)
  {
    DropKeys(m, items);
    forall k | k in m && EntryLive(m[k], now)
      ensures k !in Drop(m, items)
    {
      assert (k, m[k].ip) in items;
    }
  }

  /** Whether a lookup asks the rendezvous server for a fresh locator. */
  predicate AsksServer(m: Table, queued: map<Nid, int>, nid: Nid, now: int, usec: int) {
    if nid in m && EntryLive(m[nid], now) then
      !Live(m[nid], RVS_PROACTIVE, now) && !Waiting(queued, nid, usec)
    else true
  }

  /**
   When the server is asked, by the age of the entry in seconds: never for a pinned one, in the last second
   of an entry's life unless that is already under way, and at every lookup that finds nothing usable.
   */
  lemma AsksByAge(m: Table, queued: map<Nid, int>, nid: Nid, now: int, usec: int)
    ensures AsksServer(m, queued, nid, now, usec) <==>
              || nid !in m
              || (m[nid].tstamp != 0 && now - m[nid].tstamp >= 5)
              || (m[nid].tstamp != 0 && now - m[nid].tstamp == 4 && !(nid in queued && usec - queued[nid] <= 150000))
  {
  }

  // ----- the identifiers being resolved -----

  datatype QueueEvent = Queue(nid: Nid, usec: int) | Unqueue(nid: Nid) | Query(nid: Nid, usec: int)

  /** A mark counts while the microsecond fields say so. */
  predicate Waiting(queued: map<Nid, int>, nid: Nid, usec: int) {
    nid in queued && queued[nid] + LOCK_TIME >= usec
  }

  function QueueAfter(log: seq<QueueEvent>): map<Nid, int> {
    if log == [] then map[]
    else
      var before := QueueAfter(log[..|log| - 1]);
      match log[|log| - 1]
      case Queue(nid, usec) => before[nid := usec]
      case Unqueue(nid) => before - {nid}
      case Query(nid, usec) => if nid in before && !Waiting(before, nid, usec) then before - {nid} else before
  }

  /** `i` is when `nid` was last queued, and no later event took it out. */
  predicate QueuedSince(log: seq<QueueEvent>, nid: Nid, i: nat, usec: int) {
    && i < |log| && log[i] == Queue(nid, usec)
    && forall j | i < j < |log| && log[j].nid == nid :: log[j].Query? && usec + LOCK_TIME >= log[j].usec
  }

  /** An identifier is marked exactly when it was queued and since then neither taken out nor found too old. */
  lemma {:induction false} MarkedMeansQueued(log: seq<QueueEvent>, nid: Nid)
    ensures nid in QueueAfter(log) <==> exists i: nat, usec :: QueuedSince(log, nid, i, usec)
    ensures forall i: nat, usec | QueuedSince(log, nid, i, usec) :: nid in QueueAfter(log) && QueueAfter(log)[nid] == usec
  {
    if log != [] {
      var front, e := log[..|log| - 1], log[|log| - 1];
      MarkedMeansQueued(front, nid);
      QueueStep(log, nid);
      if nid in QueueAfter(log) {
        if e == Queue(nid, QueueAfter(log)[nid]) {
          assert QueuedSince(log, nid, |front|, e.usec);
        } else {
          var i: nat, usec :| QueuedSince(front, nid, i, usec);
          assert QueuedSince(log, nid, i, usec);
        }
      }
    }
  }

  lemma QueueStep(log: seq<QueueEvent>, nid: Nid)
    requires log != []
    ensures var front, e := log[..|log| - 1], log[|log| - 1];
            && (forall i: nat, usec :: QueuedSince(log, nid, i, usec) <==>
                  if i == |front| then e == Queue(nid, usec)
                  else QueuedSince(front, nid, i, usec) && (e.nid == nid ==> e.Query? && usec + LOCK_TIME >= e.usec))
  {
    var front := log[..|log| - 1];
    assert log == front + [log[|log| - 1]];
  }

  class ConnectionMapper {
    const connmap: HT.HashTable<Nid, ConnEntry>
    var nidgw: Nid
    var nidrvs: Nid
    var gatewayIP: Locator
    var rvsIP: Locator
    /** The lookups in progress, with the microsecond field of the instant they were queued. */
    var queued: map<Nid, int>
    /** The identifiers handed to the resolution thread, in order. */
    var requests: seq<Nid>
    ghost var Repr: set<object>

    ghost predicate Valid()
      reads `Repr, Repr
      ensures Valid() ==> this !in Repr && connmap in Repr
    {
      && this !in Repr && connmap in Repr
      && connmap.Repr <= Repr
      && connmap.Valid()
      && (forall k | k in connmap.Contents :: connmap.Contents[k] in Repr && connmap.Contents[k] !in connmap.Repr)
      && (forall k, k' | k in connmap.Contents && k' in connmap.Contents && k != k' ::
            connmap.Contents[k] != connmap.Contents[k'])
    }

    /** The cache as a plain map. */
    ghost function Cache(): Table
      requires Valid()
      reads `Repr, Repr
    {
      map k | k in connmap.Contents :: Entry(connmap.Contents[k].ip, connmap.Contents[k].tstamp)
    }

    constructor (nidgw: Nid, nidrvs: Nid, gatewayIP: Locator, rvsIP: Locator)
      ensures Valid() && fresh(Repr)
      ensures Cache() == map[]
      ensures this.gatewayIP == gatewayIP
    {
      this.nidgw, this.nidrvs, this.gatewayIP, this.rvsIP := nidgw, nidrvs, gatewayIP, rvsIP;
      this.queued, this.requests := map[], [];
      connmap := new HT.HashTable<Nid, ConnEntry>(20, nid => HT.HashOf(nid));
      new;
      Repr := {connmap} + connmap.Repr;
    }

    /** Stores a fresh heap entry under a key the table does not have. */
    method AddEntry(nid: Nid, ce: ConnEntry)
      requires Valid() && nid !in connmap.Contents && ce !in Repr
      modifies `Repr, Repr
      ensures Valid() && fresh(Repr - old(Repr) - {ce})
      ensures Cache() == old(Cache())[nid := Entry(ce.ip, ce.tstamp)]
    {
      hide connmap.Valid;
      var _ := connmap.Insert(nid, ce);
      Repr := Repr + {ce} + connmap.Repr;
    }

    /** Overwrites an entry in place and stores its pointer back under the same key. */
    method SetEntry(nid: Nid, ce: ConnEntry, ip: Locator, tstamp: int)
      requires Valid() && nid in connmap.Contents && ce == connmap.Contents[nid]
      modifies `Repr, Repr
      ensures Valid() && fresh(Repr - old(Repr))
      ensures Cache() == old(Cache())[nid := Entry(ip, tstamp)]
    {
      hide connmap.Valid;
      ghost var contents := connmap.Contents;
      ce.ip := ip;
      ce.tstamp := tstamp;
      var _ := connmap.Insert(nid, ce);
      assert connmap.Contents == contents;
      Repr := Repr + connmap.Repr;
    }

    /** The timestamped write. */
    method NewCMEntry(nid: Nid, ip: Locator, now: int)
      requires Valid()
      modifies `Repr, Repr
      ensures Valid() && fresh(Repr - old(Repr))
      ensures Cache() == Write(old(Cache()), nid, ip, now)
    {
      hide connmap.Valid;
      var r := connmap.Lookup(nid);
      if r.Some? {
        var ce := r.value;
        if ce.tstamp == 0 {
          return;
        }
        SetEntry(nid, ce, ip, now);
        return;
      }
      var ce := new ConnEntry(ip, now);
      AddEntry(nid, ce);
    }

    method StaticCMEntry(nid: Nid, ip: Locator)
      requires Valid()
      modifies `Repr, Repr
      ensures Valid() && fresh(Repr - old(Repr))
      ensures Cache() == StaticWrite(old(Cache()), nid, ip)
    {
      hide connmap.Valid;
      var r := connmap.Lookup(nid);
      if r.Some? {
        SetEntry(nid, r.value, ip, r.value.tstamp);
      } else {
        var ce := new ConnEntry(ip, 0);
        AddEntry(nid, ce);
      }
    }

    method DelCMEntry(nid: Nid)
      requires Valid()
      modifies `Repr, Repr
      ensures Valid() && Repr == old(Repr)
      ensures Cache() == old(Cache()) - {nid}
    {
      hide connmap.Valid;
      var _ := connmap.Del(nid);
    }

    /** Whether `nid` is already being resolved; a stale mark is dropped. */
    method IsQueued(nid: Nid, usec: int) returns (r: bool)
      modifies this`queued
      ensures r == Waiting(old(queued), nid, usec)
      ensures queued == if nid in old(queued) && !r then old(queued) - {nid} else old(queued)
    {
      r := false;
      if nid in queued {
        if queued[nid] + LOCK_TIME < usec {
          queued := queued - {nid};
        } else {
          r := true;
        }
      }
    }

    /** A response of the rendezvous server: with a locator, it ends the resolution and is written to the cache. */
    method HandleResponse(nid: Nid, ip: Locator, now: int)
      requires Valid()
      modifies `Repr, `queued, Repr
      ensures Valid() && fresh(Repr - old(Repr))
      ensures Cache() == if ip != 0 then Write(old(Cache()), nid, ip, now) else old(Cache())
      ensures queued == if ip != 0 then old(queued) - {nid} else old(queued)
    {
      hide connmap.Valid;
      if ip != 0 {
        queued := queued - {nid};
        NewCMEntry(nid, ip, now);
      }
    }

    /** Asks the rendezvous server ahead of time, unless that is already under way. */
    method Refresh(nid: Nid, usec: int)
      modifies `queued, `requests
      ensures requests == old(requests) +
                if Waiting(old(queued), nid, usec) then [] else [nid]
      ensures queued == if Waiting(old(queued), nid, usec) then old(queued) else old(queued)[nid := usec]
    {
      var waiting := IsQueued(nid, usec);
      if !waiting {
        queued := queued[nid := usec];
        requests := requests + [nid];
      }
    }

    /** The lookup: pinned, fresh, fresh but about to age (refresh ahead of time), or missing. */
    method GetCMEntry(nid: Nid, now: int, usec: int) returns (found: bool, dst: Locator)
      requires Valid()
      modifies `Repr, `queued, `requests, Repr
      ensures Valid() && fresh(Repr - old(Repr))
      ensures (Cache(), dst, found) == Resolve(old(Cache()), nid, now, gatewayIP)
      ensures requests == old(requests) +
                if AsksServer(old(Cache()), old(queued), nid, now, usec) then [nid] else []
      ensures queued == if found && AsksServer(old(Cache()), old(queued), nid, now, usec) then old(queued)[nid := usec] else old(queued)
    {
      hide connmap.Valid;
      var r := connmap.Lookup(nid);
      if r.Some? {
        var ce := r.value;
        if ce.tstamp == 0 || ce.tstamp + RVS_PROACTIVE > now {
          return true, ce.ip;
        }
        if ce.tstamp + RVS_UPDATE_TIMEOUT > now {
          Refresh(nid, usec);
          return true, ce.ip;
        }
        DelCMEntry(nid);
      }
      assert Cache() == old(Cache()) - {nid};
      NewCMEntry(nid, gatewayIP, now);
      requests := requests + [nid];
      return false, gatewayIP;
    }

    /** What the invariant says of one chain, in terms of the plain map. */
    lemma SlotEntries(i: nat)
      requires Valid() && i < connmap.size
      ensures connmap.table.Length == |connmap.chains| == connmap.size && connmap.table in Repr
      ensures HT.IsChain(connmap.table[i], connmap.chains[i])
      ensures HT.DistinctKeys(connmap.chains[i]) && forall j | 0 <= j < |connmap.chains[i]| :: connmap.Slot(connmap.chains[i][j].nid) == i
      ensures forall j | 0 <= j < |connmap.chains[i]| ::
                var b := connmap.chains[i][j];
                b in Repr && b.data in Repr && b.nid in Cache() && Cache()[b.nid] == Entry(b.data.ip, b.data.tstamp)
    {
      assert connmap.SlotValid(i);
    }

    /** Appends the live entries of one chain. */
    method EnumerateChain(ll: LL.List<(Nid, Locator)>, i: nat, now: int) returns (ghost added: seq<(Nid, Locator)>)
      requires Valid() && ll.Valid() && i < connmap.size
      requires ll.Repr !! Repr + {this}
      modifies ll.Repr
      ensures ll.Valid() && fresh(ll.Repr - old(ll.Repr))
      ensures ll.Items() == old(ll.Items()) + added && Sound(added, Cache(), now)
      ensures Once(added) && forall x | x in added :: connmap.Slot(x.0) == i
      ensures forall b | b in connmap.chains[i] && b.nid in Cache() && EntryLive(Cache()[b.nid], now) ::
                (b.nid, Cache()[b.nid].ip) in added
    {
      hide Valid, Cache, connmap.Valid, ll.Valid;
      ghost var m := Cache();
      SlotEntries(i);
      var temp := connmap.table[i];
      ghost var c := connmap.chains[i];
      ghost var j := 0;
      added := [];
      while temp != null
        invariant 0 <= j <= |c| && temp == if j < |c| then c[j] else null
        invariant ll.Valid() && fresh(ll.Repr - old(ll.Repr))
        invariant ll.Items() == old(ll.Items()) + added && Sound(added, m, now)
        invariant Once(added) && forall x | x in added :: exists l :: 0 <= l < j && c[l].nid == x.0
        invariant forall l | 0 <= l < j && EntryLive(m[c[l].nid], now) :: (c[l].nid, m[c[l].nid].ip) in added
        decreases |c| - j
      {
        var ce := temp.data;
        if ce.tstamp + RVS_UPDATE_TIMEOUT > now || ce.tstamp == 0 {
          ll.Add((temp.nid, ce.ip));
          added := added + [(temp.nid, ce.ip)];
        }
        temp, j := temp.next, j + 1;
      }
    }

    lemma KeysChained()
      requires Valid()
      ensures |connmap.chains| == connmap.size > 0
      ensures forall k | k in Cache() :: HT.HasKey(connmap.chains[connmap.Slot(k)], k)
    {
      connmap.SlotFacts();
    }

    /** Lists every live entry, bucket by bucket, and nothing else. */
    method Enumerate(ll: LL.List<(Nid, Locator)>, now: int) returns (ghost added: seq<(Nid, Locator)>)
      requires Valid() && ll.Valid()
      requires ll.Repr !! Repr + {this}
      modifies ll.Repr
      ensures ll.Valid() && fresh(ll.Repr - old(ll.Repr))
      ensures ll.Items() == old(ll.Items()) + added
      ensures Sound(added, Cache(), now) && Complete(added, Cache(), now) && Once(added)
    {
      hide Valid, Cache, connmap.Valid, ll.Valid;
      ghost var m := Cache();
      KeysChained();
      added := [];
      var i := 0;
      while i < connmap.size
        invariant 0 <= i <= connmap.size
        invariant ll.Valid() && fresh(ll.Repr - old(ll.Repr))
        invariant ll.Items() == old(ll.Items()) + added && Sound(added, m, now)
        invariant Once(added) && forall x | x in added :: connmap.Slot(x.0) < i
        invariant forall k | k in m && EntryLive(m[k], now) && connmap.Slot(k) < i :: (k, m[k].ip) in added
      {
        ghost var more := EnumerateChain(ll, i, now);
        added := added + more;
        forall k | k in m && EntryLive(m[k], now) && connmap.Slot(k) == i
          ensures (k, m[k].ip) in more
        {
          assert HT.HasKey(connmap.chains[i], k);
        }
        i := i + 1;
      }
    }

    /** Deletes every live entry; the list is enumerated twice, so each key is deleted twice. */
    method CleanCM(now: int)
      requires Valid()
      modifies `Repr, Repr
      ensures Valid() && Repr == old(Repr)
      ensures Cache() == Expired(old(Cache()), now)
    {
      hide Valid, Cache, connmap.Valid;
      var ll := new LL.List<(Nid, Locator)>();
      ghost var once := Enumerate(ll, now);
      ghost var twice := Enumerate(ll, now);
      assert ll.Items() == once + twice;
      DropListed(Cache(), ll.Items(), now);
      DelListed(ll);
    }

    /** Deletes the keys of a list, node by node. */
    method DelListed(ll: LL.List<(Nid, Locator)>)
      requires Valid() && ll.Valid() && ll.Repr !! Repr
      modifies `Repr, Repr
      ensures Valid() && Repr == old(Repr)
      ensures Cache() == Drop(old(Cache()), ll.Items())
    {
      hide Valid, Cache, connmap.Valid;
      var lpt := ll.next;
      ghost var j := 0;
      while lpt != null
        invariant Valid() && Repr == old(Repr)
        invariant 0 <= j <= |ll.nodes| && lpt == if j < |ll.nodes| then ll.nodes[j] else null
        invariant Cache() == Drop(old(Cache()), ll.Items()[..j])
        decreases |ll.nodes| - j
      {
        assert ll.Items()[..j + 1][..j] == ll.Items()[..j];
        DelCMEntry(lpt.item.0);
        lpt, j := lpt.next, j + 1;
      }
      assert ll.Items()[..j] == ll.Items();
    }

    /** The handover: forget the old gateway and server, clean, adopt the new ones and pin them. */
    method UpdateCMconf(nidgw': Nid, nidrvs': Nid, gatewayIP': Locator, rvsIP': Locator, now: int)
      requires Valid()
      modifies `Repr, `nidgw, `nidrvs, `gatewayIP, `rvsIP, Repr
      ensures Valid() && fresh(Repr - old(Repr))
      ensures Cache() == Handover(old(Cache()), {old(nidgw), old(nidrvs)}, nidgw', nidrvs', gatewayIP', rvsIP', now)
      ensures nidgw == nidgw' && nidrvs == nidrvs' && gatewayIP == gatewayIP' && rvsIP == rvsIP'
    {
      hide Valid, Cache, connmap.Valid;
      DelCMEntry(nidgw);
      DelCMEntry(nidrvs);
      assert Cache() == old(Cache()) - {old(nidgw), old(nidrvs)};
      CleanCM(now);
      nidgw := nidgw';
      nidrvs := nidrvs';
      gatewayIP := gatewayIP';
      rvsIP := rvsIP';
      StaticCMEntry(nidgw, gatewayIP);
      StaticCMEntry(nidrvs, rvsIP);
    }
  }
}
