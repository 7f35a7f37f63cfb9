/**
 What the connection mapper answers over whole runs: a reference reading of the plain
 log of operations, and what a handover guarantees to every run that follows it.
 */
module CacheRuns {
  import opened Bytes
  import opened SoftState
  import opened ConnectionMapper

  /** The locator a lookup of `nid` at `now` yields after `log`. */
  function Answer(m: Table, log: seq<Event>, nid: Nid, now: int, gateway: Locator): Locator {
    Resolve(Run(m, log, gateway), nid, now, gateway).1
  }

  lemma ChronologicalFront(log: seq<Event>, start: int)
    requires Chronological(log, start) && log != []
    ensures Chronological(log[..|log| - 1], start) && log[|log| - 1].t >= start
    ensures forall e | e in log[..|log| - 1] :: e.t <= log[|log| - 1].t
    ensures forall e | e in log :: e in log[..|log| - 1] || e == log[|log| - 1]
  {
  }

  // ----- the cache as a plain log -----

  /** The operations on `nid` since it was last deleted. */
  function Recent(log: seq<Event>, nid: Nid): seq<Event> {
    if log == [] then []
    else
      var front, e := log[..|log| - 1], log[|log| - 1];
      if e.nid != nid then Recent(front, nid)
      else if e.Del? then []
      else Recent(front, nid) + [e]
  }

  /** The first operation since the deletion created the entry, and created it static. */
  predicate CreatedStatic(rec: seq<Event>) {
    rec != [] && rec[0].Static?
  }

  /** The locator of the last static write. */
  function LastStatic(rec: seq<Event>): Locator {
    if rec == [] then 0
    else if rec[|rec| - 1].Static? then rec[|rec| - 1].ip
    else LastStatic(rec[..|rec| - 1])
  }

  /** When the last timestamped write happened: a new binding, or a lookup that fell back to the gateway. */
  function LastStamp(rec: seq<Event>): Option<int> {
    if rec == [] then None
    else
      var before := LastStamp(rec[..|rec| - 1]);
      match rec[|rec| - 1]
      case New(_, _, t) => Some(t)
      case Get(_, t) => if before.Some? && t - before.value < RVS_UPDATE_TIMEOUT then before else Some(t)
      case _ => before
  }

  /** The locator that is current: the last one written, statically or not. */
  function Current(rec: seq<Event>, gateway: Locator): Locator {
    if rec == [] then gateway
    else
      var front := rec[..|rec| - 1];
      match rec[|rec| - 1]
      case Get(_, t) =>
        var before := LastStamp(front);
        if before.Some? && t - before.value < RVS_UPDATE_TIMEOUT then Current(front, gateway) else gateway
      case New(_, ip, _) => ip
      case Static(_, ip, _) => ip
      case Del(_, _) => gateway
  }

  function LogAnswer(rec: seq<Event>, now: int, gateway: Locator): Locator {
    if CreatedStatic(rec) then LastStatic(rec)
    else if LastStamp(rec).Some? && now - LastStamp(rec).value < RVS_UPDATE_TIMEOUT then Current(rec, gateway)
    else gateway
  }

  /** The lookup finds an entry rather than falling back. */
  predicate LogFinds(rec: seq<Event>, now: int) {
    CreatedStatic(rec) || (LastStamp(rec).Some? && now - LastStamp(rec).value < RVS_UPDATE_TIMEOUT)
  }

  /** The cache holds for `nid` what its recent operations say. */
  predicate Agrees(m: Table, rec: seq<Event>, nid: Nid, gateway: Locator) {
    && (nid in m <==> rec != [])
    && (forall i | 0 <= i < |rec| :: rec[i].nid == nid && !rec[i].Del?)
    && (CreatedStatic(rec) ==> m[nid] == Entry(LastStatic(rec), 0))
    && (rec != [] && !CreatedStatic(rec) ==>
          && LastStamp(rec).Some? && LastStamp(rec).value >= 1
          && m[nid] == Entry(Current(rec, gateway), LastStamp(rec).value))
  }

  lemma EventAgrees(m: Table, rec: seq<Event>, e: Event, nid: Nid, gateway: Locator)
    requires Agrees(m, rec, nid, gateway) && e.nid == nid && !e.Del? && e.t >= 1
    ensures Agrees(Apply(m, e, gateway), rec + [e], nid, gateway)
  {
    var rec' := rec + [e];
    assert rec'[..|rec|] == rec && rec'[|rec|] == e;
    if rec != [] {
      assert rec'[0] == rec[0];
    }
  }

  /** The entry of `nid` after a run from the empty cache, read off the log. */
  lemma {:induction false} EntryFromLog(log: seq<Event>, nid: Nid, gateway: Locator)
    requires Chronological(log, 1)
    ensures Agrees(Run(map[], log, gateway), Recent(log, nid), nid, gateway)
  {
    if log != [] {
      var front, e := log[..|log| - 1], log[|log| - 1];
      ChronologicalFront(log, 1);
      EntryFromLog(front, nid, gateway);
      if e.nid == nid && !e.Del? {
        EventAgrees(Run(map[], front, gateway), Recent(front, nid), e, nid, gateway);
      }
    }
  }

  /** Whether the lookup finds an entry. */
  function Found(m: Table, log: seq<Event>, nid: Nid, now: int, gateway: Locator): bool {
    Resolve(Run(m, log, gateway), nid, now, gateway).2
  }

  /** A lookup after any run from the empty cache answers what the plain log says, and finds an entry just when the log has one. */
  lemma CacheIsLog(log: seq<Event>, nid: Nid, now: int, gateway: Locator)
    requires Chronological(log + [Get(nid, now)], 1)
    ensures Answer(map[], log, nid, now, gateway) == LogAnswer(Recent(log, nid), now, gateway)
    ensures Found(map[], log, nid, now, gateway) <==> LogFinds(Recent(log, nid), now)
  {
    assert forall i | 0 <= i < |log| :: (log + [Get(nid, now)])[i] == log[i];
    EntryFromLog(log, nid, gateway);
  }

  // ----- the handover -----

  /** The locators written by the operations of `log`. */
  function Written(log: seq<Event>): set<Locator> {
    set e | e in log && (e.New? || e.Static?) :: e.ip
  }

  /** Every entry still usable at `now` carries one of `allowed`. */
  predicate OnlyHandsOut(m: Table, now: int, allowed: set<Locator>) {
    forall k | k in m && EntryLive(m[k], now) :: m[k].ip in allowed
  }

  lemma EventHandsOut(m: Table, e: Event, now: int, gateway: Locator, allowed: set<Locator>)
    requires e.t <= now && OnlyHandsOut(m, e.t, allowed) && gateway in allowed
    requires e.New? || e.Static? ==> e.ip in allowed
    ensures OnlyHandsOut(Apply(m, e, gateway), now, allowed)
  {
    assert forall k | k in m && EntryLive(m[k], now) :: EntryLive(m[k], e.t);
  }

  lemma {:induction false} RunHandsOut(m: Table, log: seq<Event>, start: int, now: int, gateway: Locator, allowed: set<Locator>)
    requires Chronological(log, start) && now >= start && forall e | e in log :: e.t <= now
    requires OnlyHandsOut(m, start, allowed) && gateway in allowed
    ensures OnlyHandsOut(Run(m, log, gateway), now, allowed + Written(log))
  {
    if log != [] {
      var front, e := log[..|log| - 1], log[|log| - 1];
      ChronologicalFront(log, start);
      RunHandsOut(m, front, start, e.t, gateway, allowed);
      assert Written(front) <= Written(log);
      assert e.New? || e.Static? ==> e.ip in Written(log);
      EventHandsOut(Run(m, front, gateway), e, now, gateway, allowed + Written(log));
    }
  }

  /** After a handover no locator stored before it is ever handed out again. */
  lemma HandoverForgets(m: Table, dropped: set<Nid>, nidgw: Nid, nidrvs: Nid, gatewayIP: Locator, rvsIP: Locator,
                        start: int, log: seq<Event>, nid: Nid, now: int)
    requires Chronological(log + [Get(nid, now)], start)
    ensures Answer(Handover(m, dropped, nidgw, nidrvs, gatewayIP, rvsIP, start), log, nid, now, gatewayIP)
            in {gatewayIP, rvsIP} + Written(log)
  {
    assert forall i | 0 <= i < |log| :: (log + [Get(nid, now)])[i] == log[i];
    assert (log + [Get(nid, now)])[|log|] == Get(nid, now);
    RunHandsOut(Handover(m, dropped, nidgw, nidrvs, gatewayIP, rvsIP, start), log, start, now, gatewayIP,
                {gatewayIP, rvsIP});
  }

  /** `log` has no write to `nid`. */
  predicate Unwritten(log: seq<Event>, nid: Nid) {
    forall e | e in log && e.nid == nid :: e.Get? || e.Del?
  }

  /** As long as nobody writes `nid`, it is only ever at the gateway. */
  lemma {:induction false} StaysAtGateway(m: Table, log: seq<Event>, start: int, now: int, gateway: Locator, nid: Nid)
    requires Chronological(log, start) && now >= start && forall e | e in log :: e.t <= now
    requires nid in m && EntryLive(m[nid], start) ==> m[nid].ip == gateway
    requires Unwritten(log, nid)
    ensures var r := Run(m, log, gateway); nid in r && EntryLive(r[nid], now) ==> r[nid].ip == gateway
  {
    if log != [] {
      var front, e := log[..|log| - 1], log[|log| - 1];
      ChronologicalFront(log, start);
      StaysAtGateway(m, front, start, e.t, gateway, nid);
    }
  }

  /** Until it is written anew, every other identifier resolves to the new gateway, and so does the gateway. */
  lemma HandoverResolvesToGateway(m: Table, dropped: set<Nid>, nidgw: Nid, nidrvs: Nid, gatewayIP: Locator, rvsIP: Locator,
                                  start: int, log: seq<Event>, nid: Nid, now: int)
    requires Chronological(log + [Get(nid, now)], start)
    requires nid != nidrvs && Unwritten(log, nid)
    ensures Answer(Handover(m, dropped, nidgw, nidrvs, gatewayIP, rvsIP, start), log, nid, now, gatewayIP) == gatewayIP
  {
    assert forall i | 0 <= i < |log| :: (log + [Get(nid, now)])[i] == log[i];
    assert (log + [Get(nid, now)])[|log|] == Get(nid, now);
    StaysAtGateway(Handover(m, dropped, nidgw, nidrvs, gatewayIP, rvsIP, start), log, start, now, gatewayIP, nid);
  }

  /** A pinned entry keeps its locator through lookups and timestamped writes. */
  lemma {:induction false} PinnedStays(m: Table, log: seq<Event>, gateway: Locator, nid: Nid)
    requires nid in m && Pinned(m[nid])
    requires forall e | e in log && e.nid == nid :: e.Get? || e.New?
    ensures nid in Run(m, log, gateway) && Run(m, log, gateway)[nid] == m[nid]
  {
    if log != [] {
      var front, e := log[..|log| - 1], log[|log| - 1];
      assert log == front + [e];
      PinnedStays(m, front, gateway, nid);
    }
  }

  /**
   The new server is reachable at its own locator for as long as nobody writes or deletes its
   entry exactly when the cache did not hold an expired entry under the new server's identifier:
   cleanup skips expired entries, and a static write over one does not pin it.
   */
  lemma HandoverServer(m: Table, dropped: set<Nid>, nidgw: Nid, nidrvs: Nid, gatewayIP: Locator, rvsIP: Locator,
                       start: int, log: seq<Event>, now: int)
    requires Chronological(log + [Get(nidrvs, now)], start)
    requires forall e | e in log && e.nid == nidrvs :: e.Get?
    requires rvsIP != gatewayIP
    ensures Answer(Handover(m, dropped, nidgw, nidrvs, gatewayIP, rvsIP, start), log, nidrvs, now, gatewayIP) == rvsIP
            <==> !(nidrvs in m && nidrvs !in dropped && !EntryLive(m[nidrvs], start))
  {
    assert forall i | 0 <= i < |log| :: (log + [Get(nidrvs, now)])[i] == log[i];
    assert (log + [Get(nidrvs, now)])[|log|] == Get(nidrvs, now);
    var h := Handover(m, dropped, nidgw, nidrvs, gatewayIP, rvsIP, start);
    if nidrvs in m && nidrvs !in dropped && !EntryLive(m[nidrvs], start) {
      assert !EntryLive(h[nidrvs], start);
      StaysAtGateway(h, log, start, now, gatewayIP, nidrvs);
    } else {
      assert Pinned(h[nidrvs]) && h[nidrvs].ip == rvsIP;
      PinnedStays(h, log, gatewayIP, nidrvs);
    }
  }

  /** A later lookup of `nid` at `now`, before which it was only looked up and written with timestamps. */
  predicate LaterLookup(log: seq<Event>, nid: Nid, now: int, start: int) {
    Chronological(log + [Get(nid, now)], start) && forall e | e in log && e.nid == nid :: e.Get? || e.New?
  }

  /** The lookup finds `ip`. */
  predicate FindsAt(m: Table, log: seq<Event>, nid: Nid, now: int, gateway: Locator, ip: Locator) {
    Found(m, log, nid, now, gateway) && Answer(m, log, nid, now, gateway) == ip
  }

  /** Over every later run lookups of `nid` find `ip`, whatever responses arrive for it. */
  ghost predicate PinnedForGood(m: Table, nid: Nid, start: int, gateway: Locator, ip: Locator) {
    forall log, now | LaterLookup(log, nid, now, start) :: FindsAt(m, log, nid, now, gateway, ip)
  }

  lemma PinnedIsForGood(m: Table, nid: Nid, start: int, gateway: Locator)
    requires nid in m && Pinned(m[nid])
    ensures PinnedForGood(m, nid, start, gateway, m[nid].ip)
  {
    forall log, now | LaterLookup(log, nid, now, start)
      ensures FindsAt(m, log, nid, now, gateway, m[nid].ip)
    {
      PinnedStays(m, log, gateway, nid);
    }
  }

  lemma StaleIsNotFound(m: Table, nid: Nid, start: int, gateway: Locator, ip: Locator)
    requires start > 0 && nid in m && !EntryLive(m[nid], start)
    ensures !PinnedForGood(m, nid, start, gateway, ip)
  {
    assert LaterLookup([], nid, start, start);
    assert !FindsAt(m, [], nid, start, gateway, ip);
  }

  /**
   What a handover pins, it pins for good: over every later run of lookups and timestamped writes the new
   gateway is found at its locator, and the new server at its own, exactly when the cache held no expired
   entry under that identifier other than the old gateway's and server's.
   */
  lemma HandoverPins(m: Table, dropped: set<Nid>, nidgw: Nid, nidrvs: Nid, gatewayIP: Locator, rvsIP: Locator, start: int)
    requires start > 0 && nidgw != nidrvs
    ensures var h := Handover(m, dropped, nidgw, nidrvs, gatewayIP, rvsIP, start);
            && (PinnedForGood(h, nidgw, start, gatewayIP, gatewayIP)
                <==> !(nidgw in m && nidgw !in dropped && !EntryLive(m[nidgw], start)))
            && (PinnedForGood(h, nidrvs, start, gatewayIP, rvsIP)
                <==> !(nidrvs in m && nidrvs !in dropped && !EntryLive(m[nidrvs], start)))
  {
    var h := Handover(m, dropped, nidgw, nidrvs, gatewayIP, rvsIP, start);
    hide PinnedForGood, Chronological;
    if nidgw in m && nidgw !in dropped && !EntryLive(m[nidgw], start) {
      StaleIsNotFound(h, nidgw, start, gatewayIP, gatewayIP);
    } else {
      PinnedIsForGood(h, nidgw, start, gatewayIP);
    }
    if nidrvs in m && nidrvs !in dropped && !EntryLive(m[nidrvs], start) {
      StaleIsNotFound(h, nidrvs, start, gatewayIP, rvsIP);
    } else {
      PinnedIsForGood(h, nidrvs, start, gatewayIP);
    }
  }
}
