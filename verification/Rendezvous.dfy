/** The rendezvous server, and how stale a locator can be when a node's cache hands it out. */
module Rendezvous {
  import opened Bytes
  import opened SoftState

  // ----- the server -----

  datatype RvsType = RVS_UPDATE | RVS_ACK | RVS_GET | RVS_RESPONSE

  datatype RvsMsg = RvsMsg(kind: RvsType, srcNID: Nid, destNID: Nid, srcNIDgw: Nid, destNIDgw: Nid, nid: Nid, ip: Locator)

  /** The registered locator if the registration is recent enough, else 0 and the entry is gone. */
  function ServerGet(m: Table, nid: Nid, now: int): (Table, Locator) {
    if nid in m && m[nid].tstamp + RVS_TIMEOUT > now then (m, m[nid].ip) else (m - {nid}, 0)
  }

  function ServerPut(m: Table, nid: Nid, ip: Locator, now: int): Table {
    m[nid := Entry(ip, now)]
  }

  class Server {
    var table: Table

    constructor ()
      ensures table == map[]
    {
      table := map[];
    }

    method AddEntry(nid: Nid, ip: Locator, now: int)
      modifies this
      ensures table == ServerPut(old(table), nid, ip, now)
    {
      table := table[nid := Entry(ip, now)];
    }

    method GetEntry(nid: Nid, now: int) returns (ip: Locator)
      modifies this
      ensures (table, ip) == ServerGet(old(table), nid, now)
      ensures forall k :: k in table <==> k in old(table) && !(k == nid && old(table)[k].tstamp + 10 <= now)
      ensures forall k | k in table :: table[k] == old(table)[k]
    {
      if nid in table {
        if table[nid].tstamp + RVS_TIMEOUT > now {
          return table[nid].ip;
        }
        table := table - {nid};
      }
      assert nid !in old(table) ==> old(table) - {nid} == old(table);
      return 0;
    }

    /** The message switch; the reply is the received message, changed in place. */
    method Handle(m: RvsMsg, now: int) returns (reply: RvsMsg)
      modifies this
      ensures m.kind == RVS_UPDATE ==> table == ServerPut(old(table), m.nid, m.ip, now) && reply == m.(kind := RVS_ACK)
      ensures m.kind == RVS_GET ==>
                table == ServerGet(old(table), m.nid, now).0
                && reply == m.(kind := RVS_RESPONSE, ip := ServerGet(old(table), m.nid, now).1)
      ensures m.kind != RVS_UPDATE && m.kind != RVS_GET ==> table == old(table) && reply == m
    {
      reply := m;
      if m.kind == RVS_UPDATE {
        AddEntry(m.nid, m.ip, now);
        reply := reply.(kind := RVS_ACK);
      } else if m.kind == RVS_GET {
        var ip := GetEntry(m.nid, now);
        reply := reply.(ip := ip);
        reply := reply.(kind := RVS_RESPONSE);
      }
    }
  }

  // ----- the server as a plain log -----

  datatype ServerEvent = Registered(nid: Nid, ip: Locator, t: int) | Queried(nid: Nid, t: int)

  function Served(log: seq<ServerEvent>): Table {
    if log == [] then map[]
    else
      var before := Served(log[..|log| - 1]);
      match log[|log| - 1]
      case Registered(nid, ip, t) => ServerPut(before, nid, ip, t)
      case Queried(nid, t) => ServerGet(before, nid, t).0
  }

  /** The last registration of an identifier: where, and when. */
  function LastRegistration(log: seq<ServerEvent>, nid: Nid): Option<(Locator, int)> {
    if log == [] then None
    else
      var e := log[|log| - 1];
      if e.Registered? && e.nid == nid then Some((e.ip, e.t)) else LastRegistration(log[..|log| - 1], nid)
  }

  predicate InOrder(log: seq<ServerEvent>, now: int) {
    (forall i | 0 <= i < |log| :: log[i].t <= now) && forall i, j | 0 <= i < j < |log| :: log[i].t <= log[j].t
  }

  /** The server holds the last registration, or has found it too old. */
  lemma {:induction false} EntryIsLast(log: seq<ServerEvent>, nid: Nid, now: int)
    requires InOrder(log, now)
    ensures var m, last := Served(log), LastRegistration(log, nid);
            && (nid in m ==> last == Some((m[nid].ip, m[nid].tstamp)))
            && (nid !in m && last.Some? ==> last.value.1 + RVS_TIMEOUT <= now)
  {
    if log != [] {
      EntryIsLast(log[..|log| - 1], nid, log[|log| - 1].t);
    }
  }

  /**
   Whatever was registered and asked for before, the server answers with the last registration of the
   identifier while that is less than RVS_TIMEOUT old, and with 0 from then on: queries lose nothing.
   */
  lemma ServerIsLog(log: seq<ServerEvent>, nid: Nid, now: int)
    requires InOrder(log, now)
    ensures var last := LastRegistration(log, nid);
            ServerGet(Served(log), nid, now).1 == if last.Some? && now - last.value.1 < RVS_TIMEOUT then last.value.0 else 0
  {
    EntryIsLast(log, nid, now);
  }

  // ----- server, messages under way, and the caches of all nodes -----

  type Node = nat

  datatype Update = Update(nid: Nid, ip: Locator, at: int)

  datatype Response = Response(nid: Nid, ip: Locator, sentAt: int)

  /** A cache, and for the entries whose locator came in a response, when that was sent. */
  datatype Cache = Cache(table: Table, source: map<Nid, int>)

  datatype Sys = Sys(now: int, server: Table, updates: set<Update>, responses: set<Response>, caches: map<Node, Cache>)

  datatype Act =
    | Tick
    | Register(nid: Nid, ip: Locator)
    | Ask(nid: Nid)
    | Deliver(node: Node, r: Response)
    | Lookup(node: Node, nid: Nid, gateway: Locator)
    | OtherWrite(node: Node, nid: Nid, ip: Locator)
    | PinWrite(node: Node, nid: Nid, ip: Locator)
    | Forget(node: Node, nid: Nid)

  function CacheOf(s: Sys, node: Node): Cache {
    if node in s.caches then s.caches[node] else Cache(map[], map[])
  }

  function SetCache(s: Sys, node: Node, c: Cache): Sys {
    s.(caches := s.caches[node := c])
  }

  /** A response reaches its cache within `d` seconds, or not at all; it may arrive more than once. */
  predicate Enabled(s: Sys, a: Act, d: nat) {
    a.Deliver? ==> a.r in s.responses && s.now <= a.r.sentAt + d
  }

  function Next(s: Sys, a: Act): Sys {
    match a
    case Tick => s.(now := s.now + 1)
    case Register(nid, ip) =>
      s.(server := ServerPut(s.server, nid, ip, s.now), updates := s.updates + {Update(nid, ip, s.now)})
    case Ask(nid) =>
      var (table, ip) := ServerGet(s.server, nid, s.now);
      s.(server := table, responses := s.responses + {Response(nid, ip, s.now)})
    case Deliver(node, r) =>
      var c := CacheOf(s, node);
      if r.ip == 0 then s
      else SetCache(s, node, Cache(Write(c.table, r.nid, r.ip, s.now),
                                   if r.nid in c.table && Pinned(c.table[r.nid]) then c.source else c.source[r.nid := r.sentAt]))
    case Lookup(node, nid, gateway) =>
      var c := CacheOf(s, node);
      var (table, _, found) := Resolve(c.table, nid, s.now, gateway);
      SetCache(s, node, Cache(table, if found then c.source else c.source - {nid}))
    case OtherWrite(node, nid, ip) =>
      var c := CacheOf(s, node);
      SetCache(s, node, Cache(Write(c.table, nid, ip, s.now),
                              if nid in c.table && Pinned(c.table[nid]) then c.source else c.source - {nid}))
    case PinWrite(node, nid, ip) =>
      var c := CacheOf(s, node);
      SetCache(s, node, Cache(StaticWrite(c.table, nid, ip), c.source - {nid}))
    case Forget(node, nid) =>
      var c := CacheOf(s, node);
      SetCache(s, node, Cache(c.table - {nid}, c.source - {nid}))
  }

  // ----- bounded staleness -----

  ghost predicate ServerBacked(s: Sys) {
    forall k | k in s.server :: Update(k, s.server[k].ip, s.server[k].tstamp) in s.updates && s.server[k].tstamp <= s.now
  }

  /** The registration a response with a locator was answered from. */
  ghost predicate Backed(s: Sys, r: Response) {
    exists u :: u in s.updates && u.nid == r.nid && u.ip == r.ip && r.sentAt - u.at < RVS_TIMEOUT
  }

  ghost predicate CacheBacked(s: Sys, c: Cache, d: nat) {
    forall k | k in c.source ::
      && k in c.table && !Pinned(c.table[k])
      && c.table[k].tstamp <= c.source[k] + d
      && Response(k, c.table[k].ip, c.source[k]) in s.responses && c.table[k].ip != 0
  }

  ghost predicate Inv(s: Sys, d: nat) {
    && s.now > 0
    && ServerBacked(s)
    && (forall r | r in s.responses && r.ip != 0 :: Backed(s, r))
    && (forall node | node in s.caches :: CacheBacked(s, s.caches[node], d))
  }

  lemma CacheStep(s: Sys, a: Act, d: nat, node: Node)
    requires Inv(s, d) && Enabled(s, a, d) && node in Next(s, a).caches
    ensures CacheBacked(Next(s, a), Next(s, a).caches[node], d)
  {
    var c := CacheOf(s, node);
    assert CacheBacked(s, c, d);
    if a.Deliver? || a.Lookup? {
      hide Inv, ServerGet, ServerPut;
      CacheMoves(s, a, d, node);
    } else {
      hide Inv, Resolve, ServerPut;
    }
  }

  /** A response written, or a lookup that may fall back to the gateway. */
  lemma CacheMoves(s: Sys, a: Act, d: nat, node: Node)
    requires (a.Deliver? || a.Lookup?) && s.now > 0 && Enabled(s, a, d) && node in Next(s, a).caches
    requires CacheBacked(s, CacheOf(s, node), d)
    ensures CacheBacked(Next(s, a), Next(s, a).caches[node], d)
  {
  }

  lemma BackedStep(s: Sys, a: Act, d: nat, r: Response)
    requires Inv(s, d) && Enabled(s, a, d) && r in Next(s, a).responses && r.ip != 0
    ensures Backed(Next(s, a), r)
  {
    if r in s.responses {
      var u :| u in s.updates && u.nid == r.nid && u.ip == r.ip && r.sentAt - u.at < RVS_TIMEOUT;
      assert u in Next(s, a).updates;
    } else {
      assert Update(r.nid, r.ip, s.server[r.nid].tstamp) in s.updates;
    }
  }

  lemma StepInv(s: Sys, a: Act, d: nat)
    requires Inv(s, d) && Enabled(s, a, d)
    ensures Inv(Next(s, a), d)
  {
    var s' := Next(s, a);
    hide Backed, CacheBacked;
    forall r | r in s'.responses && r.ip != 0
      ensures Backed(s', r)
    {
      BackedStep(s, a, d, r);
    }
    forall node | node in s'.caches
      ensures CacheBacked(s', s'.caches[node], d)
    {
      CacheStep(s, a, d, node);
    }
  }

  function After(s: Sys, acts: seq<Act>): Sys {
    if acts == [] then s else Next(After(s, acts[..|acts| - 1]), acts[|acts| - 1])
  }

  predicate IsRun(s: Sys, acts: seq<Act>, d: nat) {
    forall i | 0 <= i < |acts| :: Enabled(After(s, acts[..i]), acts[i], d)
  }

  const START := Sys(1, map[], {}, {}, map[])

  lemma {:induction false} RunInv(acts: seq<Act>, d: nat)
    requires IsRun(START, acts, d)
    ensures Inv(After(START, acts), d)
  {
    if acts != [] {
      var front := acts[..|acts| - 1];
      assert forall i | 0 <= i < |front| :: front[..i] == acts[..i] && front[i] == acts[i];
      RunInv(front, d);
      StepInv(After(START, front), acts[|acts| - 1], d);
    }
  }

  /** The oldest a registration can be when a locator that came from it is handed out. */
  function WorstAge(d: nat): int {
    (RVS_TIMEOUT - 1) + d + (RVS_UPDATE_TIMEOUT - 1)
  }

  /**
   Over every run: a locator that a lookup hands out and that came in a response was registered for
   that identifier less than RVS_TIMEOUT + RVS_UPDATE_TIMEOUT + d seconds before.
   */
  lemma BoundedStaleness(acts: seq<Act>, d: nat, node: Node, nid: Nid, gateway: Locator)
    requires IsRun(START, acts, d)
    ensures WorstAge(d) == d + 13
    ensures var s := After(START, acts); var c := CacheOf(s, node); var (_, dst, found) := Resolve(c.table, nid, s.now, gateway);
            found && nid in c.source ==>
              exists u :: u in s.updates && u.nid == nid && u.ip == dst && s.now - u.at <= WorstAge(d) < RVS_TIMEOUT + RVS_UPDATE_TIMEOUT + d
  {
    RunInv(acts, d);
    var s := After(START, acts);
    var c := CacheOf(s, node);
    if nid in c.table && Live(c.table[nid], RVS_UPDATE_TIMEOUT, s.now) && nid in c.source {
      assert CacheBacked(s, c, d);
      var r := Response(nid, c.table[nid].ip, c.source[nid]);
      assert Backed(s, r);
      var u :| u in s.updates && u.nid == r.nid && u.ip == r.ip && r.sentAt - u.at < RVS_TIMEOUT;
      assert s.now - u.at <= WorstAge(d);
    }
  }

  // ----- the bound is attained -----

  function Ticks(n: nat): seq<Act> {
    seq(n, _ => Tick)
  }

  lemma {:induction false} AfterAppend(s: Sys, a: seq<Act>, b: seq<Act>)
    ensures After(s, a + b) == After(After(s, a), b)
  {
    if b == [] {
      assert a + b == a;
    } else {
      var front := b[..|b| - 1];
      assert (a + b)[..|a + b| - 1] == a + front;
      AfterAppend(s, a, front);
    }
  }

  lemma {:induction false} RunAppend(s: Sys, a: seq<Act>, b: seq<Act>, d: nat)
    requires IsRun(s, a, d) && IsRun(After(s, a), b, d)
    ensures IsRun(s, a + b, d)
  {
    forall i | 0 <= i < |a + b|
      ensures Enabled(After(s, (a + b)[..i]), (a + b)[i], d)
    {
      if i < |a| {
        assert (a + b)[..i] == a[..i];
      } else {
        assert (a + b)[..i] == a + b[..i - |a|];
        AfterAppend(s, a, b[..i - |a|]);
      }
    }
  }

  lemma {:induction false} AfterTicks(s: Sys, n: nat, d: nat)
    ensures After(s, Ticks(n)) == s.(now := s.now + n) && IsRun(s, Ticks(n), d)
  {
    if n > 0 {
      AfterTicks(s, n - 1, d);
      assert Ticks(n)[..n - 1] == Ticks(n - 1);
    }
  }

  /** One more act, then `n` seconds. */
  lemma Extend(acts: seq<Act>, a: Act, n: nat, d: nat)
    requires IsRun(START, acts, d) && Enabled(After(START, acts), a, d)
    ensures IsRun(START, acts + [a] + Ticks(n), d)
    ensures After(START, acts + [a] + Ticks(n)) == var s := Next(After(START, acts), a); s.(now := s.now + n)
  {
    var s := After(START, acts);
    assert After(s, [a]) == Next(s, a) by {
      assert [a][..0] == [];
    }
    assert IsRun(s, [a], d) by {
      assert [a][..0] == [];
    }
    AfterAppend(START, acts, [a]);
    RunAppend(START, acts, [a], d);
    AfterTicks(Next(s, a), n, d);
    AfterAppend(START, acts + [a], Ticks(n));
    RunAppend(START, acts + [a], Ticks(n), d);
  }

  /** For every delay bound there is a run in which the only registration is exactly that old. */
  lemma StalenessAttained(d: nat, nid: Nid, ip: Locator, gateway: Locator) returns (acts: seq<Act>)
    requires ip != 0
    ensures IsRun(START, acts, d)
    ensures var s := After(START, acts); var c := CacheOf(s, 0);
            && nid in c.source && Resolve(c.table, nid, s.now, gateway) == (c.table, ip, true)
            && s.updates == {Update(nid, ip, s.now - WorstAge(d))}
  {
    var a1 := [] + [Register(nid, ip)] + Ticks(RVS_TIMEOUT - 1);
    Extend([], Register(nid, ip), RVS_TIMEOUT - 1, d);
    var a2 := a1 + [Ask(nid)] + Ticks(d);
    Extend(a1, Ask(nid), d, d);
    var r := Response(nid, ip, RVS_TIMEOUT);
    assert r in After(START, a2).responses;
    acts := a2 + [Deliver(0, r)] + Ticks(RVS_UPDATE_TIMEOUT - 1);
    Extend(a2, Deliver(0, r), RVS_UPDATE_TIMEOUT - 1, d);
  }
}
