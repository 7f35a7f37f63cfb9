/**
 The soft-state discipline shared by the connection mapper, the gateway routing table
 and the rendezvous server, on plain maps: an entry with timestamp 0 is pinned, any
 other entry is good for a fixed number of seconds after its last timestamped write.
 */
module SoftState {
  import opened Bytes

  /** An IPv4 locator; 0 means that none is known. */
  type Locator = x: int | 0 <= x < 0x1_0000_0000

  const RVS_UPDATE_TIMEOUT := 5
  const RVS_PROACTIVE := RVS_UPDATE_TIMEOUT - 1
  const RVS_TIMEOUT := 10
  const GATEWAY_TIMEOUT := 10

  datatype Entry = Entry(ip: Locator, tstamp: int)

  type Table = map<Nid, Entry>

  predicate Pinned(e: Entry) {
    e.tstamp == 0
  }

  predicate Live(e: Entry, timeout: int, now: int) {
    Pinned(e) || e.tstamp + timeout > now
  }

  /** A timestamped write; it leaves a pinned entry alone. */
  function Write(m: Table, nid: Nid, ip: Locator, now: int): Table {
    if nid in m && Pinned(m[nid]) then m else m[nid := Entry(ip, now)]
  }

  /** A static write: it pins a fresh entry, but only readdresses an existing one. */
  function StaticWrite(m: Table, nid: Nid, ip: Locator): Table {
    if nid in m then m[nid := m[nid].(ip := ip)] else m[nid := Entry(ip, 0)]
  }

  /** A cache lookup that falls back to the gateway and records that as a new write. */
  function Resolve(m: Table, nid: Nid, now: int, gateway: Locator): (Table, Locator, bool) {
    if nid in m && Live(m[nid], RVS_UPDATE_TIMEOUT, now) then (m, m[nid].ip, true)
    else ((m - {nid})[nid := Entry(gateway, now)], gateway, false)
  }

  /** The operations the connection mapper offers, with the instants at which they happen. */
  datatype Event =
    | New(nid: Nid, ip: Locator, t: int)
    | Static(nid: Nid, ip: Locator, t: int)
    | Get(nid: Nid, t: int)
    | Del(nid: Nid, t: int)

  function Apply(m: Table, e: Event, gateway: Locator): Table {
    match e
    case New(nid, ip, t) => Write(m, nid, ip, t)
    case Static(nid, ip, _) => StaticWrite(m, nid, ip)
    case Get(nid, t) => Resolve(m, nid, t, gateway).0
    case Del(nid, _) => m - {nid}
  }

  function Run(m: Table, log: seq<Event>, gateway: Locator): Table {
    if log == [] then m else Apply(Run(m, log[..|log| - 1], gateway), log[|log| - 1], gateway)
  }

  /** Positive, non-decreasing instants, none before `start`. */
  predicate Chronological(log: seq<Event>, start: int) {
    && start > 0
    && (forall i | 0 <= i < |log| :: log[i].t >= start)
    && forall i, j | 0 <= i < j < |log| :: log[i].t <= log[j].t
  }
}
