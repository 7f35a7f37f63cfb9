/**
 The lease state machine of the DHCP client: state functions chained by the main loop, a
 signal handler that resumes the state an alarm interrupts, and the replies accepted in between.
 Time is in whole seconds; an alarm that is due is delivered before the clock moves on.
 */
module Lease {
  import opened Bytes
  import opened DhcpOptions
  import opened OptionTable

  const DHCP_OFFER: byte := 2
  const DHCP_BOOTREPLY: byte := 2
  const ARPHRD_ETHER: byte := 1
  const ARPHRD_IEEE802_TR: byte := 6

  /** Where the client waits. Initialisation waits twice, for an offer and for its acknowledgement. */
  datatype State = Reboot | Discover | Request | Bound | Renew | Rebind | Gone

  const NO_TIMERS := Timers(0, 0, 0)

  datatype Client = Client(state: State, daemon: bool, alarm: Option<int>, reqSentTime: int, timers: Timers,
                           ciaddr: u32, configured: Option<u32>, xid: u32) {
    predicate HoldsLease() {
      state == Bound || state == Renew || state == Rebind
    }
  }

  datatype Reply = Reply(op: byte, htype: byte, xid: u32, msgType: byte, timers: Timers, yiaddr: u32)

  /** The fixed fields of a message that the client looks at. */
  datatype Header = Header(op: byte, htype: byte, xid: u32, yiaddr: u32)

  /** A message parsed into a table that holds `stored` as the lease. */
  function ReplyOf(h: Header, opts: seq<Opt>, stored: u32, ownLease: u32): Reply {
    var t := LastValue(opts, MESSAGE_TYPE);
    Reply(h.op, h.htype, h.xid, if t.Some? then t.value[0] else 0, ParsedTimers(opts, stored, ownLease), h.yiaddr)
  }

  /** The difference of two instants as the 32-bit number handed to the alarm. */
  function ToInt32(x: int): int32 {
    (x + 0x8000_0000) % 0x1_0000_0000 - 0x8000_0000
  }

  // ----- entering a state -----

  function EnterInit(c: Client, rnd: u32): Client {
    c.(state := Discover, timers := NO_TIMERS, xid := rnd)
  }

  /** Stopping unconfigures the interface; the main loop goes on to start over. */
  function EnterStop(c: Client, rnd: u32): Client {
    EnterInit(c.(configured := None), rnd)
  }

  function EnterRebind(c: Client, now: int, rnd: u32): Client {
    var i := ToInt32(c.reqSentTime + c.timers.lease - now);
    if i > 0 then c.(state := Rebind, alarm := Some(now + i), xid := rnd) else EnterStop(c, rnd)
  }

  function EnterRenew(c: Client, now: int, rnd: u32): Client {
    var i := ToInt32(c.reqSentTime + c.timers.t2 - now);
    if i > 0 then c.(state := Renew, alarm := Some(now + i), xid := rnd) else EnterRebind(c, now, rnd)
  }

  /** The first binding detaches the process, which cancels the start-up alarm. */
  function EnterBound(c: Client, now: int, rnd: u32): Client {
    var c1 := if c.daemon then c else c.(daemon := true, alarm := None);
    var i := ToInt32(c1.reqSentTime + c1.timers.t1 - now);
    if i > 0 then c1.(state := Bound, alarm := Some(now + i)) else EnterRenew(c1, now, rnd)
  }

  // ----- what happens to a waiting client -----

  /** A reply to the request under way. */
  predicate Answers(c: Client, r: Reply) {
    && c.state != Bound && c.state != Gone
    && r.xid == c.xid
    && (r.htype == ARPHRD_ETHER || r.htype == ARPHRD_IEEE802_TR)
    && r.op == DHCP_BOOTREPLY
  }

  predicate Acknowledges(c: Client, r: Reply) {
    Answers(c, r) && c.state != Discover && r.msgType == DHCP_ACK
  }

  /** Any reply to the request is parsed into the stored options, whatever its type. */
  function Receive(c: Client, r: Reply, now: int, rnd: u32, inUse: bool, configFails: bool): Client {
    if !Answers(c, r) then c
    else
      var c1 := c.(timers := r.timers);
      if c.state == Discover then
        if r.msgType == DHCP_OFFER then c1.(state := Request, ciaddr := r.yiaddr)
        else if r.msgType == DHCP_NAK then c1.(state := Gone, configured := None)
        else c1
      else if r.msgType == DHCP_ACK then
        var c2 := c1.(reqSentTime := now);
        if c.state == Renew || c.state == Rebind then EnterBound(c2, now, rnd)
        else if inUse then EnterInit(c2.(ciaddr := 0), rnd)
        else if configFails then c2.(state := Gone, configured := None)
        else EnterBound(c2.(configured := Some(c.ciaddr)), now, rnd)
      else if r.msgType == DHCP_NAK then
        if c.state == Renew then EnterRebind(c1, now, rnd)
        else if c.state == Rebind then EnterStop(c1, rnd)
        else EnterInit(c1, rnd)
      else c1
  }

  /** The alarm, by the state it interrupts. */
  function SigAlarm(c: Client, now: int, rnd: u32, timeOut: nat): Client {
    var c1 := c.(alarm := None);
    match c.state
    case Bound => EnterRenew(c1, now, rnd)
    case Renew => EnterRebind(c1, now, rnd)
    case Rebind => EnterStop(c1, rnd)
    case Reboot => EnterInit(c1.(alarm := Some(now + timeOut)), rnd)
    case _ => c1.(state := Gone, configured := None)
  }

  // ----- runs -----

  datatype Act =
    | Tick
    | Alarm(rnd: u32, timeOut: nat)
    | Incoming(r: Reply, rnd: u32, inUse: bool, configFails: bool)
    | Kill

  /** `lease` and `addr` record, for the sake of the statements, what the server last granted. */
  datatype World = World(c: Client, now: int, lease: u32, addr: u32)

  predicate Due(w: World) {
    w.c.alarm.Some? && w.now >= w.c.alarm.value
  }

  predicate Enabled(w: World, a: Act) {
    match a
    case Tick => !Due(w)
    case Alarm(_, _) => Due(w)
    case _ => true
  }

  function Next(w: World, a: Act): World {
    match a
    case Tick => w.(now := w.now + 1)
    case Alarm(rnd, timeOut) => w.(c := SigAlarm(w.c, w.now, rnd, timeOut))
    case Incoming(r, rnd, inUse, configFails) =>
      var w1 := w.(c := Receive(w.c, r, w.now, rnd, inUse, configFails));
      if Acknowledges(w.c, r) then w1.(lease := r.timers.lease, addr := if w.c.HoldsLease() then w.addr else w.c.ciaddr)
      else w1
    case Kill => w.(c := w.c.(state := Gone, configured := None, ciaddr := 0))
  }

  function After(w: World, acts: seq<Act>): World {
    if acts == [] then w else Next(After(w, acts[..|acts| - 1]), acts[|acts| - 1])
  }

  // ----- when the alarms fire -----

  /** Seconds from the acknowledgement until the client renews: a T1 the 32-bit alarm cannot carry counts as none. */
  function RenewsAt(t: Timers): nat {
    if t.t1 < 0x8000_0000 then t.t1 else 0
  }

  function RebindsAt(t: Timers): nat {
    if RenewsAt(t) < t.t2 < RenewsAt(t) + 0x8000_0000 then t.t2 else RenewsAt(t)
  }

  /** A lease that lies too far behind the time of rebinding comes around once more. */
  function StopsAt(t: Timers): nat {
    if RebindsAt(t) < t.lease < RebindsAt(t) + 0x8000_0000 then t.lease
    else if t.lease + 0x8000_0000 < RebindsAt(t) then t.lease + 0x1_0000_0000
    else RebindsAt(t)
  }

  /** The client starts to rebind before the lease is over. */
  predicate Sound(t: Timers) {
    RebindsAt(t) <= t.lease
  }

  /** A lease of `stored` in the table, read `e` seconds after the acknowledgement, outlasts the one granted. */
  predicate Outlasts(stored: u32, granted: u32, e: int) {
    granted < stored < e + 0x8000_0000 || stored + 0x8000_0000 < e
  }

  /** When a lease that a reply leaves in the table is read: at a refusal at once, else when the alarm goes off. */
  function ReadAt(w: World, r: Reply): int
    requires w.c.alarm.Some?
  {
    (if r.msgType == DHCP_NAK then w.now else w.c.alarm.value) - w.c.reqSentTime
  }

  /** Acknowledgements carry sound timers, and no other reply to a renewal outlasts the lease granted. */
  predicate Careful(w: World, a: Act) {
    a.Incoming? && Answers(w.c, a.r) ==>
      && (Acknowledges(w.c, a.r) ==> Sound(a.r.timers))
      && (w.c.state == Renew && w.c.alarm.Some? && !Acknowledges(w.c, a.r) ==>
            !Outlasts(a.r.timers.lease, w.lease, ReadAt(w, a.r)))
  }

  predicate CarefulRun(w: World, acts: seq<Act>) {
    forall i | 0 <= i < |acts| :: Enabled(After(w, acts[..i]), acts[i]) && Careful(After(w, acts[..i]), acts[i])
  }

  /** What every careful step keeps. */
  predicate Safe(w: World) {
    w.c.HoldsLease() ==>
      && w.c.daemon && w.c.alarm.Some?
      && w.c.reqSentTime <= w.now <= w.c.alarm.value <= w.c.reqSentTime + w.lease
      && (w.c.state == Bound ==>
            w.c.timers.lease == w.lease && Sound(w.c.timers) && w.c.alarm.value == w.c.reqSentTime + RenewsAt(w.c.timers))
      && (w.c.state == Renew ==> !Outlasts(w.c.timers.lease, w.lease, w.c.alarm.value - w.c.reqSentTime))
      && w.c.configured == Some(w.c.ciaddr) && w.c.ciaddr == w.addr
  }

  lemma EnterRebindSafe(w: World, rnd: u32)
    requires w.c.reqSentTime <= w.now <= w.c.reqSentTime + w.lease && w.c.daemon
    requires !Outlasts(w.c.timers.lease, w.lease, w.now - w.c.reqSentTime)
    requires w.c.configured == Some(w.c.ciaddr) && w.c.ciaddr == w.addr
    ensures Safe(w.(c := EnterRebind(w.c, w.now, rnd)))
  {
  }

  lemma EnterRenewSafe(w: World, rnd: u32)
    requires w.now == w.c.reqSentTime + RenewsAt(w.c.timers) && w.c.daemon
    requires w.c.timers.lease == w.lease && Sound(w.c.timers)
    requires w.c.configured == Some(w.c.ciaddr) && w.c.ciaddr == w.addr
    ensures Safe(w.(c := EnterRenew(w.c, w.now, rnd)))
  {
    EnterRebindSafe(w, rnd);
  }

  lemma EnterBoundSafe(w: World, rnd: u32)
    requires w.c.reqSentTime == w.now && Sound(w.c.timers) && w.c.timers.lease == w.lease
    requires w.c.configured == Some(w.c.ciaddr) && w.c.ciaddr == w.addr
    ensures Safe(w.(c := EnterBound(w.c, w.now, rnd)))
  {
    if RenewsAt(w.c.timers) == 0 {
      EnterRenewSafe(w.(c := if w.c.daemon then w.c else w.c.(daemon := true, alarm := None)), rnd);
    }
  }

  lemma StepSafe(w: World, a: Act)
    requires Safe(w) && Enabled(w, a) && Careful(w, a)
    ensures Safe(Next(w, a))
  {
    match a
    case Tick =>
    case Kill =>
    case Alarm(rnd, timeOut) =>
      var w1 := w.(c := w.c.(alarm := None));
      if w.c.state == Bound {
        EnterRenewSafe(w1, rnd);
      } else if w.c.state == Renew {
        EnterRebindSafe(w1, rnd);
      }
    case Incoming(r, rnd, inUse, configFails) =>
      if Acknowledges(w.c, r) {
        var w2 := Next(w, a);
        var c2 := w.c.(timers := r.timers, reqSentTime := w.now);
        if w.c.HoldsLease() {
          EnterBoundSafe(w2.(c := c2), rnd);
        } else {
          EnterBoundSafe(w2.(c := c2.(configured := Some(w.c.ciaddr))), rnd);
        }
      } else if Answers(w.c, r) && w.c.state == Renew && r.msgType == DHCP_NAK {
        EnterRebindSafe(w.(c := w.c.(timers := r.timers)), rnd);
      }
  }

  /** Over every careful run the client holds its address only within the lease last acknowledged. */
  lemma {:induction false} LeaseSafety(w: World, acts: seq<Act>)
    requires !w.c.HoldsLease() && CarefulRun(w, acts)
    ensures Safe(After(w, acts))
    ensures After(w, acts).c.HoldsLease() ==> After(w, acts).now <= After(w, acts).c.reqSentTime + After(w, acts).lease
  {
    if acts != [] {
      var n := |acts| - 1;
      var front := acts[..n];
      assert forall i | 0 <= i < n :: front[..i] == acts[..i] && front[i] == acts[i];
      LeaseSafety(w, front);
      StepSafe(After(w, front), acts[n]);
    }
  }

  // ----- runs over messages -----

  /** The server leaves both timers out, or sends zero. */
  predicate OmitsTimers(opts: seq<Opt>) {
    Sent(opts, T1_VALUE) == 0 && Sent(opts, T2_VALUE) == 0
  }

  /** With both timers left out the parser settles on sound ones, for every lease up to the infinite one. */
  lemma OmittedTimersSound(opts: seq<Opt>, stored: u32, ownLease: u32)
    requires OmitsTimers(opts)
    ensures Sound(ParsedTimers(opts, stored, ownLease))
  {
    hide Sent, LastValue;
    SettledInOrder(if LastValue(opts, IP_ADDRESS_LEASE_TIME).Some? then Sent(opts, IP_ADDRESS_LEASE_TIME) else stored, ownLease);
  }

  /** `a` brings in message `m`, parsed into the client's own table. */
  predicate Brings(w: World, a: Act, m: (Header, seq<Opt>), ownLease: u32) {
    a.Incoming? ==> a.r == ReplyOf(m.0, m.1, w.c.timers.lease, ownLease)
  }

  /** An acknowledgement leaves the two timers to the client, or sends sound ones. */
  predicate GrantsSoundly(a: Act, m: (Header, seq<Opt>))
    requires a.Incoming?
  {
    OmitsTimers(m.1) || Sound(a.r.timers)
  }

  /** A reply to a renewal says nothing about the lease, or names one that does not outlast the lease granted. */
  predicate KeepsLease(w: World, a: Act, m: (Header, seq<Opt>))
    requires a.Incoming?
  {
    LastValue(m.1, IP_ADDRESS_LEASE_TIME).None? || (w.c.alarm.Some? && !Outlasts(a.r.timers.lease, w.lease, ReadAt(w, a.r)))
  }

  /**
   A step takes place. Nothing is asked of a message that is not for the client or that finds it without an
   address, an acknowledgement apart: offers may carry leases and timers, as they do.
   */
  predicate MessageAct(w: World, a: Act, m: (Header, seq<Opt>), ownLease: u32) {
    && Enabled(w, a) && Brings(w, a, m, ownLease)
    && (a.Incoming? && Acknowledges(w.c, a.r) ==> GrantsSoundly(a, m))
    && (a.Incoming? && w.c.state == Renew && Answers(w.c, a.r) && !Acknowledges(w.c, a.r) ==> KeepsLease(w, a, m))
  }

  /**
   Lease safety over messages: when acknowledgements leave the two timers to the client, or send sound ones,
   and other replies to a renewal leave the lease alone, the address is only ever held within the lease last
   acknowledged.
   */
  lemma {:induction false} MessagesSafe(w: World, acts: seq<Act>, ms: seq<(Header, seq<Opt>)>, ownLease: u32)
    requires !w.c.HoldsLease() && |ms| == |acts|
    requires MessageRun(w, acts, ms, ownLease)
    ensures HasLease(After(w, acts), ownLease) && Safe(After(w, acts))
  {
    if acts != [] {
      hide MessageAct, Next, Safe, HasLease, After, Client.HoldsLease;
      var n := |acts| - 1;
      var front := acts[..n];
      assert forall i | 0 <= i < n :: front[..i] == acts[..i] && front[i] == acts[i] && ms[..n][i] == ms[i];
      MessagesSafe(w, front, ms[..n], ownLease);
      assert MessageAct(After(w, front), acts[n], ms[n], ownLease);
      AfterLast(w, acts);
      MessageStep(After(w, front), acts[n], ms[n], ownLease);
    }
  }

  predicate MessageRun(w: World, acts: seq<Act>, ms: seq<(Header, seq<Opt>)>, ownLease: u32)
    requires |ms| == |acts|
  {
    forall i | 0 <= i < |acts| :: MessageAct(After(w, acts[..i]), acts[i], ms[i], ownLease)
  }

  lemma AfterLast(w: World, acts: seq<Act>)
    requires acts != []
    ensures After(w, acts) == Next(After(w, acts[..|acts| - 1]), acts[|acts| - 1])
  {
  }

  /** Before it rebinds, a client that holds an address has a lease in its table that no parsing replaces by its own. */
  predicate HasLease(w: World, ownLease: u32) {
    w.c.state == Bound || w.c.state == Renew ==> w.c.timers.lease > 0 || ownLease == 0
  }

  lemma MessageStep(w: World, a: Act, m: (Header, seq<Opt>), ownLease: u32)
    requires Safe(w) && HasLease(w, ownLease) && MessageAct(w, a, m, ownLease)
    ensures Safe(Next(w, a)) && HasLease(Next(w, a), ownLease)
  {
    MessageCareful(w, a, m, ownLease);
    StepSafe(w, a);
    hide LastValue, Sent, Sound, Settle, Safe, MessageAct, Careful;
    LeaseLeft(w, m, ownLease);
    BringsLease(w, a, m, ownLease);
  }

  /** What is asked of the messages is what is asked of the replies they are parsed into. */
  lemma MessageCareful(w: World, a: Act, m: (Header, seq<Opt>), ownLease: u32)
    requires Safe(w) && HasLease(w, ownLease) && MessageAct(w, a, m, ownLease)
    ensures Careful(w, a)
  {
    if OmitsTimers(m.1) {
      OmittedTimersSound(m.1, w.c.timers.lease, ownLease);
    }
    hide LastValue, Sent, Sound, Settle;
    LeaseLeft(w, m, ownLease);
    if w.c.state == Renew {
      OutlastsLater(w.c.timers.lease, w.lease, w.now - w.c.reqSentTime, w.c.alarm.value - w.c.reqSentTime);
    }
  }

  /** A lease that outlasts the one granted when it is read early does so when it is read late. */
  lemma OutlastsLater(stored: u32, granted: u32, e: int, e': int)
    requires e <= e'
    ensures Outlasts(stored, granted, e) ==> Outlasts(stored, granted, e')
  {
  }

  /** What a message leaves in the table: a lease, if the client has one of its own; the old one, if it sends none. */
  lemma LeaseLeft(w: World, m: (Header, seq<Opt>), ownLease: u32)
    ensures var t := ParsedTimers(m.1, w.c.timers.lease, ownLease);
            && (t.lease > 0 || ownLease == 0)
            && (LastValue(m.1, IP_ADDRESS_LEASE_TIME).None? && (w.c.timers.lease > 0 || ownLease == 0) ==> t.lease == w.c.timers.lease)
  {
  }

  lemma BringsLease(w: World, a: Act, m: (Header, seq<Opt>), ownLease: u32)
    requires HasLease(w, ownLease) && Brings(w, a, m, ownLease) && Enabled(w, a)
    requires ParsedTimers(m.1, w.c.timers.lease, ownLease).lease > 0 || ownLease == 0
    ensures HasLease(Next(w, a), ownLease)
  {
    hide ToInt32, ParsedTimers;
  }

  /** An ordinary message of a server: its type and the lease, the two timers left out. */
  function Grant(msgType: byte, lease: u32): seq<Opt> {
    [Opt(MESSAGE_TYPE, [msgType]), Opt(IP_ADDRESS_LEASE_TIME, Be32(lease))]
  }

  lemma GrantValues(msgType: byte, lease: u32, c: byte)
    ensures LastValue(Grant(msgType, lease), c) ==
            if c == MESSAGE_TYPE then Some([msgType]) else if c == IP_ADDRESS_LEASE_TIME then Some(Be32(lease)) else None
  {
    hide Be32;
    var g, rest := Grant(msgType, lease), [Opt(IP_ADDRESS_LEASE_TIME, Be32(lease))];
    assert g[1..] == rest && rest[1..] == [];
    assert LastValue([], c) == None;
    assert LastValue(rest, c) == if c == IP_ADDRESS_LEASE_TIME then Some(Be32(lease)) else None;
  }

  lemma GrantParsed(h: Header, msgType: byte, lease: u32, stored: u32, ownLease: u32)
    requires lease > 0
    ensures ReplyOf(h, Grant(msgType, lease), stored, ownLease)
            == Reply(h.op, h.htype, h.xid, msgType, Timers(lease, lease / 2, 7 * lease / 8), h.yiaddr)
    ensures OmitsTimers(Grant(msgType, lease))
  {
    Be32RoundTrip(lease);
    GrantValues(msgType, lease, MESSAGE_TYPE);
    GrantValues(msgType, lease, IP_ADDRESS_LEASE_TIME);
    GrantValues(msgType, lease, T1_VALUE);
    GrantValues(msgType, lease, T2_VALUE);
    hide LastValue, Grant, Be32, FromBe32;
  }

  /** The ordinary exchange, an offer and an acknowledgement that both name the lease, is among the runs covered. */
  lemma OrdinaryExchange(w: World, yiaddr: u32, lease: u32, ownLease: u32) returns (acts: seq<Act>, ms: seq<(Header, seq<Opt>)>)
    requires w.c.state == Discover && lease > 1
    ensures |ms| == |acts| && MessageRun(w, acts, ms, ownLease)
    ensures After(w, acts).c.state == Bound && After(w, acts).c.configured == Some(yiaddr) && After(w, acts).lease == lease
  {
    var h := Header(DHCP_BOOTREPLY, ARPHRD_ETHER, w.c.xid, yiaddr);
    var offer, ack := (h, Grant(DHCP_OFFER, lease)), (h, Grant(DHCP_ACK, lease));
    var a := Incoming(ReplyOf(h, offer.1, w.c.timers.lease, ownLease), 0, false, false);
    var w1 := Next(w, a);
    var b := Incoming(ReplyOf(h, ack.1, w1.c.timers.lease, ownLease), 0, false, false);
    GrantParsed(h, DHCP_OFFER, lease, w.c.timers.lease, ownLease);
    GrantParsed(h, DHCP_ACK, lease, w1.c.timers.lease, ownLease);
    hide ReplyOf, Grant, OmitsTimers;
    acts, ms := [a, b], [offer, ack];
    assert acts[..0] == [] && acts[..1] == [a] && [a][..0] == [];
    assert After(w, [a]) == w1;
    assert MessageAct(w, a, offer, ownLease) && MessageAct(w1, b, ack, ownLease);
    forall i | 0 <= i < |acts|
      ensures MessageAct(After(w, acts[..i]), acts[i], ms[i], ownLease)
    {
      assert i == 0 || i == 1;
    }
  }

  // ----- binding discipline -----

  /** A lease is taken up, and the bound state re-entered, only on an acknowledgement of the request under way. */
  lemma BoundByAcknowledgement(w: World, a: Act)
    requires Enabled(w, a) && Next(w, a).c.HoldsLease()
    requires !w.c.HoldsLease() || (Next(w, a).c.state == Bound && w.c.state != Bound)
    ensures a.Incoming? && a.r.op == 2 && (a.r.htype == 1 || a.r.htype == 6) && a.r.xid == w.c.xid && a.r.msgType == 5
    ensures Next(w, a).lease == a.r.timers.lease && Next(w, a).c.reqSentTime == w.now
    ensures Next(w, a).c.configured == if w.c.HoldsLease() then w.c.configured else Some(w.c.ciaddr)
  {
  }

  lemma AddressStep(w: World, a: Act)
    requires Enabled(w, a) && w.c.HoldsLease() && Next(w, a).c.HoldsLease()
    ensures Next(w, a).c.configured == w.c.configured && Next(w, a).c.ciaddr == w.c.ciaddr
  {
  }

  /** Through any number of renewals and rebindings the address stays, whatever the acknowledgements name. */
  lemma {:induction false} AddressKept(w: World, acts: seq<Act>)
    requires forall i | 0 <= i < |acts| :: Enabled(After(w, acts[..i]), acts[i])
    requires forall i | 0 <= i <= |acts| :: After(w, acts[..i]).c.HoldsLease()
    ensures After(w, acts).c.configured == w.c.configured && After(w, acts).c.ciaddr == w.c.ciaddr
  {
    if acts != [] {
      var n := |acts| - 1;
      var front := acts[..n];
      assert forall i | 0 <= i <= n :: front[..i] == acts[..i];
      assert acts[..n + 1] == acts;
      AddressKept(w, front);
      AddressStep(After(w, front), acts[n]);
    }
  }

  /** `a` is an offer that a client still looking for a server takes up. */
  predicate TakesOffer(w: World, a: Act) {
    a.Incoming? && Answers(w.c, a.r) && w.c.state == Discover && a.r.msgType == DHCP_OFFER
  }

  /** The address known at the start, from the cache, and those of the offers taken up since. */
  function Offered(w: World, acts: seq<Act>): set<u32> {
    if acts == [] then {w.c.ciaddr}
    else
      var front, a := acts[..|acts| - 1], acts[|acts| - 1];
      Offered(w, front) + if TakesOffer(After(w, front), a) then {a.r.yiaddr} else {}
  }

  /** Past discovery the address asked for is one of `known`, and so is any address configured. */
  predicate FromKnown(c: Client, known: set<u32>) {
    && (c.state != Discover && c.state != Gone ==> c.ciaddr in known)
    && (c.configured.Some? ==> c.configured.value in known)
  }

  lemma StepFromKnown(w: World, a: Act, known: set<u32>)
    requires FromKnown(w.c, known)
    ensures FromKnown(Next(w, a).c, known + if TakesOffer(w, a) then {a.r.yiaddr} else {})
  {
    hide ToInt32;
  }

  /** Over every run, whatever is configured was in the cache or in an offer taken up. */
  lemma {:induction false} AddressSource(w: World, acts: seq<Act>)
    requires w.c.configured == None
    ensures FromKnown(After(w, acts).c, Offered(w, acts))
  {
    if acts != [] {
      AddressSource(w, acts[..|acts| - 1]);
      StepFromKnown(After(w, acts[..|acts| - 1]), acts[|acts| - 1], Offered(w, acts[..|acts| - 1]));
    }
  }

  // ----- the interface -----

  /** Only a client that holds a lease has an address on its interface. */
  predicate BareOutside(c: Client) {
    c.configured.Some? ==> c.HoldsLease()
  }

  lemma BareStep(w: World, a: Act)
    requires BareOutside(w.c)
    ensures BareOutside(Next(w, a).c)
  {
  }

  /** Over every run, whatever the replies, the interface has an address only while a lease is held: giving it up clears it. */
  lemma {:induction false} InterfaceFollowsLease(w: World, acts: seq<Act>)
    requires w.c.configured == None
    ensures BareOutside(After(w, acts).c)
  {
    if acts != [] {
      InterfaceFollowsLease(w, acts[..|acts| - 1]);
      BareStep(After(w, acts[..|acts| - 1]), acts[|acts| - 1]);
    }
  }

  /** An address found in use is forgotten, and none is asked for before the next offer is taken up. */
  lemma DeclinedIsForgotten(w: World, a: Act)
    requires a.Incoming? && Acknowledges(w.c, a.r) && !w.c.HoldsLease() && a.inUse
    ensures Next(w, a).c.state == Discover && Next(w, a).c.ciaddr == 0 && Next(w, a).c.xid == a.rnd
  {
  }

  predicate Addressless(c: Client) {
    c.ciaddr == 0 && (c.state == Discover || c.state == Gone)
  }

  lemma AddresslessStep(w: World, a: Act)
    requires Addressless(w.c) && !TakesOffer(w, a)
    ensures Addressless(Next(w, a).c)
  {
  }

  lemma {:induction false} ForgottenUntilOffered(w: World, acts: seq<Act>)
    requires Addressless(w.c)
    requires forall i | 0 <= i < |acts| :: !TakesOffer(After(w, acts[..i]), acts[i])
    ensures Addressless(After(w, acts).c)
  {
    hide Next, TakesOffer, Addressless;
    if acts != [] {
      var n := |acts| - 1;
      var front := acts[..n];
      assert forall i | 0 <= i < n :: front[..i] == acts[..i] && front[i] == acts[i];
      ForgottenUntilOffered(w, front);
      AddresslessStep(After(w, front), acts[n]);
    }
  }

  /** A message that is no BOOTREPLY, of another kind of hardware, or for another request, is as if it had not come. */
  lemma OthersIgnored(w: World, a: Act)
    requires a.Incoming? && (a.r.op != 2 || (a.r.htype != 1 && a.r.htype != 6) || a.r.xid != w.c.xid)
    ensures Next(w, a) == w
  {
  }

  /** Of the others, Ethernet or token ring, an offer is taken up by a client that looks for a server. */
  lemma OfferTakenUp(w: World, a: Act)
    requires a.Incoming? && a.r.op == 2 && (a.r.htype == 1 || a.r.htype == 6) && a.r.xid == w.c.xid
    requires w.c.state == Discover && a.r.msgType == 2
    ensures Next(w, a).c.state == Request && Next(w, a).c.xid == a.r.xid && Next(w, a).c.ciaddr == a.r.yiaddr
  {
  }

  /** An acknowledgement binds a client that waits for one, if the address is free and can be configured and there is time. */
  lemma AcknowledgementBinds(w: World, a: Act)
    requires a.Incoming? && a.r.op == 2 && (a.r.htype == 1 || a.r.htype == 6) && a.r.xid == w.c.xid && a.r.msgType == 5
    requires w.c.state == Request || w.c.state == Reboot || w.c.state == Renew || w.c.state == Rebind
    requires !a.inUse && !a.configFails && 0 < a.r.timers.t1 < 0x8000_0000
    ensures var c := Next(w, a).c;
            && c.state == Bound && c.alarm == Some(w.now + a.r.timers.t1) && c.timers == a.r.timers && c.reqSentTime == w.now
            && c.configured == if w.c.HoldsLease() then w.c.configured else Some(w.c.ciaddr)
  {
  }

  /** However a client comes to look for a server, it does so with an empty table and a request of its own. */
  lemma StartsOverFresh(w: World, a: Act)
    requires a.Alarm? || a.Incoming?
    requires w.c.state != Discover && Next(w, a).c.state == Discover
    ensures Next(w, a).c.timers == Timers(0, 0, 0) && Next(w, a).c.xid == a.rnd
  {
  }

  /** Where a refusal takes a client that waits for an acknowledgement, and one that looks for a server. */
  lemma RefusalMovesOn(w: World, a: Act)
    requires a.Incoming? && Answers(w.c, a.r) && a.r.msgType == 6
    ensures var s := Next(w, a).c.state;
            && (w.c.state == Reboot || w.c.state == Request ==> s == Discover && Next(w, a).c.xid == a.rnd)
            && (w.c.state == Renew ==> s == Rebind || s == Discover)
            && (w.c.state == Rebind ==> s == Discover)
            && (w.c.state == Discover ==> s == Gone)
  {
  }

  /** A client that has ended has no address, and does nothing more. */
  predicate Ended(c: Client) {
    c.state == Gone && c.configured == None
  }

  lemma EndedStep(w: World, a: Act)
    requires Ended(w.c)
    ensures Ended(Next(w, a).c)
  {
  }

  lemma {:induction false} EndedStays(w: World, acts: seq<Act>)
    requires Ended(w.c)
    ensures Ended(After(w, acts).c)
  {
    if acts != [] {
      EndedStays(w, acts[..|acts| - 1]);
      EndedStep(After(w, acts[..|acts| - 1]), acts[|acts| - 1]);
    }
  }

  /** Each request has an identifier of its own: once an alarm has sent one, only replies to that one count. */
  lemma NewRequestNewXid(w: World, a: Act, r: Reply)
    requires a.Alarm? && Answers(Next(w, a).c, r)
    ensures r.xid == a.rnd
  {
  }

  /** The client just started, at `start`: nothing is known of a server. */
  predicate Started(w: World, timeOut: nat, start: int) {
    w.c.state == Reboot && w.c.alarm == Some(start + timeOut) && w.c.configured == None && w.now == start
  }

  /** An alarm that is due is delivered, with the start-up patience `timeOut`. */
  function Patient(w: World, timeOut: nat): World {
    if Due(w) then Next(w, Alarm(0, timeOut)) else w
  }

  function Waiting(w: World, timeOut: nat, d: nat): World {
    if d == 0 then Patient(w, timeOut) else Patient(Next(Waiting(w, timeOut, d - 1), Tick), timeOut)
  }

  /** Without any server the client asks for its cached address for one patience, looks for an offer for another, and ends. */
  lemma {:induction false} StartupGivesUp(w: World, timeOut: nat, d: nat)
    requires timeOut > 0 && Started(w, timeOut, w.now)
    ensures var s := Waiting(w, timeOut, d);
            && s.now == w.now + d && s.c.configured == None
            && s.c.state == (if d < timeOut then Reboot else if d < 2 * timeOut then Discover else Gone)
            && s.c.alarm == if d < timeOut then Some(w.now + timeOut) else if d < 2 * timeOut then Some(w.now + 2 * timeOut) else None
  {
    if d > 0 {
      StartupGivesUp(w, timeOut, d - 1);
    }
  }

  // ----- a silent server -----

  /** An alarm that is due is delivered. */
  function Delivered(w: World): World {
    if Due(w) then Next(w, Alarm(0, 0)) else w
  }

  /** `d` seconds without a message. */
  function Silent(w: World, d: nat): World {
    if d == 0 then Delivered(w) else Delivered(Next(Silent(w, d - 1), Tick))
  }

  /** The client still has its address after `d` silent seconds. */
  predicate HoldsAt(w: World, d: nat) {
    Silent(w, d).c.HoldsLease()
  }

  /** When an alarm armed at `at` for `deadline` goes off; `at` itself when the deadline has passed. */
  function ArmedUntil(deadline: int, at: int): int {
    var i := ToInt32(deadline - at);
    if i > 0 then at + i else at
  }

  /** When a client that holds its address, left alone, stops renewing. */
  function RenewEnd(c: Client): int
    requires c.HoldsLease() && c.alarm.Some?
  {
    if c.state == Bound then ArmedUntil(c.reqSentTime + c.timers.t2, c.alarm.value) else c.alarm.value
  }

  /** When it gives its address up. */
  function GivesUp(c: Client): int
    requires c.HoldsLease() && c.alarm.Some?
  {
    if c.state == Rebind then c.alarm.value else ArmedUntil(c.reqSentTime + c.timers.lease, RenewEnd(c))
  }

  function PhaseAt(c: Client, t: int): State
    requires c.HoldsLease() && c.alarm.Some?
  {
    if c.state == Bound && t < c.alarm.value then Bound
    else if c.state != Rebind && t < RenewEnd(c) then Renew
    else Rebind
  }

  /** At `t` a client that was `c` and has heard nothing since. */
  predicate OnCourse(s: World, c: Client, t: int)
    requires c.HoldsLease() && c.alarm.Some?
  {
    && s.now == t
    && (s.c.HoldsLease() <==> t < GivesUp(c))
    && (s.c.HoldsLease() ==>
          && s.c.state == PhaseAt(c, t)
          && s.c.timers == c.timers && s.c.reqSentTime == c.reqSentTime && s.c.configured == c.configured
          && s.c.alarm == Some(match PhaseAt(c, t) case Bound => c.alarm.value case Renew => RenewEnd(c) case _ => GivesUp(c)))
    && (!s.c.HoldsLease() ==> s.c.configured == None)
  }

  /** A due alarm moves the client to the phase its deadlines say. */
  lemma DeliveredOnCourse(w: World)
    requires w.c.HoldsLease() && w.c.alarm.Some? && w.now <= w.c.alarm.value
    ensures OnCourse(Delivered(w), w.c, w.now)
  {
  }

  lemma SecondOnCourse(s: World, c: Client, t: int)
    requires c.HoldsLease() && c.alarm.Some? && OnCourse(s, c, t)
    ensures OnCourse(Delivered(Next(s, Tick)), c, t + 1)
  {
    var s1 := Next(s, Tick);
    if s.c.HoldsLease() {
      DeliveredOnCourse(s1);
    }
  }

  /** Left alone, a client runs through its phases and gives up at the instant its alarms lead to. */
  lemma {:induction false} SilentCourse(w: World, d: nat)
    requires w.c.HoldsLease() && w.c.alarm.Some? && w.now <= w.c.alarm.value
    ensures OnCourse(Silent(w, d), w.c, w.now + d)
  {
    if d == 0 {
      DeliveredOnCourse(w);
    } else {
      SilentCourse(w, d - 1);
      hide OnCourse, Delivered;
      SecondOnCourse(Silent(w, d - 1), w.c, w.now + d - 1);
    }
  }

  lemma {:induction false} LostStaysLost(w: World, d: nat)
    requires !w.c.HoldsLease() && w.c.configured == None
    ensures !HoldsAt(w, d) && Silent(w, d).c.configured == None
  {
    if d > 0 {
      LostStaysLost(w, d - 1);
    }
  }

  /** A client that has just been acknowledged, whatever its timers. */
  predicate JustBound(w: World, c: Client) {
    c.reqSentTime == w.now && w.c == EnterBound(c, w.now, 0)
  }

  /** The three instants are what the alarms, armed one after the other, lead to. */
  lemma ArmedCourse(start: int, t: Timers)
    ensures ArmedUntil(start + t.t1, start) == start + RenewsAt(t)
    ensures ArmedUntil(start + t.t2, start + RenewsAt(t)) == start + RebindsAt(t)
    ensures ArmedUntil(start + t.lease, start + RebindsAt(t)) == start + StopsAt(t)
    ensures RenewsAt(t) <= RebindsAt(t) <= StopsAt(t)
  {
  }

  /** Where the state machine enters after an acknowledgement, and when it is left for good. */
  lemma BoundCourse(w: World, c: Client)
    requires JustBound(w, c)
    ensures w.c.HoldsLease() <==> StopsAt(c.timers) > 0
    ensures !w.c.HoldsLease() ==> w.c.configured == None && (!c.daemon ==> w.c.alarm == None)
    ensures w.c.HoldsLease() ==> w.c.configured == c.configured
    ensures w.c.HoldsLease() ==>
              && w.c.alarm.Some? && w.now < w.c.alarm.value && w.c.timers == c.timers && w.c.reqSentTime == w.now
              && GivesUp(w.c) == w.now + StopsAt(c.timers)
    ensures w.c.HoldsLease() && w.c.state == Bound ==>
              w.c.alarm.value == w.now + RenewsAt(c.timers) && RenewEnd(w.c) == w.now + RebindsAt(c.timers)
    ensures w.c.HoldsLease() && w.c.state == Renew ==>
              RenewsAt(c.timers) == 0 && RenewEnd(w.c) == w.now + RebindsAt(c.timers)
    ensures w.c.HoldsLease() && w.c.state == Rebind ==> RebindsAt(c.timers) == 0
  {
    ArmedCourse(w.now, c.timers);
    hide ToInt32, RenewsAt, RebindsAt, StopsAt;
  }

  /** The three instants are T1, T2 and the end of the lease whenever those are in order and fit the alarm. */
  lemma CourseInOrder(t: Timers)
    requires t.t1 <= t.t2 <= t.lease < 0x8000_0000
    ensures RenewsAt(t) == t.t1 && RebindsAt(t) == t.t2 && StopsAt(t) == t.lease
  {
  }

  /**
   Without an answer the client leaves Bound, Renew and Rebind exactly at those instants, for all timers, and
   at the last of them the address leaves the interface.
   */
  lemma SilentTimeline(w: World, c: Client, d: nat)
    requires JustBound(w, c)
    ensures HoldsAt(w, d) <==> d < StopsAt(c.timers)
    ensures Silent(w, d).c.configured == if d < StopsAt(c.timers) then c.configured else None
    ensures HoldsAt(w, d) ==>
              Silent(w, d).c.state == (if d < RenewsAt(c.timers) then Bound else if d < RebindsAt(c.timers) then Renew else Rebind)
  {
    BoundCourse(w, c);
    ArmedCourse(w.now, c.timers);
    if w.c.HoldsLease() {
      SilentCourse(w, d);
    } else {
      LostStaysLost(w, d);
    }
  }

  /** The interface still has an address after `d` silent seconds. */
  predicate ConfiguredAt(w: World, d: nat) {
    Silent(w, d).c.configured.Some?
  }

  /** Left alone, the client gives its address up, on the interface too, in time exactly when its timers are sound. */
  lemma SilentSafe(w: World, c: Client)
    requires JustBound(w, c)
    ensures (forall d: nat :: HoldsAt(w, d) ==> d < c.timers.lease) <==> Sound(c.timers)
    ensures c.configured.Some? ==> ((forall d: nat :: ConfiguredAt(w, d) ==> d < c.timers.lease) <==> Sound(c.timers))
  {
    forall d: nat
      ensures HoldsAt(w, d) <==> d < StopsAt(c.timers)
      ensures ConfiguredAt(w, d) <==> c.configured.Some? && d < StopsAt(c.timers)
    {
      SilentTimeline(w, c, d);
    }
    assert HoldsAt(w, c.timers.lease) <==> c.timers.lease < StopsAt(c.timers);
    assert ConfiguredAt(w, c.timers.lease) <==> c.configured.Some? && c.timers.lease < StopsAt(c.timers);
  }

  /** The world after a reply, then silence. */
  function Replied(w: World, r: Reply, rnd: u32): World {
    Next(w, Incoming(r, rnd, false, false))
  }

  /** The interface still has its address although the lease granted is over. */
  predicate Overstays(w: World, r: Reply, rnd: u32, d: nat) {
    ConfiguredAt(Replied(w, r, rnd), d) && w.now + d >= w.c.reqSentTime + w.lease
  }

  /** A reply to a renewal that acknowledges nothing: when the client then gives its address up. */
  lemma ReplyCourse(w: World, r: Reply, rnd: u32, d: nat)
    requires Safe(w) && w.c.state == Renew && Answers(w.c, r) && !Acknowledges(w.c, r)
    ensures var at := w.c.reqSentTime + ReadAt(w, r);
            && (HoldsAt(Replied(w, r, rnd), d) <==> w.now + d < ArmedUntil(w.c.reqSentTime + r.timers.lease, at))
            && (ConfiguredAt(Replied(w, r, rnd), d) <==> w.now + d < ArmedUntil(w.c.reqSentTime + r.timers.lease, at))
  {
    var w1 := Replied(w, r, rnd);
    if w1.c.HoldsLease() {
      SilentCourse(w1, d);
    } else {
      LostStaysLost(w1, d);
    }
  }

  /**
   Any reply to a renewal that acknowledges nothing, a refusal or not, replaces the lease in the table;
   it makes the client overstay the lease granted exactly when the new one outlasts that.
   */
  lemma ReplyOverstays(w: World, r: Reply, rnd: u32)
    requires Safe(w) && w.c.state == Renew && Answers(w.c, r) && !Acknowledges(w.c, r)
    ensures (exists d: nat :: Overstays(w, r, rnd, d)) <==> Outlasts(r.timers.lease, w.lease, ReadAt(w, r))
  {
    var at := w.c.reqSentTime + ReadAt(w, r);
    var until := ArmedUntil(w.c.reqSentTime + r.timers.lease, at);
    forall d: nat
      ensures ConfiguredAt(Replied(w, r, rnd), d) <==> w.now + d < until
    {
      ReplyCourse(w, r, rnd, d);
    }
    assert Overstays(w, r, rnd, w.c.reqSentTime + w.lease - w.now) <==> w.c.reqSentTime + w.lease < until;
    ArmedPast(r.timers.lease, w.lease, ReadAt(w, r), w.c.reqSentTime);
  }

  lemma ArmedPast(stored: u32, granted: u32, e: int, start: int)
    requires 0 <= e <= granted
    ensures ArmedUntil(start + stored, start + e) > start + granted <==> Outlasts(stored, granted, e)
  {
  }
}
