/** The client's globals and state functions, against the state machine of module Lease. */
module DhcpClient {
  import opened Bytes
  import opened DhcpOptions
  import opened OT = OptionTable
  import opened Lease

  class DhcpClient {
    const options: OT.OptionTable
    const ownLease: u32
    var currState: State
    var daemon: bool
    var alarm: Option<int>
    var reqSentTime: int
    var ciaddr: u32
    var configured: Option<u32>
    var xid: u32

    /** The timers a state function reads are there whenever it can run. */
    ghost predicate Valid()
      reads this, options, options.len, options.val
    {
      && options.Valid()
      && (currState == Bound || currState == Renew || currState == Rebind ==> options.Settled())
      && (options.At(SERVER_IDENTIFIER).val.Some? ==> HoldsAddress(options.At(SERVER_IDENTIFIER)))
      && (options.At(SUBNET_MASK).val.Some? ==> HoldsAddress(options.At(SUBNET_MASK)))
    }

    ghost function Value(): Client
      requires Valid()
      reads this, options, options.len, options.val
    {
      Client(currState, daemon, alarm, reqSentTime, options.Stored(), ciaddr, configured, xid)
    }

    constructor (ciaddr: u32, xid: u32, timeOut: nat, now: int, ownLease: u32)
      ensures Valid() && fresh(options.len) && fresh(options.val)
      ensures Value() == Client(Reboot, false, Some(now + timeOut), 0, NO_TIMERS, ciaddr, None, xid)
      ensures this.ownLease == ownLease
    {
      options := new OT.OptionTable();
      this.ownLease := ownLease;
      currState, daemon, alarm, reqSentTime := Reboot, false, Some(now + timeOut), 0;
      this.ciaddr, configured, this.xid := ciaddr, None, xid;
    }

    /** Arms the alarm and waits, or moves straight on to `next`. */
    method ArmOrMove(deadline: int, now: int, next: State) returns (waits: bool)
      modifies `alarm, `currState
      ensures waits == (ToInt32(deadline - now) > 0)
      ensures waits ==> alarm == Some(now + ToInt32(deadline - now)) && currState == old(currState)
      ensures !waits ==> alarm == old(alarm) && currState == next
    {
      var i := ToInt32(deadline - now);
      waits := i > 0;
      if waits {
        alarm := Some(now + i);
      } else {
        currState := next;
      }
    }

    method DhcpInit(rnd: u32)
      requires Valid()
      modifies this, options.len, options.val
      ensures Valid() && Value() == EnterInit(old(Value()), rnd) && options.Empty() && currState == Discover
    {
      options.Release();
      currState := Discover;
      xid := rnd;
    }

    method DhcpStop(rnd: u32)
      requires Valid()
      modifies this, options.len, options.val
      ensures Valid() && Value() == EnterStop(old(Value()), rnd) && options.Empty() && currState == Discover
    {
      configured := None;
      DhcpInit(rnd);
    }

    /** Reads the deadline of the current state from the stored options, and arms the alarm or moves on. */
    method RunState(now: int, rnd: u32) returns (waits: bool)
      requires Valid() && (currState == Bound || currState == Renew || currState == Rebind)
      modifies `alarm, `currState, `xid
      ensures Valid() && Value() == Stepped(old(Value()), now, rnd).0 && waits == Stepped(old(Value()), now, rnd).1
      ensures currState == Bound || currState == Renew || currState == Rebind || currState == Gone
    {
      hide ToInt32, Number;
      if currState == Bound {
        var t1 := options.ReadNumber(T1_VALUE);
        waits := ArmOrMove(reqSentTime + t1, now, Renew);
      } else if currState == Renew {
        var t2 := options.ReadNumber(T2_VALUE);
        waits := ArmOrMove(reqSentTime + t2, now, Rebind);
        xid := if waits then rnd else xid;
      } else {
        var lease := options.ReadNumber(IP_ADDRESS_LEASE_TIME);
        waits := ArmOrMove(reqSentTime + lease, now, Gone);
        xid := if waits then rnd else xid;
      }
    }

    /** The main loop of the detached process: runs state functions until one of them waits. `Gone` stands for the stop function. */
    method RunStates(now: int, rnd: u32)
      requires Valid() && (currState == Bound || currState == Renew || currState == Rebind) && (currState == Bound ==> daemon)
      modifies this, options.len, options.val
      ensures Valid() && Value() == EnterFrom(old(Value()), now, rnd)
      ensures if currState == Discover then options.Empty() else options.Slots() == old(options.Slots())
    {
      hide EnterFrom, Stepped, EnterStop, OT.OptionTable.Empty, OT.OptionTable.Slots;
      ghost var c := Value();
      var waits := false;
      ghost var stopped := false;
      while !waits
        invariant Valid()
        invariant !waits ==> currState == Bound || currState == Renew || currState == Rebind || currState == Gone
        invariant !waits && currState == Bound ==> daemon
        invariant if waits then Value() == EnterFrom(c, now, rnd) else EnterFrom(Value(), now, rnd) == EnterFrom(c, now, rnd)
        invariant stopped ==> waits && currState == Discover && options.Empty()
        invariant !stopped ==> options.Slots() == old(options.Slots()) && currState != Discover
        decreases !waits, match currState case Bound => 3 case Renew => 2 case Rebind => 1 case _ => 0
      {
        SteppedFrom(Value(), now, rnd);
        if currState == Gone {
          DhcpStop(rnd);
          waits, stopped := true, true;
        } else {
          waits := RunState(now, rnd);
        }
      }
    }

    /** Detaches the process at the first binding, which cancels the start-up alarm, and runs on. */
    method MainLoop(now: int, rnd: u32)
      requires Valid() && (currState == Bound || currState == Renew || currState == Rebind)
      modifies this, options.len, options.val
      ensures Valid() && Value() == EnterFrom(old(Value()), now, rnd)
      ensures if currState == Discover then options.Empty() else options.Slots() == old(options.Slots())
    {
      hide EnterFrom, OT.OptionTable.Empty, OT.OptionTable.Slots;
      DetachedSame(Value(), now, rnd);
      if currState == Bound && !daemon {
        daemon, alarm := true, None;
      }
      RunStates(now, rnd);
    }

    /** What follows an acknowledgement, once it is in the table. */
    method Acknowledged(now: int, rnd: u32, inUse: bool, configFails: bool)
      requires Valid() && options.Settled() && currState != Discover && currState != Bound && currState != Gone
      modifies this, options.len, options.val
      ensures Valid()
      ensures var c := old(Value()).(reqSentTime := now);
              Value() == if c.state == Renew || c.state == Rebind then EnterBound(c, now, rnd)
                         else if inUse then EnterInit(c.(ciaddr := 0), rnd)
                         else if configFails then c.(state := Gone, configured := None)
                         else EnterBound(c.(configured := Some(c.ciaddr)), now, rnd)
      ensures if currState == Discover then options.Empty() else options.Slots() == old(options.Slots())
    {
      hide EnterBound, EnterInit, OT.OptionTable.Empty, OT.OptionTable.Slots;
      reqSentTime := now;
      if currState == Renew || currState == Rebind {
        EnterBoundFromAny(Value(), now, rnd);
        currState := Bound;
        MainLoop(now, rnd);
      } else if inUse {
        ciaddr := 0;
        DhcpInit(rnd);
      } else if configFails {
        currState, configured := Gone, None;
      } else {
        configured := Some(ciaddr);
        EnterBoundFromAny(Value(), now, rnd);
        currState := Bound;
        MainLoop(now, rnd);
      }
    }

    /** What follows a refusal, once it is in the table. */
    method Refused(now: int, rnd: u32)
      requires Valid() && options.Settled() && currState != Discover && currState != Bound && currState != Gone
      modifies this, options.len, options.val
      ensures Valid()
      ensures var c := old(Value());
              Value() == if c.state == Renew then EnterRebind(c, now, rnd)
                         else if c.state == Rebind then EnterStop(c, rnd)
                         else EnterInit(c, rnd)
      ensures if currState == Discover then options.Empty() else options.Slots() == old(options.Slots())
    {
      hide EnterRebind;
      if currState == Renew {
        EnterRebindFromAny(Value(), now, rnd);
        currState := Rebind;
        MainLoop(now, rnd);
      } else if currState == Rebind {
        DhcpStop(rnd);
      } else {
        DhcpInit(rnd);
      }
    }

    /**
     The reply loop: filter on the header, parse the options into the table, then act on the type. A message
     that passes the filter has a well-formed option area with a type and whole addresses.
     */
    method DhcpReceive(h: Header, area: array<byte>, sender: Nid32, now: int, rnd: u32, inUse: bool, configFails: bool, ghost opts: seq<Opt>)
      requires Valid() && area.Length == OPTIONS_SIZE
      requires Answers(Value(), ReplyOf(h, opts, options.Stored().lease, ownLease)) ==>
                 && Decode(area[..], 4) == Some(opts) && LastValue(opts, MESSAGE_TYPE).Some?
                 && options.WholeAddress(opts, SERVER_IDENTIFIER) && options.WholeAddress(opts, SUBNET_MASK)
      modifies this, options.len, options.val
      ensures Valid()
      ensures Value() == Receive(old(Value()), ReplyOf(h, opts, old(options.Stored()).lease, ownLease), now, rnd, inUse, configFails)
      ensures var answers := Answers(old(Value()), ReplyOf(h, opts, old(options.Stored()).lease, ownLease));
              if !answers then options.Slots() == old(options.Slots())
              else if currState == Discover && old(currState) != Discover then options.Empty()
              else forall c: byte | c !in TIMERS && c !in DEFAULTED :: Updated(old(options.At(c)), options.At(c), LastValue(opts, c))
    {
      hide EnterBound, EnterRebind, EnterStop, EnterInit, Decode, LastValue, ParsedTimers, Filled, Updated, Number;
      if currState == Bound || currState == Gone || h.xid != xid || (h.htype != ARPHRD_ETHER && h.htype != ARPHRD_IEEE802_TR)
         || h.op != DHCP_BOOTREPLY {
        return;
      }
      var msgType := options.ParseDhcpMsgRecv(area, sender, h.yiaddr, ownLease, opts);
      Dispatch(msgType, h.yiaddr, now, rnd, inUse, configFails);
    }

    /** Acts on the type of a message that is in the table. */
    method Dispatch(msgType: byte, yiaddr: u32, now: int, rnd: u32, inUse: bool, configFails: bool)
      requires Valid() && options.Settled() && currState != Bound && currState != Gone
      modifies this, options.len, options.val
      ensures Valid()
      ensures var c := old(Value());
              Value() == Receive(c, Reply(DHCP_BOOTREPLY, ARPHRD_ETHER, c.xid, msgType, c.timers, yiaddr), now, rnd, inUse, configFails)
      ensures if currState == Discover && old(currState) != Discover then options.Empty() else options.Slots() == old(options.Slots())
    {
      hide EnterBound, EnterRebind, EnterStop, EnterInit;
      var expected := if currState == Discover then DHCP_OFFER else DHCP_ACK;
      if msgType == expected {
        if currState == Discover {
          currState, ciaddr := Request, yiaddr;
        } else {
          Acknowledged(now, rnd, inUse, configFails);
        }
      } else if msgType == DHCP_NAK {
        if currState == Discover {
          currState, configured := Gone, None;
        } else {
          Refused(now, rnd);
        }
      }
    }

    /** The alarm branch of the signal handler. */
    method SigHandler(now: int, rnd: u32, timeOut: nat)
      requires Valid()
      modifies this, options.len, options.val
      ensures Valid() && Value() == SigAlarm(old(Value()), now, rnd, timeOut)
      ensures if currState == Discover && old(currState) != Discover then options.Empty() else options.Slots() == old(options.Slots())
    {
      hide EnterRebind, EnterRenew, EnterStop, EnterInit, EnterBound, OT.OptionTable.Empty, OT.OptionTable.Slots, OT.OptionTable.Stored;
      alarm := None;
      match currState
      case Bound =>
        EnterRenewFromAny(Value(), now, rnd);
        currState := Renew;
        MainLoop(now, rnd);
      case Renew =>
        EnterRebindFromAny(Value(), now, rnd);
        currState := Rebind;
        MainLoop(now, rnd);
      case Rebind =>
        DhcpStop(rnd);
      case Reboot =>
        alarm := Some(now + timeOut);
        DhcpInit(rnd);
      case _ =>
        currState, configured := Gone, None;
    }
  }

  lemma EnterBoundFromAny(c: Client, now: int, rnd: u32)
    ensures EnterBound(c.(state := Bound), now, rnd) == EnterBound(c, now, rnd)
  {
  }

  lemma EnterRenewFromAny(c: Client, now: int, rnd: u32)
    ensures EnterRenew(c.(state := Renew), now, rnd) == EnterRenew(c, now, rnd)
  {
  }

  lemma EnterRebindFromAny(c: Client, now: int, rnd: u32)
    ensures EnterRebind(c.(state := Rebind), now, rnd) == EnterRebind(c, now, rnd)
  {
  }

  /** One state function: the client after it, and whether it waits. */
  function Stepped(c: Client, now: int, rnd: u32): (Client, bool) {
    var deadline := c.reqSentTime + if c.state == Bound then c.timers.t1 else if c.state == Renew then c.timers.t2 else c.timers.lease;
    var i := ToInt32(deadline - now);
    if i > 0 then (c.(alarm := Some(now + i), xid := if c.state == Bound then c.xid else rnd), true)
    else (c.(state := Follows(c.state)), false)
  }

  /** Where the main loop ends up. */
  ghost function EnterFrom(c: Client, now: int, rnd: u32): Client {
    match c.state
    case Bound => EnterBound(c, now, rnd)
    case Renew => EnterRenew(c, now, rnd)
    case Rebind => EnterRebind(c, now, rnd)
    case _ => EnterStop(c, rnd)
  }

  lemma DetachedSame(c: Client, now: int, rnd: u32)
    ensures c.state == Bound && !c.daemon ==> EnterFrom(c.(daemon := true, alarm := None), now, rnd) == EnterFrom(c, now, rnd)
  {
  }

  /** One state function leaves the end of the loop as it was, and is that end if it waits. */
  lemma SteppedFrom(c: Client, now: int, rnd: u32)
    requires c.HoldsLease() || c.state == Gone
    requires c.state == Bound ==> c.daemon
    ensures c.state == Gone ==> EnterFrom(c, now, rnd) == EnterStop(c, rnd)
    ensures c.state != Gone ==>
              var (next, waits) := Stepped(c, now, rnd);
              && (waits ==> next == EnterFrom(c, now, rnd) && next.HoldsLease())
              && (!waits ==> EnterFrom(next, now, rnd) == EnterFrom(c, now, rnd) && next.state == Follows(c.state))
  {
  }

  function Follows(s: State): State {
    if s == Bound then Renew else if s == Renew then Rebind else Gone
  }
}
