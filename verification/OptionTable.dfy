/** The client's table of received options and the in-place loop that fills it from a message. */
module OptionTable {
  import opened Bytes
  import opened Bits
  import opened DhcpOptions
  import opened GenMask

  // ----- what a message says about one option -----

  /** The last non-empty value of option `c` among `opts`. */
  function LastValue(opts: seq<Opt>, c: byte): (r: Option<seq<byte>>)
    ensures r.Some? ==> r.value != []
  {
    if opts == [] then None
    else
      var later := LastValue(opts[1..], c);
      if later.Some? then later
      else if opts[0].code == c && opts[0].value != [] then Some(opts[0].value)
      else None
  }

  /** The last non-empty value: some option has it, and no later one of that code has any. */
  lemma LastValueMeans(opts: seq<Opt>, c: byte)
    ensures var v := LastValue(opts, c);
            && (v.Some? ==> exists i :: 0 <= i < |opts| && EndsOn(opts, c, i) && opts[i].value == v.value)
            && (v.None? ==> forall i | 0 <= i < |opts| :: opts[i].code == c ==> opts[i].value == [])
  {
    if opts != [] {
      LastValueMeans(opts[1..], c);
      if LastValue(opts[1..], c).Some? {
        var i :| 0 <= i < |opts[1..]| && EndsOn(opts[1..], c, i) && opts[1..][i].value == LastValue(opts[1..], c).value;
        assert EndsOn(opts, c, i + 1) && opts[i + 1].value == opts[1..][i].value;
      } else if LastValue(opts, c).Some? {
        assert EndsOn(opts, c, 0);
      }
    }
  }

  predicate EndsOn(opts: seq<Opt>, c: byte, i: nat)
    requires i < |opts|
  {
    && opts[i].code == c && opts[i].value != []
    && forall j | i < j < |opts| && opts[j].code == c :: opts[j].value == []
  }

  /** A stored option: its length and the buffer allocated for it, if any. */
  datatype Slot = Slot(len: byte, val: Option<seq<byte>>) {
    /** A non-zero length comes with a buffer of at least that size, and only that. */
    predicate Sane() {
      (len > 0 <==> val.Some?) && (val.Some? ==> |val.value| >= len)
    }

    /** The option's value, for one that has been stored. */
    function Value(): seq<byte>
      requires Sane() && len > 0
    {
      val.value[..len]
    }
  }

  /** A buffer of the same size whose first `len` bytes are zero. */
  function Zeroed(s: Slot): Slot
    requires s.Sane()
  {
    if s.val.Some? && s.len > 0 then s.(val := Some(seq(s.len, _ => 0) + s.val.value[s.len..])) else s
  }

  /** `after` is what `before` becomes when the message ends on `v` for this option. */
  ghost predicate Updated(before: Slot, after: Slot, v: Option<seq<byte>>) {
    && after.Sane()
    && (v.None? ==> after == before)
    && (v.Some? ==> after.len > 0 && after.Value() == v.value)
  }

  lemma LastValueShort(opts: seq<Opt>, c: byte)
    requires AllWellFormed(opts)
    ensures LastValue(opts, c).Some? ==> 0 < |LastValue(opts, c).value| <= 255
  {
    if opts != [] {
      LastValueShort(opts[1..], c);
      assert opts[0].WellFormed();
    }
  }

  // ----- the timers -----

  const TIMERS: set<byte> := {IP_ADDRESS_LEASE_TIME, T1_VALUE, T2_VALUE}

  /** A slot read as a four-byte number; 0 for any other length. */
  function Number(s: Slot): u32
    requires s.Sane()
  {
    if s.len == 4 then FromBe32(s.Value()) else 0
  }

  /** The number a message sends under `c`; 0 when it sends none. */
  function Sent(opts: seq<Opt>, c: byte): u32 {
    var v := LastValue(opts, c);
    if v.Some? && |v.value| == 4 then FromBe32(v.value) else 0
  }

  function NonZeroOr(x: u32, y: u32): u32 {
    if x == 0 then y else x
  }

  lemma NumberZeroed(s: Slot)
    requires s.Sane()
    ensures Zeroed(s).Sane() && Number(Zeroed(s)) == 0
  {
    if s.len == 4 {
      assert Zeroed(s).Value() == [0, 0, 0, 0];
    }
  }

  lemma NumberUpdated(before: Slot, after: Slot, opts: seq<Opt>, c: byte)
    requires before.Sane() && Updated(before, after, LastValue(opts, c))
    ensures Number(after) == if LastValue(opts, c).Some? then Sent(opts, c) else Number(before)
  {
  }

  /** What the client runs on: a zero or missing lease means its own, a zero timer a share of the lease. */
  datatype Timers = Timers(lease: u32, t1: u32, t2: u32)

  function Settle(lease: u32, t1: u32, t2: u32, ownLease: u32): Timers {
    var l := if lease == 0 then ownLease else lease;
    Timers(l, if t1 == 0 then l / 2 else t1, if t2 == 0 then 7 * l / 8 else t2)
  }

  /** With both timers omitted or zero, whatever the lease, renewal precedes rebinding precedes expiry. */
  lemma SettledInOrder(lease: u32, ownLease: u32)
    ensures var t := Settle(lease, 0, 0, ownLease); t.t1 <= t.t2 <= t.lease
  {
  }

  /** Exactly which leases keep the order when the server sets one of the two timers only. */
  lemma OneTimerInOrder(lease: u32, t: u32, ownLease: u32)
    requires lease > 0 && t > 0
    ensures var s := Settle(lease, t, 0, ownLease); s.t1 <= s.t2 <= s.lease <==> 8 * t <= 7 * lease
    ensures var s := Settle(lease, 0, t, ownLease); s.t1 <= s.t2 <= s.lease <==> lease <= 2 * t + 1 && t <= lease
  {
  }

  /** The timers in force after a message, given the lease that was stored before it. */
  function ParsedTimers(opts: seq<Opt>, stored: u32, ownLease: u32): Timers {
    Settle(if LastValue(opts, IP_ADDRESS_LEASE_TIME).Some? then Sent(opts, IP_ADDRESS_LEASE_TIME) else stored,
           Sent(opts, T1_VALUE), Sent(opts, T2_VALUE), ownLease)
  }

  /** What the three timers come from, by option code: 51 lease, 58 T1, 59 T2, four bytes each, most significant first. */
  lemma TimersInForce(opts: seq<Opt>, stored: u32, ownLease: u32)
    ensures var t := ParsedTimers(opts, stored, ownLease);
            && (LastValue(opts, 51).None? ==> t.lease == if stored > 0 then stored else ownLease)
            && (forall x: u32 | LastValue(opts, 51) == Some(Be32(x)) :: t.lease == if x > 0 then x else ownLease)
            && (LastValue(opts, 51).Some? && |LastValue(opts, 51).value| != 4 ==> t.lease == ownLease)
            && (LastValue(opts, 58).None? || |LastValue(opts, 58).value| != 4 ==> t.t1 == t.lease / 2)
            && (forall x: u32 | LastValue(opts, 58) == Some(Be32(x)) && x > 0 :: t.t1 == x)
            && (LastValue(opts, 59).None? || |LastValue(opts, 59).value| != 4 ==> t.t2 == 7 * t.lease / 8)
            && (forall x: u32 | LastValue(opts, 59) == Some(Be32(x)) && x > 0 :: t.t2 == x)
  {
    forall x: u32
      ensures FromBe32(Be32(x)) == x && |Be32(x)| == 4
    {
      Be32RoundTrip(x);
    }
    hide LastValue, Be32, FromBe32;
  }

  // ----- the other defaults -----

  const DEFAULTED: set<byte> := {SERVER_IDENTIFIER, DNS, SUBNET_MASK, BROADCAST_ADDRESS}

  /** The natural mask of an address's class; a host route outside classes A, B and C. */
  function ClassMask(address: u32): Nid32 {
    if address < 0x8000_0000 then [255, 0, 0, 0]
    else if address < 0xc000_0000 then [255, 255, 0, 0]
    else if address < 0xe000_0000 then [255, 255, 255, 0]
    else [255, 255, 255, 255]
  }

  /** A byte of an address with its host bits set: the complement of the mask's bits that the address lacks. */
  function HostBits(a: byte, m: byte): byte {
    255 - BitAnd(m, 255 - a)
  }

  function Broadcast(a: Nid32, m: Nid32): Nid32 {
    [HostBits(a[0], m[0]), HostBits(a[1], m[1]), HostBits(a[2], m[2]), HostBits(a[3], m[3])]
  }

  lemma HostBitsOfMask(a: byte)
    ensures HostBits(a, 255) == a && HostBits(a, 0) == 255
  {
    hide BitAnd, Pow2;
    Pow2Values();
    LowOnes(8, 255 - a);
  }

  /** For every mask: a bit of the broadcast address is the address's where the mask has it, and set elsewhere. */
  lemma HostBitsByBit(a: byte, m: byte, i: nat)
    requires i < 8
    ensures Bit(HostBits(a, m), i) == if Bit(m, i) == 1 then Bit(a, i) else 1
  {
    Pow2Values();
    BitOfComplement(8, a, i);
    BitOfAnd(m, 255 - a, i);
    BitOfComplement(8, BitAnd(m, 255 - a), i);
  }

  /** The classes of RFC 791 by the first octet of an address, and that both the guess of a mask and the default follow them. */
  lemma ClassByOctet(address: u32)
    ensures var first := Be32(address)[0];
            && (first < 128 ==> ClassMask(address) == [255, 0, 0, 0] && HostWidth(address) == 24)
            && (128 <= first < 192 ==> ClassMask(address) == [255, 255, 0, 0] && HostWidth(address) == 16)
            && (192 <= first < 224 ==> ClassMask(address) == [255, 255, 255, 0] && HostWidth(address) == 8)
            && (224 <= first ==> ClassMask(address) == [255, 255, 255, 255] && HostWidth(address) == 0)
    ensures FromBe32(ClassMask(address)) == 0x1_0000_0000 - Pow2(HostWidth(address))
  {
    Pow2Values();
    assert Pow2(0) == 1;
  }

  /** With the natural mask the broadcast address keeps the network bytes and sets all others. */
  lemma NaturalBroadcast(a: Nid32, address: u32)
    ensures var b, m := Broadcast(a, ClassMask(address)), ClassMask(address);
            forall i | 0 <= i < 4 :: b[i] == if m[i] == 255 then a[i] else 255
  {
    hide HostBits;
    forall i | 0 <= i < 4
      ensures HostBits(a[i], 255) == a[i] && HostBits(a[i], 0) == 255
    {
      HostBitsOfMask(a[i]);
    }
  }

  /** A slot left empty takes the default. */
  function OrDefault(s: Slot, v: Nid32): Slot {
    if s.val.None? then Slot(4, Some(v)) else s
  }

  /** `after` is what `before` becomes when the message ends on `v`, with default `d` for a slot still empty. */
  ghost predicate Filled(before: Slot, after: Slot, v: Option<seq<byte>>, d: Nid32) {
    && after.Sane()
    && (v.Some? ==> after.len > 0 && after.Value() == v.value)
    && (v.None? && before.val.Some? ==> after == before)
    && (v.None? && before.val.None? ==> after == Slot(4, Some(d)))
  }

  lemma FilledBy(before: Slot, parsed: Slot, after: Slot, v: Option<seq<byte>>, d: Nid32)
    requires Updated(before, parsed, v) && after == OrDefault(parsed, d)
    ensures Filled(before, after, v, d)
  {
  }

  /** An address kept in a slot: its first four bytes. */
  predicate HoldsAddress(s: Slot) {
    s.val.Some? && |s.val.value| >= 4
  }

  class OptionTable {
    const len: array<byte>
    const val: array<Option<seq<byte>>>

    ghost predicate Valid()
      reads this, len, val
    {
      && len.Length == 256 && val.Length == 256
      && forall c: byte :: At(c).Sane()
    }

    ghost function At(c: byte): Slot
      requires len.Length == 256 && val.Length == 256
      reads this, len, val
    {
      Slot(len[c], val[c])
    }

    constructor ()
      ensures Valid() && fresh(len) && fresh(val)
      ensures forall c: byte :: At(c) == Slot(0, None)
    {
      len := new byte[256](_ => 0);
      val := new Option<seq<byte>>[256](_ => None);
    }

    /** Clears a timer's bytes before a message is read. */
    method ZeroTimer(c: byte)
      requires Valid()
      modifies val
      ensures Valid() && At(c) == Zeroed(old(At(c)))
      ensures forall d: byte | d != c :: At(d) == old(At(d))
    {
      if val[c].Some? && len[c] > 0 {
        assert At(c).Sane();
        val[c] := Some(seq(len[c], _ => 0) + val[c].value[len[c]..]);
      }
      forall d: byte
        ensures At(d).Sane()
      {
        assert old(At(d)).Sane();
      }
    }

    /** Stores one non-empty value: over the old bytes if the length is the same, else in a new buffer. */
    method StoreOption(c: byte, v: seq<byte>)
      requires Valid() && 0 < |v| <= 255
      modifies len, val
      ensures Valid() && At(c).len == |v| && At(c).Value() == v
      ensures old(At(c)).len != |v| ==> At(c).val.value == v + [0]
      ensures forall d: byte | d != c :: At(d) == old(At(d))
    {
      assert At(c).Sane();
      if len[c] == |v| {
        val[c] := Some(v + val[c].value[|v|..]);
      } else {
        len[c] := |v|;
        val[c] := Some(v + [0]);
      }
      forall d: byte
        ensures At(d).Sane()
      {
        assert old(At(d)).Sane();
      }
    }

    /** The option loop over a well-formed area. */
    method ParseOptions(area: array<byte>, ghost opts: seq<Opt>)
      requires Valid() && area.Length == OPTIONS_SIZE && Decode(area[..], 4) == Some(opts)
      modifies len, val
      ensures Valid()
      ensures forall c: byte :: Updated(old(At(c)), At(c), LastValue(opts, c))
    {
      var p := 4;
      ghost var left := opts;
      while p < area.Length
        invariant Valid() && 4 <= p <= area.Length
        invariant Decode(area[..], p) == Some(left)
        invariant forall c: byte | LastValue(left, c).Some? :: LastValue(left, c) == LastValue(opts, c)
        invariant forall c: byte | LastValue(left, c).None? :: Updated(old(At(c)), At(c), LastValue(opts, c))
      {
        if area[p] == END_OPTION {
          return;
        } else if area[p] == PAD_OPTION {
          p := p + 1;
        } else {
          if area[p + 1] != 0 {
            StoreOption(area[p], area[p + 2..p + 2 + area[p + 1]]);
          }
          p := p + area[p + 1] + 2;
          left := left[1..];
        }
      }
    }

    /** A four-byte number stored under `c` stays if it is not zero; anything else gives way to `share`. */
    method SettleNumber(c: byte, share: u32)
      requires Valid()
      modifies len, val
      ensures Valid() && At(c).len == 4 && FromBe32(At(c).Value()) == NonZeroOr(Number(old(At(c))), share)
      ensures forall d: byte | d != c :: At(d) == old(At(d))
    {
      assert At(c).Sane();
      Be32RoundTrip(share);
      if val[c].Some? && len[c] == 4 {
        if FromBe32(val[c].value[..4]) == 0 {
          val[c] := Some(Be32(share) + val[c].value[4..]);
          assert val[c].value[..4] == Be32(share);
        }
      } else {
        val[c] := Some(Be32(share));
        len[c] := 4;
        assert val[c].value[..4] == Be32(share);
      }
      forall d: byte
        ensures At(d).Sane()
      {
        assert old(At(d)).Sane();
      }
    }

    /** The timers stored; absent ones count as 0. */
    ghost function Stored(): Timers
      requires Valid()
      reads this, len, val
    {
      Timers(Number(At(IP_ADDRESS_LEASE_TIME)), Number(At(T1_VALUE)), Number(At(T2_VALUE)))
    }

    /** All three timers are present with four bytes. */
    ghost predicate Settled()
      requires len.Length == 256 && val.Length == 256
      reads this, len, val
    {
      At(IP_ADDRESS_LEASE_TIME).len == At(T1_VALUE).len == At(T2_VALUE).len == 4
    }

    method ReadNumber(c: byte) returns (n: u32)
      requires Valid() && At(c).len == 4
      ensures n == Number(At(c))
    {
      assert At(c).Sane();
      n := FromBe32(val[c].value[..4]);
    }

    /** No option is stored. */
    ghost predicate Empty()
      requires len.Length == 256 && val.Length == 256
      reads this, len, val
    {
      forall c: byte :: At(c) == Slot(0, None)
    }

    /** The whole table. */
    ghost function Slots(): (s: seq<Slot>)
      requires len.Length == 256 && val.Length == 256
      reads this, len, val
      ensures |s| == 256 && forall c: byte :: s[c] == At(c)
    {
      seq(256, c requires 0 <= c < 256 reads this, len, val => Slot(len[c], val[c]))
    }

    /** Frees every value. */
    method Release()
      requires Valid()
      modifies len, val
      ensures Valid() && Empty()
    {
      forall i | 0 <= i < 256 {
        val[i] := None;
      }
      forall i | 0 <= i < 256 {
        len[i] := 0;
      }
    }

    /** Stores a default where no value has been allocated. */
    method StoreDefault(c: byte, v: Nid32)
      requires Valid()
      modifies len, val
      ensures Valid() && At(c) == OrDefault(old(At(c)), v)
      ensures forall d: byte | d != c :: At(d) == old(At(d))
    {
      if val[c].None? {
        val[c] := Some(v);
        len[c] := 4;
      }
      forall d: byte
        ensures At(d).Sane()
      {
        assert old(At(d)).Sane();
      }
    }

    /** The first four bytes of a stored address. */
    method ReadAddress(c: byte) returns (a: Nid32)
      requires Valid() && HoldsAddress(At(c))
      ensures a == At(c).val.value[..4]
    {
      a := val[c].value[..4];
    }

    /** A server that does not name itself, its name server, mask or broadcast address. */
    method FillDefaults(sender: Nid32, yiaddr: u32)
      requires Valid()
      requires At(SERVER_IDENTIFIER).val.Some? ==> HoldsAddress(At(SERVER_IDENTIFIER))
      requires At(SUBNET_MASK).val.Some? ==> HoldsAddress(At(SUBNET_MASK))
      modifies len, val
      ensures Valid()
      ensures HoldsAddress(At(SERVER_IDENTIFIER)) && HoldsAddress(At(SUBNET_MASK))
      ensures At(SERVER_IDENTIFIER) == OrDefault(old(At(SERVER_IDENTIFIER)), sender)
      ensures At(DNS) == OrDefault(old(At(DNS)), At(SERVER_IDENTIFIER).val.value[..4])
      ensures At(SUBNET_MASK) == OrDefault(old(At(SUBNET_MASK)), ClassMask(yiaddr))
      ensures At(BROADCAST_ADDRESS) == OrDefault(old(At(BROADCAST_ADDRESS)), Broadcast(Be32(yiaddr), At(SUBNET_MASK).val.value[..4]))
      ensures forall c: byte | c !in DEFAULTED :: At(c) == old(At(c))
    {
      hide Broadcast, ClassMask;
      StoreDefault(SERVER_IDENTIFIER, sender);
      var server := ReadAddress(SERVER_IDENTIFIER);
      StoreDefault(DNS, server);
      StoreDefault(SUBNET_MASK, ClassMask(yiaddr));
      var mask := ReadAddress(SUBNET_MASK);
      StoreDefault(BROADCAST_ADDRESS, Broadcast(Be32(yiaddr), mask));
    }

    method SettleTimers(ownLease: u32)
      requires Valid()
      modifies len, val
      ensures Valid() && Settled()
      ensures Stored() == var t := old(Stored()); Settle(t.lease, t.t1, t.t2, ownLease)
      ensures forall c: byte | c !in TIMERS :: At(c) == old(At(c))
    {
      SettleNumber(IP_ADDRESS_LEASE_TIME, ownLease);
      var lease := ReadNumber(IP_ADDRESS_LEASE_TIME);
      SettleNumber(T1_VALUE, lease / 2);
      SettleNumber(T2_VALUE, 7 * (lease as int) / 8);
    }

    /** The option loop, after the old timers have been cleared. */
    method ParseTimers(area: array<byte>, ghost opts: seq<Opt>)
      requires Valid() && area.Length == OPTIONS_SIZE && Decode(area[..], 4) == Some(opts)
      modifies len, val
      ensures Valid()
      ensures forall c: byte | c !in TIMERS :: Updated(old(At(c)), At(c), LastValue(opts, c))
      ensures Stored() == Timers(
                if LastValue(opts, IP_ADDRESS_LEASE_TIME).Some? then Sent(opts, IP_ADDRESS_LEASE_TIME) else old(Stored()).lease,
                Sent(opts, T1_VALUE), Sent(opts, T2_VALUE))
    {
      ZeroTimer(T1_VALUE);
      ZeroTimer(T2_VALUE);
      ghost var lease, t1, t2 := At(IP_ADDRESS_LEASE_TIME), At(T1_VALUE), At(T2_VALUE);
      NumberZeroed(old(At(T1_VALUE)));
      NumberZeroed(old(At(T2_VALUE)));
      ParseOptions(area, opts);
      NumberUpdated(lease, At(IP_ADDRESS_LEASE_TIME), opts, IP_ADDRESS_LEASE_TIME);
      NumberUpdated(t1, At(T1_VALUE), opts, T1_VALUE);
      NumberUpdated(t2, At(T2_VALUE), opts, T2_VALUE);
    }

    /** The addresses this table and a message hold under `c` are whole. */
    ghost predicate WholeAddress(opts: seq<Opt>, c: byte)
      requires Valid()
      reads this, len, val
    {
      && (At(c).val.Some? ==> HoldsAddress(At(c)))
      && (LastValue(opts, c).Some? ==> |LastValue(opts, c).value| >= 4)
    }

    /** The option loop, then the addresses a server may leave out. */
    method ParseAddresses(area: array<byte>, sender: Nid32, yiaddr: u32, ghost opts: seq<Opt>)
      requires Valid() && area.Length == OPTIONS_SIZE && Decode(area[..], 4) == Some(opts)
      requires WholeAddress(opts, SERVER_IDENTIFIER) && WholeAddress(opts, SUBNET_MASK)
      modifies len, val
      ensures Valid()
      ensures forall c: byte | c !in TIMERS && c !in DEFAULTED :: Updated(old(At(c)), At(c), LastValue(opts, c))
      ensures Stored() == Timers(
                if LastValue(opts, IP_ADDRESS_LEASE_TIME).Some? then Sent(opts, IP_ADDRESS_LEASE_TIME) else old(Stored()).lease,
                Sent(opts, T1_VALUE), Sent(opts, T2_VALUE))
      ensures HoldsAddress(At(SERVER_IDENTIFIER)) && HoldsAddress(At(SUBNET_MASK))
      ensures Filled(old(At(SERVER_IDENTIFIER)), At(SERVER_IDENTIFIER), LastValue(opts, SERVER_IDENTIFIER), sender)
      ensures Filled(old(At(DNS)), At(DNS), LastValue(opts, DNS), At(SERVER_IDENTIFIER).val.value[..4])
      ensures Filled(old(At(SUBNET_MASK)), At(SUBNET_MASK), LastValue(opts, SUBNET_MASK), ClassMask(yiaddr))
      ensures Filled(old(At(BROADCAST_ADDRESS)), At(BROADCAST_ADDRESS), LastValue(opts, BROADCAST_ADDRESS),
                     Broadcast(Be32(yiaddr), At(SUBNET_MASK).val.value[..4]))
    {
      hide Decode, Number, ClassMask, Broadcast, Sent, Filled, OrDefault, Updated, LastValue;
      ParseTimers(area, opts);
      ghost var server, dns, mask, all := At(SERVER_IDENTIFIER), At(DNS), At(SUBNET_MASK), At(BROADCAST_ADDRESS);
      WholeAfter(old(At(SERVER_IDENTIFIER)), server, LastValue(opts, SERVER_IDENTIFIER));
      WholeAfter(old(At(SUBNET_MASK)), mask, LastValue(opts, SUBNET_MASK));
      FillDefaults(sender, yiaddr);
      FilledBy(old(At(SERVER_IDENTIFIER)), server, At(SERVER_IDENTIFIER), LastValue(opts, SERVER_IDENTIFIER), sender);
      FilledBy(old(At(DNS)), dns, At(DNS), LastValue(opts, DNS), At(SERVER_IDENTIFIER).val.value[..4]);
      FilledBy(old(At(SUBNET_MASK)), mask, At(SUBNET_MASK), LastValue(opts, SUBNET_MASK), ClassMask(yiaddr));
      FilledBy(old(At(BROADCAST_ADDRESS)), all, At(BROADCAST_ADDRESS), LastValue(opts, BROADCAST_ADDRESS),
               Broadcast(Be32(yiaddr), At(SUBNET_MASK).val.value[..4]));
    }

    /**
     Reads one reply into the table and returns its message type. Whatever was stored before, the timers
     depend only on this message, the stored lease and the client's own lease; server, name server, mask
     and broadcast address end up present.
     */
    method ParseDhcpMsgRecv(area: array<byte>, sender: Nid32, yiaddr: u32, ownLease: u32, ghost opts: seq<Opt>) returns (msgType: byte)
      requires Valid() && area.Length == OPTIONS_SIZE && Decode(area[..], 4) == Some(opts)
      requires LastValue(opts, MESSAGE_TYPE).Some?
      requires WholeAddress(opts, SERVER_IDENTIFIER) && WholeAddress(opts, SUBNET_MASK)
      modifies len, val
      ensures Valid() && Settled()
      ensures msgType == LastValue(opts, MESSAGE_TYPE).value[0]
      ensures Stored() == ParsedTimers(opts, old(Stored()).lease, ownLease)
      ensures forall c: byte | c !in TIMERS && c !in DEFAULTED :: Updated(old(At(c)), At(c), LastValue(opts, c))
      ensures HoldsAddress(At(SERVER_IDENTIFIER)) && HoldsAddress(At(SUBNET_MASK))
      ensures Filled(old(At(SERVER_IDENTIFIER)), At(SERVER_IDENTIFIER), LastValue(opts, SERVER_IDENTIFIER), sender)
      ensures Filled(old(At(DNS)), At(DNS), LastValue(opts, DNS), At(SERVER_IDENTIFIER).val.value[..4])
      ensures Filled(old(At(SUBNET_MASK)), At(SUBNET_MASK), LastValue(opts, SUBNET_MASK), ClassMask(yiaddr))
      ensures Filled(old(At(BROADCAST_ADDRESS)), At(BROADCAST_ADDRESS), LastValue(opts, BROADCAST_ADDRESS),
                     Broadcast(Be32(yiaddr), At(SUBNET_MASK).val.value[..4]))
    {
      hide Decode, Number, ClassMask, Broadcast, Settle, Sent, Filled, Updated, LastValue;
      ParseAddresses(area, sender, yiaddr, opts);
      SettleTimers(ownLease);
      msgType := ReadType(opts);
    }

    /** The stored message type, when the message just parsed carried one. */
    method ReadType(ghost opts: seq<Opt>) returns (msgType: byte)
      requires Valid() && LastValue(opts, MESSAGE_TYPE).Some?
      requires exists before :: Updated(before, At(MESSAGE_TYPE), LastValue(opts, MESSAGE_TYPE))
      ensures msgType == LastValue(opts, MESSAGE_TYPE).value[0]
    {
      msgType := val[MESSAGE_TYPE].value[0];
    }
  }

  lemma WholeAfter(before: Slot, after: Slot, v: Option<seq<byte>>)
    requires Updated(before, after, v)
    requires before.val.Some? ==> HoldsAddress(before)
    requires v.Some? ==> |v.value| >= 4
    ensures after.val.Some? ==> HoldsAddress(after)
  {
  }
}
