/** The eight message builders: each writes its options through an advancing pointer. */
module DhcpBuilder {
  import opened Bytes
  import opened DhcpOptions

  const CLASS_ID_MAX_LEN := 48
  const CLIENT_ID_MAX_LEN := 48
  const HOSTNAME_MAX_LEN := 64
  const ETH_ALEN := 6

  const PARAMETERS: seq<byte> := [1, 3, 6, 12, 15, 17, 23, 28, 29, 31, 33, 40, 41, 42]

  // ----- what each message is meant to say -----

  datatype Kind = Discover | Request | Renew | Rebind | Reboot | Release | Decline | Inform

  /** The client state the builders read; the lease time is the option's value, when there is one. */
  datatype Client = Client(ciaddr: Nid32, beRFC1541: bool, nleaseTime: Nid32, msgSize: u16,
                           serverId: Nid32, leaseOption: Option<Nid32>,
                           hostname: Option<seq<byte>>, classId: seq<byte>, clientId: seq<byte>) {
    /** Within the declared sizes of the client's buffers; `clientId` includes its type byte. */
    predicate WithinLimits() {
      && (hostname.Some? ==> |hostname.value| <= HOSTNAME_MAX_LEN)
      && |classId| <= CLASS_ID_MAX_LEN
      && |clientId| + 2 <= CLIENT_ID_MAX_LEN
    }
  }

  function MessageType(k: Kind): byte {
    match k
    case Discover => DHCP_DISCOVER
    case Release => DHCP_RELEASE
    case Decline => DHCP_DECLINE
    case Inform => DHCP_INFORM
    case _ => DHCP_REQUEST
  }

  /** A farewell carries no negotiation. */
  predicate Farewell(k: Kind) {
    k.Release? || k.Decline?
  }

  /** The address is named in an option only where the client is not yet, or no longer, bound to it. */
  predicate NamesAddress(k: Kind, st: Client) {
    && !st.beRFC1541
    && ((k.Discover? && st.ciaddr != [0, 0, 0, 0]) || k.Request? || k.Reboot? || k.Decline?)
  }

  function LeaseAsked(k: Kind, st: Client): Option<Nid32> {
    if k.Discover? || k.Reboot? then Some(st.nleaseTime)
    else if k.Request? || k.Rebind? then st.leaseOption
    else None
  }

  /** The options a message of kind `k` is meant to carry, in order. */
  function Meant(k: Kind, st: Client): (r: seq<Opt>)
    requires st.WithinLimits()
    ensures AllWellFormed(r)
  {
    [Opt(MESSAGE_TYPE, [MessageType(k)])]
    + (if Farewell(k) then [] else [Opt(MAX_MESSAGE_SIZE, Be16(st.msgSize))])
    + (if Farewell(k) || k.Request? then [Opt(SERVER_IDENTIFIER, st.serverId)] else [])
    + (if NamesAddress(k, st) then [Opt(REQUESTED_IP_ADDRESS, st.ciaddr)] else [])
    + (if LeaseAsked(k, st).Some? then [Opt(IP_ADDRESS_LEASE_TIME, LeaseAsked(k, st).value)] else [])
    + (if Farewell(k) then [] else Wishes(st))
    + [Opt(CLIENT_IDENTIFIER, st.clientId)]
  }

  /** What the client asks for and who it says it is, in every message but a farewell. */
  function Wishes(st: Client): (r: seq<Opt>)
    requires st.WithinLimits()
    ensures AllWellFormed(r)
  {
    [Opt(PARAMETER_REQUEST, PARAMETERS)]
    + (if st.hostname.Some? then [Opt(HOST_NAME, st.hostname.value)] else [])
    + [Opt(CLASS_IDENTIFIER, st.classId)]
  }

  // ----- the same, code by code -----

  /** The values of all options with code `c`, in order. */
  function ValuesOf(opts: seq<Opt>, c: byte): seq<seq<byte>> {
    if opts == [] then [] else (if opts[0].code == c then [opts[0].value] else []) + ValuesOf(opts[1..], c)
  }

  lemma {:induction false} ValuesAppend(a: seq<Opt>, b: seq<Opt>, c: byte)
    ensures ValuesOf(a + b, c) == ValuesOf(a, c) + ValuesOf(b, c)
  {
    if a == [] {
      assert a + b == b;
    } else {
      assert (a + b)[1..] == a[1..] + b;
      ValuesAppend(a[1..], b, c);
    }
  }

  /**
   The table of the eight messages, by option code: 50 requested address, 51 lease time, 53 message type,
   54 server, and in all but a farewell 57 message size, 55 parameters asked for, 12 host name, 60 class;
   61 client identifier; nothing under any other code.
   */
  function Expected(k: Kind, st: Client, c: byte): Option<seq<byte>> {
    if c == 53 then
      Some(match k case Discover => [1] case Decline => [4] case Release => [7] case Inform => [8] case _ => [3])
    else if c == 50 then
      (match k
       case Discover => if st.beRFC1541 || st.ciaddr == [0, 0, 0, 0] then None else Some(st.ciaddr)
       case Request => if st.beRFC1541 then None else Some(st.ciaddr)
       case Reboot => if st.beRFC1541 then None else Some(st.ciaddr)
       case Decline => if st.beRFC1541 then None else Some(st.ciaddr)
       case _ => None)
    else if c == 51 then
      (match k
       case Discover => Some(st.nleaseTime)
       case Reboot => Some(st.nleaseTime)
       case Request => st.leaseOption
       case Rebind => st.leaseOption
       case _ => None)
    else if c == 54 then
      (match k case Request => Some(st.serverId) case Release => Some(st.serverId) case Decline => Some(st.serverId) case _ => None)
    else if c == 61 then Some(st.clientId)
    else if k == Release || k == Decline then None
    else if c == 57 then Some([st.msgSize / 256, st.msgSize % 256])
    else if c == 55 then Some([1, 3, 6, 12, 15, 17, 23, 28, 29, 31, 33, 40, 41, 42])
    else if c == 12 then st.hostname
    else if c == 60 then Some(st.classId)
    else None
  }

  /** At most one option, under `code`. */
  function Maybe(code: byte, value: Option<seq<byte>>): seq<Opt> {
    if value.Some? then [Opt(code, value.value)] else []
  }

  function AtMostOne(value: Option<seq<byte>>): seq<seq<byte>> {
    if value.Some? then [value.value] else []
  }

  /** What a place for `code` contributes under `c`. */
  function Under(c: byte, code: byte, value: Option<seq<byte>>): seq<seq<byte>> {
    if c == code then AtMostOne(value) else []
  }

  lemma ValuesOfMaybe(code: byte, value: Option<seq<byte>>, c: byte)
    ensures ValuesOf(Maybe(code, value), c) == Under(c, code, value)
  {
    assert ValuesOf([], c) == [];
    if value.Some? {
      assert Maybe(code, value)[1..] == [];
    }
  }

  function SizeOf(k: Kind, st: Client): Option<seq<byte>> {
    if Farewell(k) then None else Some(Be16(st.msgSize))
  }

  function ServerOf(k: Kind, st: Client): Option<seq<byte>> {
    if Farewell(k) || k.Request? then Some(st.serverId) else None
  }

  function AddressOf(k: Kind, st: Client): Option<seq<byte>> {
    if NamesAddress(k, st) then Some(st.ciaddr) else None
  }

  function LeaseOf(k: Kind, st: Client): Option<seq<byte>> {
    if LeaseAsked(k, st).Some? then Some(LeaseAsked(k, st).value) else None
  }

  function WishesOf(k: Kind, st: Client, c: byte): seq<seq<byte>>
    requires st.WithinLimits()
  {
    ValuesOf(if Farewell(k) then [] else Wishes(st), c)
  }

  /** The message as its places in order. */
  lemma MeantPlaces(k: Kind, st: Client)
    requires st.WithinLimits()
    ensures Meant(k, st) ==
            Maybe(MESSAGE_TYPE, Some([MessageType(k)])) + Maybe(MAX_MESSAGE_SIZE, SizeOf(k, st)) + Maybe(SERVER_IDENTIFIER, ServerOf(k, st))
            + Maybe(REQUESTED_IP_ADDRESS, AddressOf(k, st)) + Maybe(IP_ADDRESS_LEASE_TIME, LeaseOf(k, st))
            + (if Farewell(k) then [] else Wishes(st)) + Maybe(CLIENT_IDENTIFIER, Some(st.clientId))
  {
    hide Wishes, Be16, MessageType;
  }

  function Seven<T>(a: seq<T>, b: seq<T>, d: seq<T>, e: seq<T>, f: seq<T>, g: seq<T>, h: seq<T>): seq<T> {
    a + b + d + e + f + g + h
  }

  lemma OnlyOne<T>(a: seq<T>, b: seq<T>, d: seq<T>, e: seq<T>, f: seq<T>, g: seq<T>, h: seq<T>)
    ensures b == d == e == f == g == h == [] ==> Seven(a, b, d, e, f, g, h) == a
    ensures a == d == e == f == g == h == [] ==> Seven(a, b, d, e, f, g, h) == b
    ensures a == b == e == f == g == h == [] ==> Seven(a, b, d, e, f, g, h) == d
    ensures a == b == d == f == g == h == [] ==> Seven(a, b, d, e, f, g, h) == e
    ensures a == b == d == e == g == h == [] ==> Seven(a, b, d, e, f, g, h) == f
    ensures a == b == d == e == f == h == [] ==> Seven(a, b, d, e, f, g, h) == g
    ensures a == b == d == e == f == g == [] ==> Seven(a, b, d, e, f, g, h) == h
  {
  }

  lemma ValuesOfSeven(a: seq<Opt>, b: seq<Opt>, d: seq<Opt>, e: seq<Opt>, f: seq<Opt>, g: seq<Opt>, h: seq<Opt>, c: byte)
    ensures ValuesOf(a + b + d + e + f + g + h, c) ==
            Seven(ValuesOf(a, c), ValuesOf(b, c), ValuesOf(d, c), ValuesOf(e, c), ValuesOf(f, c), ValuesOf(g, c), ValuesOf(h, c))
  {
    hide ValuesOf;
    ValuesAppend(a + b + d + e + f + g, h, c);
    ValuesAppend(a + b + d + e + f, g, c);
    ValuesAppend(a + b + d + e, f, c);
    ValuesAppend(a + b + d, e, c);
    ValuesAppend(a + b, d, c);
    ValuesAppend(a, b, c);
  }

  lemma MeantSum(k: Kind, st: Client, c: byte)
    requires st.WithinLimits()
    ensures ValuesOf(Meant(k, st), c) ==
            Seven(Under(c, MESSAGE_TYPE, Some([MessageType(k)])), Under(c, MAX_MESSAGE_SIZE, SizeOf(k, st)),
                  Under(c, SERVER_IDENTIFIER, ServerOf(k, st)), Under(c, REQUESTED_IP_ADDRESS, AddressOf(k, st)),
                  Under(c, IP_ADDRESS_LEASE_TIME, LeaseOf(k, st)), WishesOf(k, st, c),
                  Under(c, CLIENT_IDENTIFIER, Some(st.clientId)))
  {
    MeantPlaces(k, st);
    ValuesOfMaybe(MESSAGE_TYPE, Some([MessageType(k)]), c);
    ValuesOfMaybe(MAX_MESSAGE_SIZE, SizeOf(k, st), c);
    ValuesOfMaybe(SERVER_IDENTIFIER, ServerOf(k, st), c);
    ValuesOfMaybe(REQUESTED_IP_ADDRESS, AddressOf(k, st), c);
    ValuesOfMaybe(IP_ADDRESS_LEASE_TIME, LeaseOf(k, st), c);
    ValuesOfMaybe(CLIENT_IDENTIFIER, Some(st.clientId), c);
    hide Seven, Meant, Wishes, ValuesOf, Maybe, Under, SizeOf, ServerOf, AddressOf, LeaseOf, MessageType, Be16;
    ValuesOfSeven(Maybe(MESSAGE_TYPE, Some([MessageType(k)])), Maybe(MAX_MESSAGE_SIZE, SizeOf(k, st)),
                  Maybe(SERVER_IDENTIFIER, ServerOf(k, st)), Maybe(REQUESTED_IP_ADDRESS, AddressOf(k, st)),
                  Maybe(IP_ADDRESS_LEASE_TIME, LeaseOf(k, st)), if Farewell(k) then [] else Wishes(st),
                  Maybe(CLIENT_IDENTIFIER, Some(st.clientId)), c);
  }

  lemma FarewellByCode(k: Kind, st: Client, c: byte)
    requires st.WithinLimits() && Farewell(k)
    ensures ValuesOf(Meant(k, st), c) == AtMostOne(Expected(k, st, c))
  {
    MeantSum(k, st, c);
    assert ValuesOf([], c) == [];
    hide ValuesOf, Meant, Wishes, Seven;
    OnlyOne(Under(c, MESSAGE_TYPE, Some([MessageType(k)])), Under(c, MAX_MESSAGE_SIZE, SizeOf(k, st)),
            Under(c, SERVER_IDENTIFIER, ServerOf(k, st)), Under(c, REQUESTED_IP_ADDRESS, AddressOf(k, st)),
            Under(c, IP_ADDRESS_LEASE_TIME, LeaseOf(k, st)), WishesOf(k, st, c),
            Under(c, CLIENT_IDENTIFIER, Some(st.clientId)));
  }

  lemma RequestByCode(k: Kind, st: Client, c: byte)
    requires st.WithinLimits() && !Farewell(k)
    ensures ValuesOf(Meant(k, st), c) == AtMostOne(Expected(k, st, c))
  {
    MeantSum(k, st, c);
    WishesByCode(st, c);
    hide ValuesOf, Meant, Wishes, Seven;
    OnlyOne(Under(c, MESSAGE_TYPE, Some([MessageType(k)])), Under(c, MAX_MESSAGE_SIZE, SizeOf(k, st)),
            Under(c, SERVER_IDENTIFIER, ServerOf(k, st)), Under(c, REQUESTED_IP_ADDRESS, AddressOf(k, st)),
            Under(c, IP_ADDRESS_LEASE_TIME, LeaseOf(k, st)), WishesOf(k, st, c),
            Under(c, CLIENT_IDENTIFIER, Some(st.clientId)));
  }

  /** What a message is meant to say is what the table has under each code, once, and nothing else. */
  lemma MeantByCode(k: Kind, st: Client, c: byte)
    requires st.WithinLimits()
    ensures ValuesOf(Meant(k, st), c) == AtMostOne(Expected(k, st, c))
  {
    hide Meant, ValuesOf, Expected;
    if Farewell(k) {
      FarewellByCode(k, st, c);
    } else {
      RequestByCode(k, st, c);
    }
  }

  lemma WishesByCode(st: Client, c: byte)
    requires st.WithinLimits()
    ensures ValuesOf(Wishes(st), c) ==
            if c == 55 then [PARAMETERS] else if c == 12 then AtMostOne(st.hostname) else if c == 60 then [st.classId] else []
  {
    var parameters, name, class_ :=
      Maybe(PARAMETER_REQUEST, Some(PARAMETERS)), Maybe(HOST_NAME, st.hostname), Maybe(CLASS_IDENTIFIER, Some(st.classId));
    assert Wishes(st) == parameters + name + class_;
    ValuesOfMaybe(PARAMETER_REQUEST, Some(PARAMETERS), c);
    ValuesOfMaybe(HOST_NAME, st.hostname, c);
    ValuesOfMaybe(CLASS_IDENTIFIER, Some(st.classId), c);
    hide ValuesOf, Maybe;
    ValuesAppend(parameters + name, class_, c);
    ValuesAppend(parameters, name, c);
  }

  /** A finished options area: the cookie, and under each code what the table of messages says. */
  predicate SaysByTable(area: seq<byte>, k: Kind, st: Client) {
    && |area| == 312 && area[..4] == [0x63, 0x82, 0x53, 0x63] && Decode(area, 4).Some?
    && forall c: byte :: ValuesOf(Decode(area, 4).value, c) == AtMostOne(Expected(k, st, c))
  }

  lemma MeantSaysByTable(area: seq<byte>, k: Kind, st: Client)
    requires st.WithinLimits() && |area| == 312 && area[..4] == MAGIC_COOKIE && Decode(area, 4) == Some(Meant(k, st))
    ensures SaysByTable(area, k, st)
  {
    hide Meant, Decode, Expected, ValuesOf, AtMostOne;
    forall c: byte
      ensures ValuesOf(Meant(k, st), c) == AtMostOne(Expected(k, st, c))
    {
      MeantByCode(k, st, c);
    }
  }

  // ----- the writer -----

  /** The client identifier as it is encoded once and copied into every message. */
  method ClientIDsetup(clientID: Option<seq<byte>>, tokenRing: bool, hwaddr: seq<byte>) returns (b: array<byte>, len: nat, ghost id: seq<byte>)
    requires |hwaddr| == 6
    requires clientID.Some? ==> |clientID.value| + 3 <= CLIENT_ID_MAX_LEN
    ensures fresh(b) && b.Length == CLIENT_ID_MAX_LEN && len <= b.Length
    ensures id == if clientID.Some? then [0] + clientID.value else [if tokenRing then 6 else 1] + hwaddr
    ensures Opt(CLIENT_IDENTIFIER, id).WellFormed() && b[..len] == EncodeOne(Opt(CLIENT_IDENTIFIER, id))
  {
    b := new byte[CLIENT_ID_MAX_LEN](_ => 0);
    b[0] := CLIENT_IDENTIFIER;
    if clientID.Some? {
      var n := |clientID.value|;
      b[1] := n + 1;
      b[2] := 0;
      Store(b, 3, clientID.value);
      len, id := n + 3, [0] + clientID.value;
    } else {
      b[1] := ETH_ALEN + 1;
      b[2] := if tokenRing then 6 else 1;
      Store(b, 3, hwaddr);
      len, id := ETH_ALEN + 3, [b[2]] + hwaddr;
    }
    assert b[..len] == b[..3] + b[3..len];
  }

  /** The options area being written; `written` are the options complete so far. */
  class Writer {
    const area: array<byte>
    var p: nat
    ghost var written: seq<Opt>

    ghost predicate Valid()
      reads this, area
    {
      && area.Length == OPTIONS_SIZE
      && AllWellFormed(written)
      && p <= area.Length
      && area[..p] == MAGIC_COOKIE + Encode(written)
      && forall i | p <= i < area.Length :: area[i] == 0
    }

    constructor ()
      ensures Valid() && fresh(area)
      ensures written == [] && p == 4
    {
      area := new byte[OPTIONS_SIZE](_ => 0);
      p, written := 4, [];
      new;
      Store(area, 0, MAGIC_COOKIE);
    }

    /** Type, length, value. */
    method Put(code: byte, value: seq<byte>)
      requires Valid() && Opt(code, value).WellFormed() && p + 2 + |value| <= OPTIONS_SIZE
      modifies this, area
      ensures Valid() && written == old(written) + [Opt(code, value)] && p == old(p) + 2 + |value|
    {
      PutEncoded([code, |value|] + value, Opt(code, value));
    }

    /** Copies an option that is already encoded. */
    method PutEncoded(bytes: seq<byte>, ghost o: Opt)
      requires Valid() && o.WellFormed() && bytes == EncodeOne(o) && p + |bytes| <= OPTIONS_SIZE
      modifies this, area
      ensures Valid() && written == old(written) + [o] && p == old(p) + |bytes|
    {
      hide Encode, EncodeOne;
      ghost var before := area[..p];
      Store(area, p, bytes);
      assert area[..p] == before;
      assert area[..p + |bytes|] == area[..p] + area[p..p + |bytes|];
      EncodeOneMore(MAGIC_COOKIE, written, o);
      written := written + [o];
      p := p + |bytes|;
    }

    /** The options every message but a farewell ends its negotiation with. */
    method PutTail(st: Client)
      requires Valid() && st.WithinLimits() && p + 16 + 66 + 50 <= OPTIONS_SIZE
      modifies this, area
      ensures Valid() && p <= old(p) + 16 + 66 + 50
      ensures written == old(written) + Wishes(st)
    {
      hide Valid, Encode, EncodeOne;
      Put(PARAMETER_REQUEST, PARAMETERS);
      if st.hostname.Some? {
        Put(HOST_NAME, st.hostname.value);
      }
      Put(CLASS_IDENTIFIER, st.classId);
      assert written == old(written) + Wishes(st);
    }

    /** Writes the option only if there is a value for it. */
    method PutIfAny(code: byte, value: Option<seq<byte>>)
      requires Valid() && (value.Some? ==> Opt(code, value.value).WellFormed() && p + 2 + |value.value| <= OPTIONS_SIZE)
      modifies this, area
      ensures Valid() && p == old(p) + if value.Some? then 2 + |value.value| else 0
      ensures written == old(written) + if value.Some? then [Opt(code, value.value)] else []
    {
      if value.Some? {
        Put(code, value.value);
      } else {
        assert written == written + [];
      }
    }

    /** The client identifier and the end mark; the rest of the area stays zero. */
    method Finish(st: Client, clientIdOption: seq<byte>)
      requires Valid() && st.WithinLimits() && p + 49 <= OPTIONS_SIZE
      requires clientIdOption == EncodeOne(Opt(CLIENT_IDENTIFIER, st.clientId))
      modifies this, area
      ensures written == old(written) + [Opt(CLIENT_IDENTIFIER, st.clientId)]
      ensures AllWellFormed(written) && Decode(area[..], 4) == Some(written)
      ensures area.Length == OPTIONS_SIZE && area[..4] == MAGIC_COOKIE
      ensures p < OPTIONS_SIZE && area[p] == 255 && forall i | p < i < area.Length :: area[i] == 0
    {
      PutEncoded(clientIdOption, Opt(CLIENT_IDENTIFIER, st.clientId));
      ghost var body := area[..p];
      area[p] := END_OPTION;
      ghost var rest := area[p + 1..];
      assert area[..] == MAGIC_COOKIE + Encode(written) + [END_OPTION] + rest;
      assert area[..4] == area[..][..4] == MAGIC_COOKIE;
      DecodeEncode(MAGIC_COOKIE, written, rest);
    }
  }

  // ----- the builders -----

  method BuildDhcpDiscover(st: Client, clientIdOption: seq<byte>) returns (w: Writer)
    requires st.WithinLimits() && clientIdOption == EncodeOne(Opt(CLIENT_IDENTIFIER, st.clientId))
    ensures fresh(w) && Decode(w.area[..], 4) == Some(Meant(Discover, st)) && SaysByTable(w.area[..], Discover, st)
  {
    hide Writer.Valid, Encode, EncodeOne, Decode, Wishes, SaysByTable;
    w := new Writer();
    w.Put(MESSAGE_TYPE, [DHCP_DISCOVER]);
    w.Put(MAX_MESSAGE_SIZE, Be16(st.msgSize));
    w.PutIfAny(REQUESTED_IP_ADDRESS, if st.ciaddr != [0, 0, 0, 0] && !st.beRFC1541 then Some(st.ciaddr) else None);
    w.Put(IP_ADDRESS_LEASE_TIME, st.nleaseTime);
    w.PutTail(st);
    w.Finish(st, clientIdOption);
    assert w.written == Meant(Discover, st);
    MeantSaysByTable(w.area[..], Discover, st);
  }

  method BuildDhcpRequest(st: Client, clientIdOption: seq<byte>) returns (w: Writer)
    requires st.WithinLimits() && clientIdOption == EncodeOne(Opt(CLIENT_IDENTIFIER, st.clientId))
    ensures fresh(w) && Decode(w.area[..], 4) == Some(Meant(Request, st)) && SaysByTable(w.area[..], Request, st)
  {
    hide Writer.Valid, Encode, EncodeOne, Decode, Wishes, SaysByTable;
    w := new Writer();
    w.Put(MESSAGE_TYPE, [DHCP_REQUEST]);
    w.Put(MAX_MESSAGE_SIZE, Be16(st.msgSize));
    w.Put(SERVER_IDENTIFIER, st.serverId);
    w.PutIfAny(REQUESTED_IP_ADDRESS, if !st.beRFC1541 then Some(st.ciaddr) else None);
    w.PutIfAny(IP_ADDRESS_LEASE_TIME, st.leaseOption);
    w.PutTail(st);
    w.Finish(st, clientIdOption);
    assert w.written == Meant(Request, st);
    MeantSaysByTable(w.area[..], Request, st);
  }

  method BuildDhcpRenew(st: Client, clientIdOption: seq<byte>) returns (w: Writer)
    requires st.WithinLimits() && clientIdOption == EncodeOne(Opt(CLIENT_IDENTIFIER, st.clientId))
    ensures fresh(w) && Decode(w.area[..], 4) == Some(Meant(Renew, st)) && SaysByTable(w.area[..], Renew, st)
  {
    hide Writer.Valid, Encode, EncodeOne, Decode, Wishes, SaysByTable;
    w := new Writer();
    w.Put(MESSAGE_TYPE, [DHCP_REQUEST]);
    w.Put(MAX_MESSAGE_SIZE, Be16(st.msgSize));
    w.PutTail(st);
    w.Finish(st, clientIdOption);
    assert w.written == Meant(Renew, st);
    MeantSaysByTable(w.area[..], Renew, st);
  }

  method BuildDhcpRebind(st: Client, clientIdOption: seq<byte>) returns (w: Writer)
    requires st.WithinLimits() && clientIdOption == EncodeOne(Opt(CLIENT_IDENTIFIER, st.clientId))
    ensures fresh(w) && Decode(w.area[..], 4) == Some(Meant(Rebind, st)) && SaysByTable(w.area[..], Rebind, st)
  {
    hide Writer.Valid, Encode, EncodeOne, Decode, Wishes, SaysByTable;
    w := new Writer();
    w.Put(MESSAGE_TYPE, [DHCP_REQUEST]);
    w.Put(MAX_MESSAGE_SIZE, Be16(st.msgSize));
    w.PutIfAny(IP_ADDRESS_LEASE_TIME, st.leaseOption);
    w.PutTail(st);
    w.Finish(st, clientIdOption);
    assert w.written == Meant(Rebind, st);
    MeantSaysByTable(w.area[..], Rebind, st);
  }

  method BuildDhcpReboot(st: Client, clientIdOption: seq<byte>) returns (w: Writer)
    requires st.WithinLimits() && clientIdOption == EncodeOne(Opt(CLIENT_IDENTIFIER, st.clientId))
    ensures fresh(w) && Decode(w.area[..], 4) == Some(Meant(Reboot, st)) && SaysByTable(w.area[..], Reboot, st)
  {
    hide Writer.Valid, Encode, EncodeOne, Decode, Wishes, SaysByTable;
    w := new Writer();
    w.Put(MESSAGE_TYPE, [DHCP_REQUEST]);
    w.Put(MAX_MESSAGE_SIZE, Be16(st.msgSize));
    w.PutIfAny(REQUESTED_IP_ADDRESS, if !st.beRFC1541 then Some(st.ciaddr) else None);
    w.Put(IP_ADDRESS_LEASE_TIME, st.nleaseTime);
    w.PutTail(st);
    w.Finish(st, clientIdOption);
    assert w.written == Meant(Reboot, st);
    MeantSaysByTable(w.area[..], Reboot, st);
  }

  method BuildDhcpRelease(st: Client, clientIdOption: seq<byte>) returns (w: Writer)
    requires st.WithinLimits() && clientIdOption == EncodeOne(Opt(CLIENT_IDENTIFIER, st.clientId))
    ensures fresh(w) && Decode(w.area[..], 4) == Some(Meant(Release, st)) && SaysByTable(w.area[..], Release, st)
  {
    hide Writer.Valid, Encode, EncodeOne, Decode, Wishes, SaysByTable;
    w := new Writer();
    w.Put(MESSAGE_TYPE, [DHCP_RELEASE]);
    w.Put(SERVER_IDENTIFIER, st.serverId);
    w.Finish(st, clientIdOption);
    assert w.written == Meant(Release, st);
    MeantSaysByTable(w.area[..], Release, st);
  }

  method BuildDhcpDecline(st: Client, clientIdOption: seq<byte>) returns (w: Writer)
    requires st.WithinLimits() && clientIdOption == EncodeOne(Opt(CLIENT_IDENTIFIER, st.clientId))
    ensures fresh(w) && Decode(w.area[..], 4) == Some(Meant(Decline, st)) && SaysByTable(w.area[..], Decline, st)
  {
    hide Writer.Valid, Encode, EncodeOne, Decode, Wishes, SaysByTable;
    w := new Writer();
    w.Put(MESSAGE_TYPE, [DHCP_DECLINE]);
    w.Put(SERVER_IDENTIFIER, st.serverId);
    w.PutIfAny(REQUESTED_IP_ADDRESS, if !st.beRFC1541 then Some(st.ciaddr) else None);
    w.Finish(st, clientIdOption);
    assert w.written == Meant(Decline, st);
    MeantSaysByTable(w.area[..], Decline, st);
  }

  method BuildDhcpInform(st: Client, clientIdOption: seq<byte>) returns (w: Writer)
    requires st.WithinLimits() && clientIdOption == EncodeOne(Opt(CLIENT_IDENTIFIER, st.clientId))
    ensures fresh(w) && Decode(w.area[..], 4) == Some(Meant(Inform, st)) && SaysByTable(w.area[..], Inform, st)
  {
    hide Writer.Valid, Encode, EncodeOne, Decode, Wishes, SaysByTable;
    w := new Writer();
    w.Put(MESSAGE_TYPE, [DHCP_INFORM]);
    w.Put(MAX_MESSAGE_SIZE, Be16(st.msgSize));
    w.PutTail(st);
    w.Finish(st, clientIdOption);
    assert w.written == Meant(Inform, st);
    MeantSaysByTable(w.area[..], Inform, st);
  }
}
