/** The options area of a DHCP message: its format, its printers and its parser. */
module DhcpOptions {
  import opened Bytes

  const OPTIONS_SIZE := 312
  const MAGIC_COOKIE: seq<byte> := [0x63, 0x82, 0x53, 0x63]

  const PAD_OPTION: byte := 0
  const SUBNET_MASK: byte := 1
  const DNS: byte := 6
  const HOST_NAME: byte := 12
  const BROADCAST_ADDRESS: byte := 28
  const REQUESTED_IP_ADDRESS: byte := 50
  const IP_ADDRESS_LEASE_TIME: byte := 51
  const MESSAGE_TYPE: byte := 53
  const SERVER_IDENTIFIER: byte := 54
  const PARAMETER_REQUEST: byte := 55
  const MAX_MESSAGE_SIZE: byte := 57
  const T1_VALUE: byte := 58
  const T2_VALUE: byte := 59
  const CLASS_IDENTIFIER: byte := 60
  const CLIENT_IDENTIFIER: byte := 61
  const END_OPTION: byte := 255

  const DHCP_DISCOVER: byte := 1
  const DHCP_REQUEST: byte := 3
  const DHCP_DECLINE: byte := 4
  const DHCP_ACK: byte := 5
  const DHCP_NAK: byte := 6
  const DHCP_RELEASE: byte := 7
  const DHCP_INFORM: byte := 8

  // ----- format -----

  datatype Opt = Opt(code: byte, value: seq<byte>) {
    predicate WellFormed() {
      code != PAD_OPTION && code != END_OPTION && |value| <= 255
    }
  }

  predicate AllWellFormed(opts: seq<Opt>) {
    forall o | o in opts :: o.WellFormed()
  }

  function EncodeOne(o: Opt): seq<byte>
    requires o.WellFormed()
  {
    [o.code, |o.value|] + o.value
  }

  function Encode(opts: seq<Opt>): seq<byte>
    requires AllWellFormed(opts)
  {
    if opts == [] then [] else Encode(opts[..|opts| - 1]) + EncodeOne(opts[|opts| - 1])
  }

  /** The options from offset `p` on; None when an option overruns the area. */
  function Decode(area: seq<byte>, p: nat): Option<seq<Opt>>
    decreases |area| - p
  {
    if p >= |area| || area[p] == END_OPTION then Some([])
    else if area[p] == PAD_OPTION then Decode(area, p + 1)
    else if p + 1 >= |area| || p + 2 + area[p + 1] > |area| then None
    else
      var n: nat := area[p + 1];
      var rest := Decode(area, p + 2 + n);
      if rest == None then None
      else Some([Opt(area[p], area[p + 2..p + 2 + n])] + rest.value)
  }

  lemma Assoc<T>(a: seq<T>, b: seq<T>, c: seq<T>)
    ensures a + b + c == a + (b + c)
  {
  }

  lemma {:induction false} EncodeAppend(a: seq<Opt>, b: seq<Opt>)
    requires AllWellFormed(a) && AllWellFormed(b)
    ensures AllWellFormed(a + b) && Encode(a + b) == Encode(a) + Encode(b)
  {
    if b == [] {
      assert a + b == a;
    } else {
      var front, last := b[..|b| - 1], b[|b| - 1];
      assert b == front + [last] && a + b == a + front + [last];
      assert AllWellFormed(a + b);
      assert (a + b)[..|a + b| - 1] == a + front && (a + b)[|a + b| - 1] == last;
      EncodeAppend(a, front);
      Assoc(Encode(a), Encode(front), EncodeOne(last));
    }
  }

  /** Printing one more option behind `before`. */
  lemma EncodeOneMore(before: seq<byte>, opts: seq<Opt>, o: Opt)
    requires AllWellFormed(opts) && o.WellFormed()
    ensures AllWellFormed(opts + [o])
    ensures before + Encode(opts + [o]) == before + Encode(opts) + EncodeOne(o)
  {
    EncodeAppend(opts, [o]);
    assert Encode([o]) == EncodeOne(o);
  }

  lemma DecodeItem(before: seq<byte>, item: seq<byte>, after: seq<byte>)
    requires |item| >= 2 && item[0] != 0 && item[0] != 255 && |item| - 2 == item[1]
    ensures var area := before + item + after;
            var rest := Decode(area, |before| + |item|);
            Decode(area, |before|) == if rest == None then None else Some([Opt(item[0], item[2..])] + rest.value)
  {
    var area := before + item + after;
    var p, n := |before|, |item|;
    assert area[p..p + n] == item;
    assert area[p] == area[p..p + n][0] && area[p + 1] == area[p..p + n][1];
    assert area[p + 2..p + n] == area[p..p + n][2..] == item[2..];
  }

  lemma DecodeStep(before: seq<byte>, o: Opt, after: seq<byte>)
    requires o.WellFormed()
    ensures var area := before + EncodeOne(o) + after;
            var rest := Decode(area, |before + EncodeOne(o)|);
            Decode(area, |before|) == if rest == None then None else Some([o] + rest.value)
  {
    assert EncodeOne(o)[2..] == o.value;
    hide Decode;
    DecodeItem(before, EncodeOne(o), after);
  }

  lemma DecodeMarks(area: seq<byte>, p: nat)
    requires p < |area|
    ensures area[p] == 0 ==> Decode(area, p) == Decode(area, p + 1)
    ensures area[p] == 255 ==> Decode(area, p) == Some([])
  {
  }

  /**
   The format of RFC 2132, section 2, byte by byte: a pad is skipped, the end mark ends, any other code is
   followed by one byte of length and as many of value.
   */
  lemma DecodeByBytes(before: seq<byte>, item: seq<byte>, after: seq<byte>)
    requires |item| >= 2 && item[0] != 0 && item[0] != 255 && |item| - 2 == item[1]
    ensures Decode(before + [0] + after, |before|) == Decode(before + [0] + after, |before| + 1)
    ensures Decode(before + [255] + after, |before|) == Some([])
    ensures var area := before + item + after;
            var rest := Decode(area, |before| + |item|);
            Decode(area, |before|) == if rest == None then None else Some([Opt(item[0], item[2..])] + rest.value)
  {
    hide Decode;
    DecodeMarks(before + [0] + after, |before|);
    DecodeMarks(before + [255] + after, |before|);
    DecodeItem(before, item, after);
  }

  /** Decoding what was printed gives back exactly what was meant. */
  lemma {:induction false} DecodeEncode(before: seq<byte>, opts: seq<Opt>, after: seq<byte>)
    requires AllWellFormed(opts)
    ensures Decode(before + Encode(opts) + [END_OPTION] + after, |before|) == Some(opts)
    decreases |opts|
  {
    var area := before + Encode(opts) + [END_OPTION] + after;
    if opts == [] {
      assert area[|before|] == END_OPTION;
    } else {
      var o, rest := opts[0], opts[1..];
      assert opts == [o] + rest;
      assert Encode([o]) == EncodeOne(o);
      EncodeAppend([o], rest);
      assert area == before + EncodeOne(o) + Encode(rest) + [END_OPTION] + after;
      assert area == before + EncodeOne(o) + (Encode(rest) + [END_OPTION] + after);
      DecodeStep(before, o, Encode(rest) + [END_OPTION] + after);
      DecodeEncode(before + EncodeOne(o), rest, after);
    }
  }
}
