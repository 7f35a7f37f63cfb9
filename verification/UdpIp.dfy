/**
 The UDP/IP header generator and checker. Both sum the UDP pseudo-header by overlaying it
 on the IP header inside the packet buffer; the checker puts the header back.
 */
module UdpIp {
  import opened Bytes
  import opened Checksum

  const IP_HEADER := 20
  const UDP_HEADER := 8
  const IPPROTO_UDP: byte := 17
  const IPDEFTTL: byte := 64

  // ----- the packet format -----

  /** The pseudo-header as it overlays the 20 bytes of the IP header. */
  function Overlay(proto: byte, ulen: seq<byte>, saddr: Nid32, daddr: Nid32): (s: seq<byte>)
    requires |ulen| == 2
    ensures |s| == IP_HEADER
  {
    [0, 0, 0, 0, 0, 0, 0, 0, 0, proto] + ulen + saddr + daddr
  }

  function UdpHeader(sport: u16, dport: u16, ulen: u16, sum: u16): (s: seq<byte>)
    ensures |s| == UDP_HEADER
  {
    Be16(sport) + Be16(dport) + Be16(ulen) + Le16(sum)
  }

  /** The header without options of RFC 791, section 3.1. */
  function IpHeader(total: u16, id: u16, sum: u16, saddr: Nid32, daddr: Nid32): (s: seq<byte>)
    ensures |s| == IP_HEADER
  {
    [0x45, 0] + Be16(total) + Be16(id) + [0, 0, IPDEFTTL, IPPROTO_UDP] + Le16(sum) + saddr + daddr
  }

  /** The checksum field that makes a sum of `n` outside the field a multiple of 0xffff. */
  function FieldFor(n: nat): u16 {
    0xffff - Rep(n)
  }

  /** The UDP checksum sent: never zero, which would mean that there is none. */
  function UdpField(n: nat): u16 {
    if FieldFor(n) == 0 then 0xffff else FieldFor(n)
  }

  function PseudoSum(proto: byte, ulen: seq<byte>, saddr: Nid32, daddr: Nid32): nat
    requires |ulen| == 2
  {
    256 * (proto as int) + WordSum(ulen) + WordSum(saddr) + WordSum(daddr)
  }

  datatype Flow = Flow(saddr: Nid32, daddr: Nid32, sport: u16, dport: u16)

  /** The word sum of pseudo-header and datagram, the checksum field counting as zero. */
  function DatagramSum(f: Flow, payload: seq<byte>): nat
    requires |payload| + UDP_HEADER <= 0xffff
  {
    var ulen := |payload| + UDP_HEADER;
    PseudoSum(IPPROTO_UDP, Be16(ulen), f.saddr, f.daddr) + WordSum(UdpHeader(f.sport, f.dport, ulen, 0) + payload)
  }

  /** The packet for `payload`, stated without reference to how it is put together. */
  function Packet(f: Flow, id: u16, payload: seq<byte>): (s: seq<byte>)
    requires |payload| + IP_HEADER + UDP_HEADER <= 0xffff
    ensures |s| == |payload| + IP_HEADER + UDP_HEADER
  {
    var ulen := |payload| + UDP_HEADER;
    var total := |payload| + IP_HEADER + UDP_HEADER;
    var usum := UdpField(DatagramSum(f, payload));
    var isum := FieldFor(WordSum(IpHeader(total, id, 0, f.saddr, f.daddr)));
    IpHeader(total, id, isum, f.saddr, f.daddr) + (UdpHeader(f.sport, f.dport, ulen, usum) + payload)
  }

  // ----- the verdict on a received packet -----

  function HeaderLength(p: seq<byte>): nat
    requires |p| > 0
  {
    4 * (p[0] % 16)
  }

  function UdpLength(p: seq<byte>): u16
    requires |p| > 0 && HeaderLength(p) + UDP_HEADER <= |p|
  {
    var hl := HeaderLength(p);
    FromBe16(p[hl + 4..hl + 6])
  }

  /** A datagram whose header and UDP lengths fit the buffer. */
  predicate WellSized(p: seq<byte>) {
    && 0 < |p| <= 0xffff
    && IP_HEADER <= HeaderLength(p) && HeaderLength(p) + UDP_HEADER <= |p|
    && HeaderLength(p) + UdpLength(p) <= |p|
  }

  /** The word sum of the pseudo-header of `p` and of its UDP datagram. */
  function ReceivedSum(p: seq<byte>): nat
    requires WellSized(p)
  {
    var hl := HeaderLength(p);
    PseudoSum(p[9], p[hl + 4..hl + 6], p[12..16], p[16..20]) + WordSum(p[hl..hl + UdpLength(p)])
  }

  /** What the standards ask of a received datagram, with or without IP options. */
  function Verdict(p: seq<byte>): int
    requires WellSized(p)
  {
    if Rep(WordSum(p[..HeaderLength(p)])) != 0xffff then -1 else UdpVerdict(p)
  }

  /** The sender has computed a UDP checksum. */
  predicate HasChecksum(p: seq<byte>)
    requires WellSized(p)
  {
    p[HeaderLength(p) + 6] != 0 || p[HeaderLength(p) + 7] != 0
  }

  function UdpVerdict(p: seq<byte>): int
    requires WellSized(p)
  {
    var hl := HeaderLength(p);
    if !HasChecksum(p) then 0
    else if Rep(ReceivedSum(p)) != 0xffff then -2
    else 0
  }

  lemma OverlaySum(proto: byte, ulen: seq<byte>, saddr: Nid32, daddr: Nid32)
    requires |ulen| == 2
    ensures WordSum(Overlay(proto, ulen, saddr, daddr)) == PseudoSum(proto, ulen, saddr, daddr)
  {
    var z := [0, 0, 0, 0, 0, 0, 0, 0, 0, proto];
    WordSumAppend(z + ulen + saddr, daddr);
    WordSumAppend(z + ulen, saddr);
    WordSumAppend(z, ulen);
    ZerosSum(8, [0, proto]);
    assert z == seq(8, _ => 0) + [0, proto];
    assert [0, proto][2..] == [];
  }

  lemma {:induction false} ZerosSum(n: nat, s: seq<byte>)
    requires n % 2 == 0
    ensures WordSum(seq<byte>(n, _ => 0) + s) == WordSum(s)
  {
    if n == 0 {
      assert seq<byte>(0, _ => 0) + s == s;
    } else {
      ZerosSum(n - 2, s);
      assert (seq<byte>(n, _ => 0) + s)[2..] == seq<byte>(n - 2, _ => 0) + s;
    }
  }

  /** Filling in a checksum field adds its value to the word sum. */
  lemma FieldAdds(before: seq<byte>, sum: u16, after: seq<byte>)
    requires |before| % 2 == 0
    ensures WordSum(before + Le16(sum) + after) == WordSum(before + Le16(0) + after) + sum
  {
    forall x: u16
      ensures WordSum(before + Le16(x) + after) == WordSum(before) + x + WordSum(after)
    {
      WordSumAppend(before + Le16(x), after);
      WordSumAppend(before, Le16(x));
      assert Le16(x)[2..] == [];
    }
  }

  /** The complemented field completes any positive sum to a multiple of 0xffff. */
  lemma FieldCompletes(n: nat)
    requires n > 0
    ensures Rep(n + FieldFor(n)) == 0xffff
    ensures Rep(n + UdpField(n)) == 0xffff && UdpField(n) != 0
  {
    var q := (n - 1) / MODULUS;
    assert n + FieldFor(n) == (q + 1) * MODULUS;
    RepFull(n + FieldFor(n));
    if FieldFor(n) == 0 {
      assert n + 0xffff == (q + 2) * MODULUS;
      RepFull(n + 0xffff);
    }
  }

  // ----- generator -----

  class UdpIp {
    /** The identification of the next packet. */
    var ipId: u16

    constructor (id: u16)
      ensures ipId == id
    {
      ipId := id;
    }

    /** Frames the `msglen` payload bytes that already stand behind the two headers. */
    method Udpipgen(b: array<byte>, f: Flow, msglen: u16)
      requires msglen + IP_HEADER + UDP_HEADER <= 0xffff
      requires msglen + IP_HEADER + UDP_HEADER <= b.Length
      modifies this, b
      ensures b[..] == Packet(f, old(ipId), old(b[28..28 + msglen])) + old(b[28 + msglen..])
      ensures ipId == (old(ipId) + 1) % 0x1_0000
    {
      ghost var payload := b[28..28 + msglen];
      LayUdpHeader(b, f, msglen);
      ghost var udp := b[20..28];
      LayIpHeader(b, f, msglen + 28);
      assert b[20..28] == udp && b[28..28 + msglen] == payload;
      assert b[28 + msglen..] == old(b[28 + msglen..]);
      assert b[..] == b[..20] + (b[20..28] + b[28..28 + msglen]) + b[28 + msglen..];
    }

    /** The UDP header with the checksum over pseudo-header and datagram. */
    static method LayUdpHeader(b: array<byte>, f: Flow, msglen: u16)
      requires msglen + 28 <= 0xffff && msglen + 28 <= b.Length
      modifies b
      ensures b[20..28] == UdpHeader(f.sport, f.dport, msglen + UDP_HEADER, UdpField(DatagramSum(f, old(b[28..28 + msglen]))))
      ensures forall i | 28 <= i < b.Length :: b[i] == old(b[i])
    {
      ghost var payload := b[28..28 + msglen];
      var ulen: u16 := msglen + UDP_HEADER;
      Store(b, 0, Overlay(IPPROTO_UDP, Be16(ulen), f.saddr, f.daddr));
      Store(b, 20, UdpHeader(f.sport, f.dport, ulen, 0));
      OverlaySum(IPPROTO_UDP, Be16(ulen), f.saddr, f.daddr);
      ghost var overlay, datagram := Overlay(IPPROTO_UDP, Be16(ulen), f.saddr, f.daddr), UdpHeader(f.sport, f.dport, ulen, 0) + payload;
      assert b[0..20] == overlay;
      assert b[0..0 + (msglen + 28)] == overlay + datagram;
      WordSumAppend(overlay, datagram);
      assert WordSum(b[0..0 + (msglen + 28)]) == DatagramSum(f, payload);
      var usum := InCksum(b, 0, msglen + 28);
      if usum == 0 {
        usum := 0xffff;
      }
      assert usum == UdpField(DatagramSum(f, payload));
      ghost var ports := Be16(f.sport) + Be16(f.dport) + Be16(ulen);
      assert b[20..26] == b[20..28][..6] == ports;
      Store(b, 26, Le16(usum));
      assert b[20..28] == b[20..26] + b[26..28] == ports + Le16(usum);
    }

    /** The IP header, built in a local copy because the buffer is not aligned. */
    method LayIpHeader(b: array<byte>, f: Flow, total: u16)
      requires b.Length >= 28
      modifies this, b
      ensures b[..20] == IpHeader(total, old(ipId), FieldFor(WordSum(IpHeader(total, old(ipId), 0, f.saddr, f.daddr))), f.saddr, f.daddr)
      ensures forall i | 20 <= i < b.Length :: b[i] == old(b[i])
      ensures ipId == (old(ipId) + 1) % 0x1_0000
    {
      var ip := new byte[20];
      var id := ipId;
      var header := IpHeader(total, id, 0, f.saddr, f.daddr);
      Store(ip, 0, header);
      ipId := (ipId + 1) % 0x1_0000;
      Store(b, 0, header);
      var isum := InCksum(ip, 0, 20);
      Store(b, 0, IpHeader(total, id, isum, f.saddr, f.daddr));
    }
  }

  // ----- checker -----

  /** Checks a received datagram; with IP options the header is first moved up against the UDP header. */
  method Udpipchk(b: array<byte>) returns (r: int)
    requires WellSized(b[..])
    modifies b
    ensures r == Verdict(old(b[..]))
    ensures r != -2 && HeaderLength(old(b[..])) == IP_HEADER ==> b[..] == old(b[..])
    ensures forall i | HeaderLength(old(b[..])) <= i < b.Length :: b[i] == old(b[i])
    ensures r == -1 ==> b[..] == old(b[..])
    ensures r == 0 && HasChecksum(old(b[..])) ==> b[..20] == old(b[..20])
  {
    var hl: nat := 4 * (b[0] % 16);
    var sum := InCksum(b, 0, hl);
    assert b[0..0 + hl] == b[..][..hl];
    if sum != 0 {
      return -1;
    }
    r := CheckDatagram(b, hl);
  }

  /** The part of the check behind the IP header's own sum. */
  method CheckDatagram(b: array<byte>, hl: nat) returns (r: int)
    requires WellSized(b[..]) && hl == HeaderLength(b[..])
    modifies b
    ensures r == UdpVerdict(old(b[..]))
    ensures r != -2 && hl == IP_HEADER ==> b[..] == old(b[..])
    ensures r == 0 && HasChecksum(old(b[..])) ==> b[..20] == old(b[..20])
    ensures forall i | hl <= i < b.Length :: b[i] == old(b[i])
  {
    hide WordSum, PseudoSum, Rep;
    ghost var p := b[..];
    var saveIp := b[..20];
    var n: nat := hl - 20;
    if n != 0 {
      Store(b, n, saveIp);
    }
    assert b[n..n + 20] == p[..20] by {
      assert b[n..n + |saveIp|] == saveIp;
    }
    if b[n + 26] == 0 && b[n + 27] == 0 {
      return 0;
    }
    ghost var q := b[..];
    assert q[n + 20..] == p[n + 20..];
    Relocated(p, q, n);
    assert b[n + 24..n + 26] == q[n + 24..n + 26];
    var sum := OverlaySumAt(b, n);
    assert sum == 0xffff - Rep(ReceivedSum(p));
    if sum != 0 {
      return -2;
    }
    Store(b, 0, saveIp);
    return 0;
  }

  /** Where the checker finds the fields once the header stands right before the UDP header. */
  lemma Relocated(p: seq<byte>, q: seq<byte>, n: nat)
    requires WellSized(p) && |q| == |p| && n == HeaderLength(p) - 20
    requires q[n..n + 20] == p[..20] && q[n + 20..] == p[n + 20..]
    ensures q[n + 9] == p[9] && q[n + 24..n + 26] == p[n + 24..n + 26]
    ensures q[n + 12..n + 16] == p[12..16] && q[n + 16..n + 20] == p[16..20]
    ensures q[n + 20..n + 20 + UdpLength(p)] == p[n + 20..n + 20 + UdpLength(p)]
  {
    assert forall i | 0 <= i < 20 :: q[n + i] == q[n..n + 20][i] == p[i];
    assert forall i | n + 20 <= i < |p| :: q[i] == q[n + 20..][i - (n + 20)] == p[i];
    assert forall i | 12 <= i < 20 :: q[n + i] == p[i];
  }

  /** Turns the IP header at `n` into the pseudo-header and sums it with the datagram behind it. */
  method OverlaySumAt(b: array<byte>, n: nat) returns (sum: u16)
    requires n + 28 <= b.Length <= 0xffff
    requires n + 20 + FromBe16(b[n + 24..n + 26]) <= b.Length
    modifies b
    ensures sum == 0xffff - Rep(old(PseudoSum(b[n + 9], b[n + 24..n + 26], b[n + 12..n + 16], b[n + 16..n + 20])
                                    + WordSum(b[n + 20..n + 20 + FromBe16(b[n + 24..n + 26])])))
    ensures forall i | 0 <= i < b.Length && !(n <= i < n + 12) :: b[i] == old(b[i])
  {
    hide WordSum, PseudoSum, Rep, Overlay;
    var ulen := b[n + 24..n + 26];
    var len: nat := FromBe16(ulen) + 20;
    ghost var proto, saddr, daddr, datagram := b[n + 9], b[n + 12..n + 16], b[n + 16..n + 20], b[n + 20..n + len];
    LayOverlay(b, n, ulen);
    assert b[n + 20..n + len] == datagram;
    Joined(b[..], n, n + 20, n + len);
    OverlaySum(proto, ulen, saddr, daddr);
    WordSumAppend(Overlay(proto, ulen, saddr, daddr), datagram);
    sum := InCksum(b, n, len);
  }

  lemma Joined(s: seq<byte>, i: nat, j: nat, k: nat)
    requires i <= j <= k <= |s|
    ensures s[i..k] == s[i..j] + s[j..k]
  {
  }

  /** The in-place edit: clear what precedes the protocol, copy the UDP length behind it. */
  method LayOverlay(b: array<byte>, n: nat, ulen: seq<byte>)
    requires n + 20 <= b.Length && |ulen| == 2
    modifies b
    ensures b[n..n + 20] == old(Overlay(b[n + 9], ulen, b[n + 12..n + 16], b[n + 16..n + 20]))
    ensures forall i | 0 <= i < b.Length && !(n <= i < n + 12) :: b[i] == old(b[i])
    ensures b[n + 9] == old(b[n + 9])
  {
    Store(b, n, [0, 0, 0, 0, 0, 0, 0, 0, 0]);
    Store(b, n + 10, ulen);
  }

  // ----- generator against checker -----

  /** Where the fields of a generated packet lie; `any` stands for the payload that arrives. */
  lemma PacketFields(f: Flow, id: u16, sent: seq<byte>, any: seq<byte>)
    requires |sent| == |any| && |sent| + IP_HEADER + UDP_HEADER <= 0xffff
    ensures var p := Packet(f, id, sent)[..28] + any; var ulen := |sent| + UDP_HEADER;
            && WellSized(p) && HeaderLength(p) == IP_HEADER && UdpLength(p) == ulen
            && p[..20] == Packet(f, id, sent)[..20]
            && p[9] == IPPROTO_UDP && p[24..26] == Be16(ulen) && p[12..16] == f.saddr && p[16..20] == f.daddr
            && p[26..28] == Le16(UdpField(DatagramSum(f, sent)))
            && p[20..20 + ulen] == UdpHeader(f.sport, f.dport, ulen, UdpField(DatagramSum(f, sent))) + any
  {
    hide WordSum, DatagramSum, FieldFor;
    var p := Packet(f, id, sent)[..28] + any;
    var ulen := |sent| + UDP_HEADER;
    var u := UdpHeader(f.sport, f.dport, ulen, UdpField(DatagramSum(f, sent)));
    var h := Packet(f, id, sent)[..20];
    assert Packet(f, id, sent)[..28] == h + u;
    assert p == h + u + any && p[20..20 + ulen] == u + any;
    assert h[0] == 0x45 && h[9] == IPPROTO_UDP && h[12..16] == f.saddr && h[16..20] == f.daddr;
    assert p[12..16] == h[12..16] && p[16..20] == h[16..20];
    assert u[4..6] == Be16(ulen) && p[24..26] == u[4..6];
    assert p[26..28] == u[6..8];
  }

  /** The header sum of a generated packet is a positive multiple of 0xffff. */
  lemma HeaderAccepted(f: Flow, id: u16, payload: seq<byte>)
    requires |payload| + IP_HEADER + UDP_HEADER <= 0xffff
    ensures Rep(WordSum(Packet(f, id, payload)[..20])) == 0xffff
  {
    var total := |payload| + IP_HEADER + UDP_HEADER;
    var before := [0x45, 0] + Be16(total) + Be16(id) + [0, 0, IPDEFTTL, IPPROTO_UDP];
    var n := WordSum(IpHeader(total, id, 0, f.saddr, f.daddr));
    assert IpHeader(total, id, 0, f.saddr, f.daddr) == before + Le16(0) + (f.saddr + f.daddr);
    assert IpHeader(total, id, FieldFor(n), f.saddr, f.daddr) == before + Le16(FieldFor(n)) + (f.saddr + f.daddr);
    FieldAdds(before, FieldFor(n), f.saddr + f.daddr);
    assert n >= 0x45;
    FieldCompletes(n);
    assert Packet(f, id, payload)[..20] == IpHeader(total, id, FieldFor(n), f.saddr, f.daddr);
  }

  /** The sum the checker forms when payload `any` arrives under the headers made for `sent`. */
  lemma ArrivedSum(f: Flow, id: u16, sent: seq<byte>, any: seq<byte>)
    requires |sent| == |any| && |sent| + IP_HEADER + UDP_HEADER <= 0xffff
    ensures var p := Packet(f, id, sent)[..28] + any;
            && WellSized(p)
            && ReceivedSum(p) == DatagramSum(f, sent) + UdpField(DatagramSum(f, sent)) - WordSum(sent) + WordSum(any)
            && DatagramSum(f, sent) >= WordSum(sent)
  {
    hide Packet, WordSum, UdpHeader, UdpField, PseudoSum, WellSized, HeaderLength;
    PacketFields(f, id, sent, any);
    SwappedPayload(f, UdpField(DatagramSum(f, sent)), sent, any);
  }

  lemma SwappedPayload(f: Flow, field: u16, sent: seq<byte>, any: seq<byte>)
    requires |sent| == |any| && |sent| + UDP_HEADER <= 0xffff
    ensures var ulen := |sent| + UDP_HEADER;
            && WordSum(UdpHeader(f.sport, f.dport, ulen, field) + any)
               == WordSum(UdpHeader(f.sport, f.dport, ulen, 0) + sent) + field - WordSum(sent) + WordSum(any)
            && WordSum(UdpHeader(f.sport, f.dport, ulen, 0) + sent) >= WordSum(sent)
  {
    hide WordSum, UdpHeader;
    var ulen := |sent| + UDP_HEADER;
    WordSumAppend(UdpHeader(f.sport, f.dport, ulen, field), any);
    WordSumAppend(UdpHeader(f.sport, f.dport, ulen, 0), sent);
    UdpFieldAdds(f.sport, f.dport, ulen, field);
  }

  lemma UdpFieldAdds(sport: u16, dport: u16, ulen: u16, sum: u16)
    ensures WordSum(UdpHeader(sport, dport, ulen, sum)) == WordSum(UdpHeader(sport, dport, ulen, 0)) + sum
  {
    hide WordSum;
    var ports := Be16(sport) + Be16(dport) + Be16(ulen);
    FieldAdds(ports, sum, []);
    assert ports + Le16(sum) + [] == UdpHeader(sport, dport, ulen, sum);
    assert ports + Le16(0) + [] == UdpHeader(sport, dport, ulen, 0);
  }

  /**
   Whatever arrives in place of the payload is accepted exactly when its word sum agrees with
   that of the payload sent, modulo 0xffff; the header's own check cannot fail.
   */
  lemma PayloadVerdict(f: Flow, id: u16, sent: seq<byte>, any: seq<byte>)
    requires |sent| == |any| && |sent| + IP_HEADER + UDP_HEADER <= 0xffff
    ensures var p := Packet(f, id, sent)[..28] + any;
            WellSized(p) && Verdict(p) == if (WordSum(any) - WordSum(sent)) % MODULUS == 0 then 0 else -2
  {
    hide Packet, WordSum, Rep, UdpField, DatagramSum, UdpHeader, ReceivedSum, WellSized, Verdict;
    var p := Packet(f, id, sent)[..28] + any;
    ArrivedSum(f, id, sent, any);
    HeadersAccepted(f, id, sent, any);
    DatagramSumPositive(f, sent);
    CompletedShift(DatagramSum(f, sent), WordSum(any) - WordSum(sent));
  }

  /** The generated headers leave the verdict to the sum over pseudo-header and datagram. */
  lemma HeadersAccepted(f: Flow, id: u16, sent: seq<byte>, any: seq<byte>)
    requires |sent| == |any| && |sent| + IP_HEADER + UDP_HEADER <= 0xffff
    ensures var p := Packet(f, id, sent)[..28] + any;
            WellSized(p) && Verdict(p) == if Rep(ReceivedSum(p)) != 0xffff then -2 else 0
  {
    hide Packet, WordSum, Rep, UdpField, DatagramSum, UdpHeader, ReceivedSum, WellSized;
    var p := Packet(f, id, sent)[..28] + any;
    PacketFields(f, id, sent, any);
    HeaderAccepted(f, id, sent);
    DatagramSumPositive(f, sent);
    FieldCompletes(DatagramSum(f, sent));
    assert p[26] == p[26..28][0] && p[27] == p[26..28][1];
  }

  lemma DatagramSumPositive(f: Flow, payload: seq<byte>)
    requires |payload| + UDP_HEADER <= 0xffff
    ensures DatagramSum(f, payload) > WordSum(payload)
  {
    WordSumAppend(UdpHeader(f.sport, f.dport, |payload| + UDP_HEADER, 0), payload);
  }

  /** A completed sum that moves by `x` stays complete just when `x` is a multiple of 0xffff. */
  lemma CompletedShift(d: nat, x: int)
    requires d > 0 && d + x > 0
    ensures Rep(d + UdpField(d) + x) == 0xffff <==> x % MODULUS == 0
  {
    FieldCompletes(d);
    RepFull(d + UdpField(d));
    RepFull(d + UdpField(d) + x);
    var q := (d + UdpField(d)) / MODULUS;
    assert d + UdpField(d) == q * MODULUS;
  }

  /** Every generated packet passes the check. */
  lemma GeneratedPasses(f: Flow, id: u16, payload: seq<byte>)
    requires |payload| + IP_HEADER + UDP_HEADER <= 0xffff
    ensures WellSized(Packet(f, id, payload)) && Verdict(Packet(f, id, payload)) == 0
  {
    assert Packet(f, id, payload) == Packet(f, id, payload)[..28] + payload;
    PayloadVerdict(f, id, payload, payload);
  }

  /** Changing one aligned payload word goes unnoticed only if 0x0000 and 0xffff were swapped. */
  lemma WordTampering(f: Flow, id: u16, before: seq<byte>, w: u16, w': u16, after: seq<byte>)
    requires |before| % 2 == 0 && |before| + 2 + |after| + IP_HEADER + UDP_HEADER <= 0xffff
    ensures var p := Packet(f, id, before + Le16(w) + after)[..28] + (before + Le16(w') + after);
            WellSized(p) && Verdict(p) == if w == w' || {w, w'} == {0, 0xffff} then 0 else -2
  {
    hide Packet, WordSum, Verdict, WellSized;
    PayloadVerdict(f, id, before + Le16(w) + after, before + Le16(w') + after);
    ChangedWord(before, w, w', after);
    SameResidue(w, w');
  }

  lemma ChangedWord(before: seq<byte>, w: u16, w': u16, after: seq<byte>)
    requires |before| % 2 == 0
    ensures WordSum(before + Le16(w') + after) - WordSum(before + Le16(w) + after) == w' - w
  {
    hide WordSum;
    FieldAdds(before, w, after);
    FieldAdds(before, w', after);
  }

  lemma SameResidue(w: u16, w': u16)
    ensures (w' - w) % MODULUS == 0 <==> w == w' || {w, w'} == {0, 0xffff}
  {
    if {w, w'} == {0, 0xffff} {
      assert 0 in {w, w'} && 0xffff in {w, w'};
    }
  }

  /** A payload of odd length whose last byte arrives changed is noticed, always. */
  lemma LastByteTampering(f: Flow, id: u16, before: seq<byte>, x: byte, y: byte)
    requires |before| % 2 == 0 && |before| + 1 + IP_HEADER + UDP_HEADER <= 0xffff
    ensures var p := Packet(f, id, before + [x])[..28] + (before + [y]);
            WellSized(p) && Verdict(p) == if x == y then 0 else -2
  {
    hide Packet, WordSum, Verdict, WellSized;
    PayloadVerdict(f, id, before + [x], before + [y]);
    OddPadded(before, x);
    OddPadded(before, y);
  }

  // ----- against the standards -----

  /** Where RFC 791, section 3.1, and RFC 768 have the fields of a packet. */
  lemma PacketLayout(f: Flow, id: u16, payload: seq<byte>)
    requires |payload| + 28 <= 0xffff
    ensures var p := Packet(f, id, payload);
            && |p| == 28 + |payload|
            && p[0] == 0x45 && p[1] == 0 && p[2..4] == Be16(28 + |payload|) && p[4..6] == Be16(id)
            && p[6] == p[7] == 0 && p[8] == 64 && p[9] == 17 && p[12..16] == f.saddr && p[16..20] == f.daddr
            && p[20..22] == Be16(f.sport) && p[22..24] == Be16(f.dport) && p[24..26] == Be16(8 + |payload|)
            && p[28..] == payload
  {
    hide WordSum, DatagramSum, FieldFor;
  }

  /** The sum behind the UDP checksum is that of the pseudo-header of RFC 768, addresses first, and the datagram. */
  lemma SumOfStandard(f: Flow, payload: seq<byte>)
    requires |payload| + 8 <= 0xffff
    ensures var ulen := Be16(8 + |payload|);
            DatagramSum(f, payload) ==
            WordSum(f.saddr + f.daddr + [0, 17] + ulen + (Be16(f.sport) + Be16(f.dport) + ulen + [0, 0] + payload))
  {
    hide WordSum;
    var ulen: u16 := 8 + |payload|;
    var datagram := Be16(f.sport) + Be16(f.dport) + Be16(ulen) + [0, 0] + payload;
    assert datagram == UdpHeader(f.sport, f.dport, ulen, 0) + payload;
    PseudoOfStandard(f.saddr, f.daddr, 17, Be16(ulen), datagram);
  }

  /** The same for what the checker sums in a packet that arrives. */
  lemma ReceivedSumOfStandard(p: seq<byte>)
    requires WellSized(p)
    ensures var hl := 4 * (p[0] % 16); var ulen := FromBe16(p[hl + 4..hl + 6]);
            ReceivedSum(p) == WordSum(p[12..16] + p[16..20] + [0, p[9]] + p[hl + 4..hl + 6] + p[hl..hl + ulen])
  {
    hide WordSum;
    var hl := HeaderLength(p);
    PseudoOfStandard(p[12..16], p[16..20], p[9], p[hl + 4..hl + 6], p[hl..hl + UdpLength(p)]);
  }

  lemma PseudoOfStandard(saddr: Nid32, daddr: Nid32, proto: byte, ulen: seq<byte>, datagram: seq<byte>)
    requires |ulen| == 2
    ensures WordSum(saddr + daddr + [0, proto] + ulen + datagram) == PseudoSum(proto, ulen, saddr, daddr) + WordSum(datagram)
  {
    WordSumAppend(saddr + daddr + [0, proto] + ulen, datagram);
    WordSumAppend(saddr + daddr + [0, proto], ulen);
    WordSumAppend(saddr + daddr, [0, proto]);
    WordSumAppend(saddr, daddr);
    assert [0, proto][2..] == [];
    hide WordSum;
    assert WordSum([0, proto]) == 256 * (proto as int);
  }

  /** A packet with word `k` of its IP header replaced. */
  function WithWord(p: seq<byte>, k: nat, w: u16): (q: seq<byte>)
    requires 2 * k + 2 <= |p|
    ensures |q| == |p|
  {
    p[..2 * k] + Le16(w) + p[2 * k + 2..]
  }

  /** Changing one word of a generated IP header other than the first is noticed unless 0x0000 and 0xffff were swapped. */
  lemma HeaderTampering(f: Flow, id: u16, payload: seq<byte>, k: nat, w: u16, w': u16)
    requires |payload| + 28 <= 0xffff && 1 <= k <= 9
    requires Packet(f, id, payload)[2 * k..2 * k + 2] == Le16(w)
    ensures var q := WithWord(Packet(f, id, payload), k, w');
            WellSized(q) && (Verdict(q) == -1 <==> !(w == w' || {w, w'} == {0, 0xffff}))
  {
    hide Packet, Le16, WordSum, WellSized, UdpVerdict, Rep, WithWord;
    var p := Packet(f, id, payload);
    var q := WithWord(p, k, w');
    PacketLayout(f, id, payload);
    SameSizes(p, q, k, w');
    HeaderAccepted(f, id, payload);
    WordInHeader(p, q, k, w, w');
    SameResidue(w, w');
    RepFull(WordSum(p[..20]));
    RepFull(WordSum(q[..20]));
  }

  lemma WordInHeader(p: seq<byte>, q: seq<byte>, k: nat, w: u16, w': u16)
    requires |p| >= 28 && 1 <= k <= 9 && p[2 * k..2 * k + 2] == Le16(w) && q == WithWord(p, k, w') && q[0] == 0x45
    ensures WordSum(q[..20]) == WordSum(p[..20]) - w + w' && WordSum(q[..20]) > 0
  {
    hide WordSum;
    assert p[..20][2 * k..2 * k + 2] == p[2 * k..2 * k + 2];
    assert q[..20] == WithWord(p[..20], k, w');
    HeaderWord(p[..20], q[..20], k, w, w');
  }

  lemma SameSizes(p: seq<byte>, q: seq<byte>, k: nat, w: u16)
    requires 28 <= |p| <= 0xffff && p[0] == 0x45 && p[24..26] == Be16(|p| - 20) && 1 <= k <= 9 && q == WithWord(p, k, w)
    ensures WellSized(q) && HeaderLength(q) == 20 && q[0] == 0x45 && UdpVerdict(q) != -1
  {
    assert q[24] == p[24] && q[25] == p[25];
    assert q[24..26] == p[24..26];
  }

  lemma HeaderWord(h: seq<byte>, h': seq<byte>, k: nat, w: u16, w': u16)
    requires |h| == |h'| == 20 && 1 <= k <= 9 && h[2 * k..2 * k + 2] == Le16(w) && h' == WithWord(h, k, w') && h'[0] == 0x45
    ensures WordSum(h') == WordSum(h) - w + w' && WordSum(h') > 0
  {
    var before, after := h[..2 * k], h[2 * k + 2..];
    assert h == before + Le16(w) + after;
    FieldAdds(before, w, after);
    FieldAdds(before, w', after);
  }

  /** A datagram sent without a checksum is accepted whatever it carries. */
  lemma UncheckedAccepted(f: Flow, id: u16, payload: seq<byte>, any: seq<byte>)
    requires |payload| + 28 <= 0xffff && |any| == |payload|
    ensures var q := Packet(f, id, payload)[..26] + [0, 0] + any;
            WellSized(q) && Verdict(q) == 0
  {
    var p := Packet(f, id, payload);
    var q := p[..26] + [0, 0] + any;
    PacketLayout(f, id, payload);
    HeaderAccepted(f, id, payload);
    hide Packet, WordSum, ReceivedSum, Verdict;
    assert q[..20] == p[..20] && q[24..26] == p[24..26];
    UncheckedVerdict(q);
  }

  lemma UncheckedVerdict(q: seq<byte>)
    requires WellSized(q) && HeaderLength(q) == 20 && q[26] == q[27] == 0 && Rep(WordSum(q[..20])) == 0xffff
    ensures Verdict(q) == 0
  {
  }
}
