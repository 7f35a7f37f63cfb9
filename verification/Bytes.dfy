/** Bytes, identifiers and the option type shared by every component. */
module Bytes {

  type byte = b: int | 0 <= b < 256

  /** A 16-byte node identifier. */
  type Nid = s: seq<byte> | |s| == 16 witness seq(16, _ => 0)

  /** A 32-bit identifier or locator in network byte order. */
  type Nid32 = s: seq<byte> | |s| == 4 witness seq(4, _ => 0)

  type u16 = x: int | 0 <= x < 0x1_0000

  type u32 = x: int | 0 <= x < 0x1_0000_0000

  type int32 = x: int | -0x8000_0000 <= x < 0x8000_0000

  datatype Option<+T> = None | Some(value: T)

  /** Network byte order. */
  function Be16(x: u16): (s: seq<byte>)
    ensures |s| == 2
  {
    [x / 256, x % 256]
  }

  function FromBe16(s: seq<byte>): u16
    requires |s| == 2
  {
    256 * (s[0] as int) + s[1]
  }

  function Be32(x: u32): (s: Nid32) {
    Be16(x / 0x1_0000) + Be16(x % 0x1_0000)
  }

  function FromBe32(s: seq<byte>): u32
    requires |s| == 4
  {
    0x1_0000 * (FromBe16(s[..2]) as int) + FromBe16(s[2..])
  }

  /** Most significant byte first. */
  lemma BigEndian(s: Nid32)
    ensures FromBe32(s) == 0x100_0000 * (s[0] as int) + 0x1_0000 * (s[1] as int) + 0x100 * (s[2] as int) + s[3]
    ensures forall x: u16 :: 0x100 * (Be16(x)[0] as int) + Be16(x)[1] == x
    ensures forall x: u16 :: (Le16(x)[0] as int) + 0x100 * (Le16(x)[1] as int) == x
  {
  }

  lemma Be32RoundTrip(x: u32)
    ensures FromBe32(Be32(x)) == x
  {
    assert Be32(x)[..2] == Be16(x / 0x1_0000) && Be32(x)[2..] == Be16(x % 0x1_0000);
  }

  /** The byte order of the host, least significant byte first. */
  function Le16(x: u16): (s: seq<byte>)
    ensures |s| == 2
  {
    [x % 256, x / 256]
  }

  /** Copies `bytes` into `b` at offset `off`. */
  method Store(b: array<byte>, off: nat, bytes: seq<byte>)
    requires off + |bytes| <= b.Length
    modifies b
    ensures forall i | 0 <= i < |bytes| :: b[off + i] == bytes[i]
    ensures forall i | 0 <= i < b.Length && !(off <= i < off + |bytes|) :: b[i] == old(b[i])
    ensures b[off..off + |bytes|] == bytes
  {
    forall i | 0 <= i < |bytes| {
      b[off + i] := bytes[i];
    }
  }
}
