/** The guess of a route's mask from a network address alone. */
module GenMask {
  import opened Bits
  import opened Bytes

  /** The host width of an address's class; none outside classes A, B and C. */
  function HostWidth(p: u32): nat {
    if p < 0x8000_0000 then 24 else if p < 0xc000_0000 then 16 else if p < 0xe000_0000 then 8 else 0
  }

  /** `k` is the largest number of host bits, within the class, that are all zero in `p`. */
  ghost predicate IsWidest(p: u32, k: nat) {
    && k <= HostWidth(p) && p % Pow2(k) == 0
    && forall j | k < j <= HostWidth(p) :: p % Pow2(j) != 0
  }

  /** The mask leaves exactly as many host bits as the address and its class allow. */
  method GetGenMask(p: u32) returns (mask: u32)
    ensures exists k: nat :: IsWidest(p, k) && mask == 0x1_0000_0000 - Pow2(k)
  {
    Pow2Values();
    var t: u32;
    if p < 0x8000_0000 {
      t := 0xff_ffff;
    } else if p < 0xc000_0000 {
      t := 0xffff;
    } else if p < 0xe000_0000 {
      t := 0xff;
    } else {
      t := 0;
    }
    ghost var k: nat := HostWidth(p);
    while BitAnd(t, p) != 0
      invariant k <= HostWidth(p) && t == Pow2(k) - 1
      invariant forall j | k < j <= HostWidth(p) :: p % Pow2(j) != 0
      decreases t
    {
      LowOnes(k, p);
      t := t / 2;
      k := k - 1;
    }
    LowOnes(k, p);
    assert IsWidest(p, k);
    mask := 0xffff_ffff - t;
  }
}
