/** The one's-complement checksum of RFC 1071 as the client computes it, on a little-endian host. */
module Checksum {
  import opened Bytes

  const MODULUS := 0xffff

  /** The sum of the native 16-bit words of a buffer; an odd last byte stands alone. */
  function WordSum(s: seq<byte>): nat {
    if s == [] then 0
    else if |s| == 1 then s[0]
    else (s[0] as int) + 256 * (s[1] as int) + WordSum(s[2..])
  }

  /** The representative of `n` modulo 0xffff in 1..0xffff, or 0 for 0 itself. */
  function Rep(n: nat): u16 {
    if n == 0 then 0 else 1 + (n - 1) % MODULUS
  }

  lemma RepUnique(n: nat, r: u16)
    requires n > 0 && r > 0 && (n - r) % MODULUS == 0
    ensures r == Rep(n)
  {
    var q := (n - r) / MODULUS;
    assert n - 1 == q * MODULUS + (r - 1);
  }

  /** A buffer's checksum is zero just when its word sum is a positive multiple of 0xffff. */
  lemma RepFull(n: nat)
    ensures Rep(n) == MODULUS <==> n > 0 && n % MODULUS == 0
  {
  }

  lemma {:induction false} WordSumAppend(a: seq<byte>, b: seq<byte>)
    requires |a| % 2 == 0
    ensures WordSum(a + b) == WordSum(a) + WordSum(b)
  {
    if a == [] {
      assert a + b == b;
    } else {
      assert (a + b)[2..] == a[2..] + b;
      WordSumAppend(a[2..], b);
    }
  }

  /** An odd last byte counts as a word of its own, as if a zero byte followed it. */
  lemma OddPadded(front: seq<byte>, last: byte)
    requires |front| % 2 == 0
    ensures WordSum(front + [last]) == WordSum(front + [last, 0]) == WordSum(front) + last
  {
    SmallSums(last);
    hide WordSum;
    WordSumAppend(front, [last]);
    WordSumAppend(front, [last, 0]);
  }

  /** The padding of RFC 1071, section 2: a buffer of odd length sums as with a zero byte behind it. */
  lemma PaddedSum(s: seq<byte>)
    requires |s| % 2 == 1
    ensures WordSum(s) == WordSum(s + [0])
  {
    hide WordSum;
    var n := |s| - 1;
    assert n % 2 == 0;
    var front := s[..n];
    assert front + [s[n]] == s && front + [s[n], 0] == s + [0];
    OddPadded(front, s[n]);
  }

  lemma SmallSums(x: byte)
    ensures WordSum([x]) == x && WordSum([x, 0]) == x
  {
    assert [x, 0][2..] == [];
  }

  /** Up to 65536 bytes the word sum stays far below the limit of a signed 32-bit accumulator. */
  lemma {:induction false} WordSumBound(s: seq<byte>)
    ensures WordSum(s) <= 0xffff * ((|s| + 1) / 2)
  {
    if |s| > 1 {
      WordSumBound(s[2..]);
    }
  }

  /** Two folds of a non-negative 31-bit sum, complemented and cut to 16 bits. */
  lemma TwoFolds(sum: int32, s1: int, s2: int)
    requires sum >= 0 && s1 == sum / 0x1_0000 + sum % 0x1_0000 && s2 == s1 + s1 / 0x1_0000
    ensures 0 <= s1 <= s2 < 0x2_0000
    ensures (-1 - s2) % 0x1_0000 == 0xffff - Rep(sum)
  {
    var low := if s1 < 0x1_0000 then s1 else s1 - 0xffff;
    assert sum - s1 == (sum / 0x1_0000) * MODULUS;
    if sum > 0 {
      RepUnique(sum, low);
    }
    assert s2 % 0x1_0000 == low;
  }

  /** The summing loop; `sum` never leaves the 32-bit range for buffers of up to 65536 bytes. */
  method InCksum(b: array<byte>, off: nat, len: nat) returns (r: u16)
    requires off + len <= b.Length && len <= 65536
    ensures r == 0xffff - Rep(WordSum(b[off..off + len]))
  {
    var sum: int32 := 0;
    var w, nleft := off, len;
    ghost var total := WordSum(b[off..off + len]);
    WordSumBound(b[off..off + len]);
    while nleft > 1
      invariant 0 <= nleft <= len && w + nleft == off + len && (w - off) % 2 == 0
      invariant sum >= 0
      invariant sum + WordSum(b[w..off + len]) == total
    {
      assert b[w..off + len][2..] == b[w + 2..off + len];
      sum := sum + ((b[w] as int) + 256 * (b[w + 1] as int));
      w, nleft := w + 2, nleft - 2;
    }
    if nleft == 1 {
      assert b[w..off + len] == [b[w]];
      sum := sum + b[w];
    } else {
      assert b[w..off + len] == [];
    }
    assert sum == total;
    var s1: int32 := sum / 0x1_0000 + sum % 0x1_0000;
    var s2: int32 := s1 + s1 / 0x1_0000;
    TwoFolds(sum, s1, s2);
    r := (-1 - s2) % 0x1_0000;
  }
}
