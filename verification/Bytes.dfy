/** Octets, 32-bit integers and their network byte order. */
module Bytes {

  type Byte = x: int | 0 <= x < 0x100
  type UInt32 = x: int | 0 <= x < 0x1_0000_0000

  const INT32_LIMIT := 0x8000_0000

  /** The value of a C++ `(int)x` cast. */
  function AsInt32(x: int): int {
    var low := x % 0x1_0000_0000;
    if low < INT32_LIMIT then low else low - 0x1_0000_0000
  }

  /** The octets of `htonl(n)` in memory order. */
  function BigEndian32(n: UInt32): (s: seq<Byte>)
    ensures |s| == 4
  {
    [n / 0x100_0000, n / 0x1_0000 % 0x100, n / 0x100 % 0x100, n % 0x100]
  }

  function FromBigEndian32(s: seq<Byte>): UInt32
    requires |s| == 4
  {
    var b0: int, b1: int, b2: int, b3: int := s[0], s[1], s[2], s[3];
    b0 * 0x100_0000 + b1 * 0x1_0000 + b2 * 0x100 + b3
  }

  /** The octets of a number read as it, the highest coming first. */
  lemma BigEndian32RoundTrip(n: UInt32)
    ensures FromBigEndian32(BigEndian32(n)) == n
    ensures var s := BigEndian32(n);
      n == s[0] as int * 0x100_0000 + s[1] as int * 0x1_0000 + s[2] as int * 0x100 + s[3] as int
  {
    var high, low := n / 0x1_0000, n % 0x1_0000;
    assert n / 0x100 % 0x100 == low / 0x100;
    assert n % 0x100 == low % 0x100;
    assert high / 0x100 == n / 0x100_0000;
  }

  lemma QuotientAndRemainder(q: int, r: Byte)
    ensures (q * 0x100 + r) / 0x100 == q && (q * 0x100 + r) % 0x100 == r
  {
  }

  lemma FromBigEndian32RoundTrip(s: seq<Byte>)
    requires |s| == 4
    ensures BigEndian32(FromBigEndian32(s)) == s
  {
    var b0: int, b1: int, b2: int := s[0], s[1], s[2];
    var n, n1, n2 := FromBigEndian32(s), (b0 * 0x100 + b1) * 0x100 + b2, b0 * 0x100 + b1;
    QuotientAndRemainder(n1, s[3]);
    QuotientAndRemainder(n2, s[2]);
    QuotientAndRemainder(b0, s[1]);
    assert n == n1 * 0x100 + s[3];
    assert n / 0x1_0000 == n / 0x100 / 0x100 && n / 0x100_0000 == n / 0x1_0000 / 0x100;
  }

  function Pow2(n: nat): nat {
    if n == 0 then 1 else 2 * Pow2(n - 1)
  }

  /** The bitwise exclusive or of the `n` low bits. */
  function XorBits(a: nat, b: nat, n: nat): (r: nat)
    ensures r < Pow2(n)
  {
    if n == 0 then 0 else 2 * XorBits(a / 2, b / 2, n - 1) + (a + b) % 2
  }

  /** C++ `a ^ b` on unsigned char. */
  function Xor(a: Byte, b: Byte): Byte {
    assert Pow2(8) == 0x100;
    XorBits(a, b, 8)
  }

  /** Bit `k`, the lowest being bit 0. */
  function Bit(a: nat, k: nat): nat {
    if k == 0 then a % 2 else Bit(a / 2, k - 1)
  }

  lemma {:induction false} BitOfXor(a: nat, b: nat, n: nat, k: nat)
    requires k < n
    ensures Bit(XorBits(a, b, n), k) == if Bit(a, k) == Bit(b, k) then 0 else 1
  {
    var high, low := XorBits(a / 2, b / 2, n - 1), (a + b) % 2;
    assert (2 * high + low) / 2 == high && (2 * high + low) % 2 == low;
    if k > 0 {
      BitOfXor(a / 2, b / 2, n - 1, k - 1);
    } else {
      SumParity(a, b);
    }
  }

  /** Each bit is set where exactly one of the two has it set. */
  lemma XorIsBitwise(a: Byte, b: Byte, k: nat)
    requires k < 8
    ensures Bit(Xor(a, b), k) == if Bit(a, k) == Bit(b, k) then 0 else 1
  {
    BitOfXor(a, b, 8, k);
  }

  lemma SumParity(a: nat, b: nat)
    ensures (a + b) % 2 == if a % 2 == b % 2 then 0 else 1
  {
  }

  /** Flipping the lowest bit by `b` and again by `b` restores the parity of `a`. */
  lemma FlippedTwice(high: nat, a: nat, b: nat)
    ensures (2 * high + (a + b) % 2) / 2 == high
    ensures (2 * high + (a + b) % 2 + b) % 2 == a % 2
  {
    SumParity(a, b);
    SumParity(2 * high + (a + b) % 2, b);
  }

  lemma {:induction false} XorBitsTwice(a: nat, b: nat, n: nat)
    requires a < Pow2(n)
    ensures XorBits(XorBits(a, b, n), b, n) == a
  {
    if n > 0 {
      var high, low := XorBits(a / 2, b / 2, n - 1), (a + b) % 2;
      FlippedTwice(high, a, b);
      XorBitsTwice(a / 2, b / 2, n - 1);
      assert XorBits(a, b, n) == 2 * high + low;
      XorOfFlipped(high, low, b, n, a % 2);
    }
  }

  lemma XorOfFlipped(high: nat, low: nat, b: nat, n: nat, parity: nat)
    requires n > 0 && (2 * high + low) / 2 == high && (2 * high + low + b) % 2 == parity
    ensures XorBits(2 * high + low, b, n) == 2 * XorBits(high, b / 2, n - 1) + parity
  {
  }

  lemma XorTwice(a: Byte, b: Byte)
    ensures Xor(Xor(a, b), b) == a
  {
    assert Pow2(8) == 0x100;
    XorBitsTwice(a, b, 8);
  }

  lemma AppendAssociative<T>(a: seq<T>, b: seq<T>, c: seq<T>)
    ensures a + b + c == a + (b + c)
  {
  }

  /** The concatenation of a list of chunks. */
  function Concat<T>(chunks: seq<seq<T>>): seq<T> {
    if chunks == [] then [] else chunks[0] + Concat(chunks[1..])
  }
}
