/** Bytes, the exclusive or of two bytes, and the big-endian length prefix of a frame. */
module Bytes {
  type byte = x: int | 0 <= x < 256

  /** An AES block; the cipher itself stays an arbitrary function on blocks. */
  type Block = s: seq<byte> | |s| == BLOCK_SIZE witness seq(BLOCK_SIZE, i => 0)

  const BLOCK_SIZE := 16

  const TWO_32 := 0x1_0000_0000

  datatype Option<+T> = None | Some(value: T)

  lemma Regroup<T>(a: seq<T>, b: seq<T>, c: seq<T>)
    ensures (a + b) + c == a + (b + c)
  {}

  lemma LastApart<T>(s: seq<T>)
    requires s != []
    ensures s == s[..|s| - 1] + [s[|s| - 1]]
  {}

  function Pow2(n: nat): (r: nat)
    ensures r > 0
  {
    if n == 0 then 1 else 2 * Pow2(n - 1)
  }

  /** The low width bits of n, least significant bit first. */
  function ToBits(n: nat, width: nat): (bits: seq<bool>)
    ensures |bits| == width
  {
    if width == 0 then [] else [n % 2 == 1] + ToBits(n / 2, width - 1)
  }

  function FromBits(bits: seq<bool>): (n: nat)
    ensures n < Pow2(|bits|)
  {
    if bits == [] then 0 else 2 * FromBits(bits[1..]) + if bits[0] then 1 else 0
  }

  lemma {:induction false} ToBitsOfFrom(bits: seq<bool>)
    ensures ToBits(FromBits(bits), |bits|) == bits
  {
    if bits != [] {
      var rest, n := FromBits(bits[1..]), FromBits(bits);
      ToBitsOfFrom(bits[1..]);
      assert n / 2 == rest && (n % 2 == 1) == bits[0];
      assert bits == [bits[0]] + bits[1..];
    }
  }

  lemma {:induction false} FromBitsOfTo(n: nat, width: nat)
    requires n < Pow2(width)
    ensures FromBits(ToBits(n, width)) == n
  {
    if width > 0 {
      FromBitsOfTo(n / 2, width - 1);
      assert ToBits(n, width)[1..] == ToBits(n / 2, width - 1);
    }
  }

  function XorEach(a: seq<bool>, b: seq<bool>): (r: seq<bool>)
    requires |a| == |b|
    ensures |r| == |a| && forall i :: 0 <= i < |a| ==> r[i] == (a[i] != b[i])
  {
    seq(|a|, i requires 0 <= i < |a| => a[i] != b[i])
  }

  function Xor(a: byte, b: byte): (r: byte)
  {
    assert Pow2(8) == 256;
    FromBits(XorEach(ToBits(a, 8), ToBits(b, 8)))
  }

  lemma XorInvolution(a: byte, b: byte)
    ensures Xor(Xor(a, b), b) == a
  {
    var x, y := ToBits(a, 8), ToBits(b, 8);
    ToBitsOfFrom(XorEach(x, y));
    assert XorEach(XorEach(x, y), y) == x;
    FitsEightBits(a);
    FromBitsOfTo(a, 8);
  }

  lemma {:induction false} BitOfTo(n: nat, width: nat, i: nat)
    requires i < width
    ensures ToBits(n, width)[i] <==> n / Pow2(i) % 2 == 1
  {
    if i > 0 {
      BitOfTo(n / 2, width - 1, i - 1);
      HalvedFirst(n, Pow2(i - 1));
    }
  }

  lemma HalvedFirst(n: nat, d: nat)
    requires d > 0
    ensures n / 2 / d == n / (2 * d)
  {
    var q, r := n / (2 * d), n % (2 * d);
    assert n == 2 * (d * q) + r;
    assert n / 2 == d * q + r / 2 && 0 <= r / 2 < d;
    QuotientIs(n / 2, d, q, r / 2);
  }

  lemma QuotientIs(n: nat, d: nat, q: nat, r: nat)
    requires n == d * q + r && r < d
    ensures n / d == q
  {
    var k := n / d - q;
    assert n == d * (n / d) + n % d;
    assert d * k == r - n % d;
    MultiplesAreApart(d, k);
  }

  lemma MultiplesAreApart(d: int, k: int)
    requires d > 0
    ensures (k > 0 ==> d * k >= d) && (k < 0 ==> d * k <= -d)
  {}

  /** Each of the eight bits of the exclusive or is the sum of the two bits, modulo 2. */
  lemma {:induction false} XorBit(a: byte, b: byte, i: nat)
    requires i < 8
    ensures Xor(a, b) / Pow2(i) % 2 == (a / Pow2(i) + b / Pow2(i)) % 2
  {
    BitsOfXor(a, b, i);
    BitOfTo(a, 8, i);
    BitOfTo(b, 8, i);
    BitOfTo(Xor(a, b), 8, i);
    ParityOfSum(a / Pow2(i), b / Pow2(i), Xor(a, b) / Pow2(i), ToBits(a, 8)[i], ToBits(b, 8)[i]);
  }

  lemma {:induction false} BitsOfXor(a: byte, b: byte, i: nat)
    requires i < 8
    ensures ToBits(Xor(a, b), 8)[i] <==> ToBits(a, 8)[i] != ToBits(b, 8)[i]
  {
    ToBitsOfFrom(XorEach(ToBits(a, 8), ToBits(b, 8)));
  }

  lemma ParityOfSum(p: int, q: int, r: int, x: bool, y: bool)
    requires (x <==> p % 2 == 1) && (y <==> q % 2 == 1) && (r % 2 == 1 <==> x != y)
    ensures r % 2 == (p + q) % 2
  {}

  lemma FitsEightBits(a: byte)
    ensures a < Pow2(8)
  {
    assert Pow2(8) == 256;
  }

  /** binary.BigEndian.PutUint32: four bytes, most significant first. */
  function PutUint32(n: nat): (r: seq<byte>)
    requires n < TWO_32
    ensures |r| == 4
  {
    [n / 0x100_0000, n / 0x1_0000 % 0x100, n / 0x100 % 0x100, n % 0x100]
  }

  /** binary.BigEndian.Uint32. */
  function Uint32(b: seq<byte>): (n: nat)
    requires |b| == 4
    ensures n < TWO_32
  {
    var b0: int, b1: int, b2: int, b3: int := b[0], b[1], b[2], b[3];
    b0 * 0x100_0000 + b1 * 0x1_0000 + b2 * 0x100 + b3
  }

  /** The most significant byte comes first. */
  lemma MostSignificantFirst(a: byte, b: byte, c: byte, d: byte)
    ensures PutUint32(a * 0x100_0000 + b * 0x1_0000 + c * 0x100 + d) == [a, b, c, d]
  {
    var w: int, x: int, y: int, z: int := a, b, c, d;
    var n := w * 0x100_0000 + x * 0x1_0000 + y * 0x100 + z;
    assert n / 0x100_0000 == w;
    assert n / 0x1_0000 == w * 0x100 + x;
    assert n / 0x100 == w * 0x1_0000 + x * 0x100 + y;
  }

  lemma Uint32OfPut(n: nat)
    requires n < TWO_32
    ensures Uint32(PutUint32(n)) == n
  {
    assert n / 0x1_0000 == (n / 0x100_0000) * 0x100 + n / 0x1_0000 % 0x100;
    assert n / 0x100 == (n / 0x1_0000) * 0x100 + n / 0x100 % 0x100;
  }
}
