/** Bytes, bits of a byte, and big-endian integers as binary.BigEndian and DataView read and write them. */
module Bytes {

  type byte = x: int | 0 <= x < 256

  // ---------------------------------------------------------------- integers

  /** uint16(n), big-endian: the conversion keeps the low 16 bits. */
  function U16(n: nat): seq<byte> {
    [n / 256 % 256, n % 256]
  }

  function ReadU16(b: seq<byte>): nat
    requires |b| >= 2
  {
    b[0] as int * 256 + b[1]
  }

  /** uint32(n), big-endian. */
  function U32(n: nat): seq<byte> {
    U16(n / 0x1_0000) + U16(n)
  }

  function ReadU32(b: seq<byte>): nat
    requires |b| >= 4
  {
    ReadU16(b) * 0x1_0000 + ReadU16(b[2..])
  }

  lemma U16RoundTrip(n: nat)
    ensures ReadU16(U16(n)) == n % 0x1_0000
  {
    var high := n / 256;
    assert n == high * 256 + n % 256;
    assert high == high / 256 * 256 + high % 256;
    assert n == high / 256 * 0x1_0000 + (high % 256 * 256 + n % 256);
  }

  lemma U32RoundTrip(n: nat)
    ensures ReadU32(U32(n)) == n % 0x1_0000_0000
  {
    var high := n / 0x1_0000;
    U16RoundTrip(high);
    U16RoundTrip(n);
    assert U32(n)[2..] == U16(n);
    assert high / 0x1_0000 == n / 0x1_0000_0000;
  }

  lemma U16Inverse(b: seq<byte>)
    requires |b| == 2
    ensures U16(ReadU16(b)) == b
  {}

  lemma HighBytesDrop(high: nat, low: nat)
    ensures U16(high * 0x1_0000 + low) == U16(low)
  {
    var n := high * 0x1_0000 + low;
    assert n / 256 == high * 256 + low / 256;
    assert (high * 256 + low / 256) % 256 == low / 256 % 256;
    assert n % 256 == low % 256;
  }

  lemma U32Inverse(b: seq<byte>)
    requires |b| == 4
    ensures U32(ReadU32(b)) == b
  {
    var high, low := ReadU16(b), ReadU16(b[2..]);
    assert (high * 0x1_0000 + low) / 0x1_0000 == high;
    HighBytesDrop(high, low);
    assert ReadU16(b) == ReadU16(b[..2]);
    U16Inverse(b[..2]);
    U16Inverse(b[2..]);
  }

  // ---------------------------------------------------------------- bits

  function Pow2(j: nat): nat {
    if j == 0 then 1 else 2 * Pow2(j - 1)
  }

  predicate HasBit(b: nat, j: nat) {
    if j == 0 then b % 2 == 1 else HasBit(b / 2, j - 1)
  }

  lemma {:induction false} ShiftedBit(b: byte, j: nat, k: nat)
    requires k <= j < 8
    ensures HasBit(b, j) == HasBit(b / [1, 2, 4, 8, 16, 32, 64, 128][k], j - k)
  {
    if k > 0 {
      ShiftedBit(b, j, k - 1);
      assert b / [1, 2, 4, 8, 16, 32, 64, 128][k - 1] / 2 == b / [1, 2, 4, 8, 16, 32, 64, 128][k];
    }
  }

  lemma BitWeights(b: byte, j: nat)
    requires j < 8
    ensures HasBit(b, j) <==> b / [1, 2, 4, 8, 16, 32, 64, 128][j] % 2 == 1
  {
    ShiftedBit(b, j, j);
  }

  lemma {:induction false} ZeroHasNoBits(j: nat)
    ensures !HasBit(0, j)
  {
    if j > 0 {
      ZeroHasNoBits(j - 1);
    }
  }

  lemma {:induction false} AddedBit(b: nat, j: nat, k: nat)
    requires !HasBit(b, j)
    ensures HasBit(b + Pow2(j), k) <==> k == j || HasBit(b, k)
  {
    if j == 0 {
      assert (b + 1) / 2 == b / 2;
    } else if k > 0 {
      assert (b + Pow2(j)) / 2 == b / 2 + Pow2(j - 1);
      AddedBit(b / 2, j - 1, k - 1);
    }
  }

  lemma HalvesFit(b: nat, p: nat, q: nat)
    requires b < 2 * q
    ensures b / 2 < q && (b % 2 == 0 ==> b + 1 < 2 * q) && (b / 2 + p < q ==> b + 2 * p < 2 * q)
  {}

  lemma {:induction false} AddedBitFits(b: nat, j: nat, width: nat)
    requires !HasBit(b, j) && j < width && b < Pow2(width)
    ensures b + Pow2(j) < Pow2(width)
  {
    if j == 0 {
      HalvesFit(b, 0, Pow2(width - 1));
    } else {
      HalvesFit(b, Pow2(j - 1), Pow2(width - 1));
      AddedBitFits(b / 2, j - 1, width - 1);
    }
  }

  /** b | 1 << j */
  function SetBit(b: byte, j: nat): (r: byte)
    requires j < 8
    ensures forall k: nat :: HasBit(r, k) <==> k == j || HasBit(b, k)
  {
    if HasBit(b, j) then b
    else
      assert Pow2(8) == 2 * (2 * (2 * (2 * (2 * (2 * (2 * (2 * Pow2(0))))))));
      AddedBitFits(b, j, 8);
      assert forall k: nat :: HasBit(b + Pow2(j), k) <==> k == j || HasBit(b, k) by {
        forall k: nat { AddedBit(b, j, k); }
      }
      b + Pow2(j)
  }
}
