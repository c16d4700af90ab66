/** Bytes and their bits, in the two orders the checksums read them: MsbBits takes each byte's
    high bit first, LsbBits its low bit first. */
module Bytes {
  import opened Gf2

  type byte = bv8

  /** The mask of bit `i` counted from the top. It runs out after eight. */
  function HighMask(i: nat): (m: byte)
    ensures m & (m - 1) == 0
  {
    if i == 0 then 0x80 else HighMask(i - 1) >> 1
  }

  /** The mask of bit `i` counted from the bottom. It runs out after eight. */
  function LowMask(i: nat): (m: byte)
    ensures m & (m - 1) == 0
  {
    if i == 0 then 0x01 else LowMask(i - 1) << 1
  }

  function HighFirst(b: byte): (u: Bits)
    ensures |u| == 8
  {
    seq(8, i requires 0 <= i < 8 => b & HighMask(i) != 0)
  }

  function LowFirst(b: byte): (u: Bits)
    ensures |u| == 8
  {
    seq(8, i requires 0 <= i < 8 => b & LowMask(i) != 0)
  }

  function MsbBits(data: seq<byte>): (u: Bits)
    ensures |u| == 8 * |data|
  {
    if data == [] then [] else HighFirst(data[0]) + MsbBits(data[1..])
  }

  function LsbBits(data: seq<byte>): (u: Bits)
    ensures |u| == 8 * |data|
  {
    if data == [] then [] else LowFirst(data[0]) + LsbBits(data[1..])
  }

  /** The pieces put together in order. */
  function Joined(pieces: seq<seq<byte>>): seq<byte> {
    if pieces == [] then [] else pieces[0] + Joined(pieces[1..])
  }

  function XorBytes(a: seq<byte>, b: seq<byte>): (c: seq<byte>)
    requires |a| == |b|
    ensures |c| == |a|
    ensures forall i | 0 <= i < |a| :: c[i] == a[i] ^ b[i]
  {
    seq(|a|, i requires 0 <= i < |a| => a[i] ^ b[i])
  }

  // ---- One byte

  lemma XorOneBit(a: byte, b: byte, m: byte)
    requires m & (m - 1) == 0
    ensures (a ^ b) & m != 0 <==> ((a & m != 0) != (b & m != 0))
  {
  }

  lemma HighFirstXor(a: byte, b: byte)
    ensures HighFirst(a ^ b) == Xor(HighFirst(a), HighFirst(b))
  {
    forall i | 0 <= i < 8 ensures HighFirst(a ^ b)[i] == Xor(HighFirst(a), HighFirst(b))[i] {
      XorOneBit(a, b, HighMask(i));
    }
  }

  lemma LowFirstXor(a: byte, b: byte)
    ensures LowFirst(a ^ b) == Xor(LowFirst(a), LowFirst(b))
  {
    forall i | 0 <= i < 8 ensures LowFirst(a ^ b)[i] == Xor(LowFirst(a), LowFirst(b))[i] {
      XorOneBit(a, b, LowMask(i));
    }
  }

  lemma MaskValues()
    ensures HighMask(0) == 0x80 && HighMask(1) == 0x40 && HighMask(2) == 0x20 && HighMask(3) == 0x10
    ensures HighMask(4) == 0x08 && HighMask(5) == 0x04 && HighMask(6) == 0x02 && HighMask(7) == 0x01
    ensures LowMask(0) == 0x01 && LowMask(1) == 0x02 && LowMask(2) == 0x04 && LowMask(3) == 0x08
    ensures LowMask(4) == 0x10 && LowMask(5) == 0x20 && LowMask(6) == 0x40 && LowMask(7) == 0x80
  {
    assert HighMask(2) == 0x20 && HighMask(4) == 0x08 && HighMask(6) == 0x02;
    assert LowMask(2) == 0x04 && LowMask(4) == 0x10 && LowMask(6) == 0x40;
  }

  lemma AllBitsEqual(a: byte, b: byte)
    requires (a & 0x80 != 0) == (b & 0x80 != 0) && (a & 0x40 != 0) == (b & 0x40 != 0)
    requires (a & 0x20 != 0) == (b & 0x20 != 0) && (a & 0x10 != 0) == (b & 0x10 != 0)
    requires (a & 0x08 != 0) == (b & 0x08 != 0) && (a & 0x04 != 0) == (b & 0x04 != 0)
    requires (a & 0x02 != 0) == (b & 0x02 != 0) && (a & 0x01 != 0) == (b & 0x01 != 0)
    ensures a == b
  {
  }

  lemma HighFirstInjective(a: byte, b: byte)
    requires HighFirst(a) == HighFirst(b)
    ensures a == b
  {
    forall i | 0 <= i < 8 ensures (a & HighMask(i) != 0) == (b & HighMask(i) != 0) {
      assert HighFirst(a)[i] == HighFirst(b)[i];
    }
    MaskValues();
    AllBitsEqual(a, b);
  }

  lemma LowFirstInjective(a: byte, b: byte)
    requires LowFirst(a) == LowFirst(b)
    ensures a == b
  {
    forall i | 0 <= i < 8 ensures (a & LowMask(i) != 0) == (b & LowMask(i) != 0) {
      assert LowFirst(a)[i] == LowFirst(b)[i];
    }
    MaskValues();
    AllBitsEqual(a, b);
  }

  // ---- Messages

  lemma {:induction false} MsbBitsConcat(a: seq<byte>, b: seq<byte>)
    ensures MsbBits(a + b) == MsbBits(a) + MsbBits(b)
  {
    if a == [] {
      assert a + b == b;
    } else {
      assert (a + b)[1..] == a[1..] + b;
      MsbBitsConcat(a[1..], b);
    }
  }

  lemma {:induction false} LsbBitsConcat(a: seq<byte>, b: seq<byte>)
    ensures LsbBits(a + b) == LsbBits(a) + LsbBits(b)
  {
    if a == [] {
      assert a + b == b;
    } else {
      assert (a + b)[1..] == a[1..] + b;
      LsbBitsConcat(a[1..], b);
    }
  }

  lemma {:induction false} MsbBitsXor(a: seq<byte>, b: seq<byte>)
    requires |a| == |b|
    ensures MsbBits(XorBytes(a, b)) == Xor(MsbBits(a), MsbBits(b))
  {
    if a != [] {
      XorBytesTail(a, b);
      MsbBitsXor(a[1..], b[1..]);
      HighFirstXor(a[0], b[0]);
      XorConcat(HighFirst(a[0]), HighFirst(b[0]), MsbBits(a[1..]), MsbBits(b[1..]));
    }
  }

  lemma {:induction false} LsbBitsXor(a: seq<byte>, b: seq<byte>)
    requires |a| == |b|
    ensures LsbBits(XorBytes(a, b)) == Xor(LsbBits(a), LsbBits(b))
  {
    if a != [] {
      XorBytesTail(a, b);
      LsbBitsXor(a[1..], b[1..]);
      LowFirstXor(a[0], b[0]);
      XorConcat(LowFirst(a[0]), LowFirst(b[0]), LsbBits(a[1..]), LsbBits(b[1..]));
    }
  }

  lemma XorBytesTail(a: seq<byte>, b: seq<byte>)
    requires |a| == |b| > 0
    ensures XorBytes(a, b)[0] == a[0] ^ b[0]
    ensures XorBytes(a, b)[1..] == XorBytes(a[1..], b[1..])
  {
  }

  lemma {:induction false} MsbBitsInjective(a: seq<byte>, b: seq<byte>)
    requires |a| == |b| && MsbBits(a) == MsbBits(b)
    ensures a == b
  {
    if a != [] {
      SplitByte(HighFirst(a[0]), MsbBits(a[1..]), HighFirst(b[0]), MsbBits(b[1..]));
      HighFirstInjective(a[0], b[0]);
      MsbBitsInjective(a[1..], b[1..]);
    }
  }

  lemma {:induction false} LsbBitsInjective(a: seq<byte>, b: seq<byte>)
    requires |a| == |b| && LsbBits(a) == LsbBits(b)
    ensures a == b
  {
    if a != [] {
      SplitByte(LowFirst(a[0]), LsbBits(a[1..]), LowFirst(b[0]), LsbBits(b[1..]));
      LowFirstInjective(a[0], b[0]);
      LsbBitsInjective(a[1..], b[1..]);
    }
  }

  lemma {:induction false} LsbBitAt(data: seq<byte>, p: nat)
    requires p < 8 * |data|
    ensures LsbBits(data)[p] == LowFirst(data[p / 8])[p % 8]
  {
    if p >= 8 {
      LsbBitAt(data[1..], p - 8);
    }
  }

  /** Bytes all zero but for one bit. */
  function OneBit(n: nat, p: nat): (data: seq<byte>)
    requires p < 8 * n
    ensures |data| == n
  {
    seq(n, i requires 0 <= i < n => if i == p / 8 then LowMask(p % 8) else 0)
  }

  lemma MasksApart(i: nat, j: nat)
    requires i < 8 && j < 8
    ensures LowMask(i) & LowMask(j) != 0 <==> i == j
  {
    MaskValues();
  }

  lemma OneBitIs(n: nat, p: nat, q: nat)
    requires p < 8 * n && q < 8 * n
    ensures LsbBits(OneBit(n, p))[q] <==> q == p
  {
    LsbBitAt(OneBit(n, p), q);
    MasksApart(p % 8, q % 8);
    if q / 8 == p / 8 {
      assert q == p <==> q % 8 == p % 8;
    } else {
      NoBits(q % 8);
    }
  }

  lemma NoBits(i: nat)
    requires i < 8
    ensures !LowFirst(0)[i]
  {
  }

  lemma SplitByte(a: Bits, s: Bits, b: Bits, t: Bits)
    requires |a| == |b| == 8
    ensures a + s == b + t ==> a == b && s == t
  {
    assert a == (a + s)[..8] && s == (a + s)[8..];
    assert b == (b + t)[..8] && t == (b + t)[8..];
  }
}
