/** CRC-16/CCITT as an FM or MFM floppy recording uses it: forward over 0x1021 from an all-ones
    seed. The class is the code; the functions above it say what its state becomes, and the
    lemmas say what that state is worth. */
module Crc16 {
  import opened Gf2
  import opened Lfsr
  import opened Bytes

  const SEED: bv16 := 0xffff

  /** One turn of the inner loop. */
  function Shift(r: bv16): bv16 {
    if r & 0x8000 != 0 then (r << 1) ^ 0x1021 else r << 1
  }

  function Shifts(r: bv16, n: nat): bv16 {
    if n == 0 then r else Shift(Shifts(r, n - 1))
  }

  /** A byte added to the register's high half. */
  function Mixed(r: bv16, b: byte): bv16 {
    r ^ ((b as bv16) << 8)
  }

  function FedByte(r: bv16, b: byte): bv16 {
    Shifts(Mixed(r, b), 8)
  }

  /** The state after `update` with `data`. */
  function Fed(r: bv16, data: seq<byte>): bv16 {
    if data == [] then r else FedByte(Fed(r, data[..|data| - 1]), data[|data| - 1])
  }

  /** The register after feeding each piece in turn. */
  function FedEach(r: bv16, pieces: seq<seq<byte>>): bv16
    decreases |pieces|
  {
    if pieces == [] then r else FedEach(Fed(r, pieces[0]), pieces[1..])
  }

  /** The one-shot form. */
  function Crc(data: seq<byte>): bv16 {
    Fed(SEED, data)
  }

  class Crc16Ccitt {
    var state: bv16

    constructor ()
      ensures state == SEED
    {
      state := 0xffff;
    }

    /** One turn of the loop over bits. */
    method Turn()
      modifies this
      ensures state == Shift(old(state))
    {
      state := if state & 0x8000 != 0 then (state << 1) ^ 0x1021 else state << 1;
    }

    /** One turn of the loop over bytes. */
    method UpdateByte(b: byte)
      modifies this
      ensures state == FedByte(old(state), b)
    {
      state := state ^ ((b as bv16) << 8);
      ghost var mixed := state;
      for bit := 0 to 8
        invariant state == Shifts(mixed, bit)
      {
        Turn();
      }
    }

    method Update(data: seq<byte>)
      modifies this
      ensures state == Fed(old(state), data)
    {
      for i := 0 to |data|
        invariant state == Fed(old(state), data[..i])
      {
        assert data[..i + 1][..i] == data[..i];
        UpdateByte(data[i]);
      }
      assert data[..|data|] == data;
    }

    method Finish() returns (crc: bv16)
      ensures crc == state
    {
      crc := state;
    }
  }

  method Crc16Of(data: seq<byte>) returns (crc: bv16)
    ensures crc == Crc(data)
  {
    var c := new Crc16Ccitt();
    c.Update(data);
    crc := c.Finish();
  }

  // ---- The register as a polynomial, highest power in the top bit

  function Down(m: bv16): bv16 {
    m >> 1
  }

  function Mask(i: nat): bv16 {
    if i == 0 then 0x8000 else Down(Mask(i - 1))
  }

  lemma {:induction false} MaskIsOneBit(i: nat)
    ensures Mask(i) & (Mask(i) - 1) == 0
  {
    if i > 0 {
      MaskIsOneBit(i - 1);
    }
  }

  predicate Has(r: bv16, m: bv16) {
    r & m != 0
  }

  predicate Bit(r: bv16, i: nat) {
    Has(r, Mask(i))
  }

  function Poly(r: bv16): (p: Bits)
    ensures |p| == 16
  {
    seq(16, i requires 0 <= i < 16 => Bit(r, i))
  }

  /** x^12 + x^5 + 1, the generator of ITU-T V.41 section 2 below its leading x^16. */
  const G: Bits := Zeros(3) + [true] + Zeros(6) + [true] + Zeros(4) + [true]

  lemma MaskValues()
    ensures Mask(0) == 0x8000 && Mask(1) == 0x4000 && Mask(2) == 0x2000 && Mask(3) == 0x1000
    ensures Mask(4) == 0x0800 && Mask(5) == 0x0400 && Mask(6) == 0x0200 && Mask(7) == 0x0100
    ensures Mask(8) == 0x0080 && Mask(9) == 0x0040 && Mask(10) == 0x0020 && Mask(11) == 0x0010
    ensures Mask(12) == 0x0008 && Mask(13) == 0x0004 && Mask(14) == 0x0002 && Mask(15) == 0x0001
  {
    assert Mask(2) == 0x2000 && Mask(4) == 0x0800 && Mask(6) == 0x0200 && Mask(8) == 0x0080;
    assert Mask(10) == 0x0020 && Mask(12) == 0x0008 && Mask(14) == 0x0002;
  }

  lemma GeneratorIs1021()
    ensures |G| == 16 && Poly(0x1021) == G && HasConstantTerm(G)
  {
    MaskValues();
  }

  lemma XorOneBit(r: bv16, s: bv16, m: bv16)
    requires m & (m - 1) == 0
    ensures Has(r ^ s, m) <==> (Has(r, m) != Has(s, m))
  {
  }

  lemma PolyXor(r: bv16, s: bv16)
    ensures Poly(r ^ s) == Xor(Poly(r), Poly(s))
  {
    forall i | 0 <= i < 16 ensures Poly(r ^ s)[i] == Xor(Poly(r), Poly(s))[i] {
      MaskIsOneBit(i);
      XorOneBit(r, s, Mask(i));
    }
  }

  lemma ShlOneBit(r: bv16, m: bv16)
    ensures Has(r << 1, m) <==> Has(r, Down(m))
  {
  }

  lemma BitShl(r: bv16, i: nat)
    ensures Bit(r << 1, i) == Bit(r, i + 1)
  {
    ShlOneBit(r, Mask(i));
  }

  lemma LastBitShl(r: bv16)
    ensures !Bit(r << 1, 15)
  {
    LastMask();
  }

  lemma LastMask()
    ensures Mask(15) == 1
  {
    MaskValues();
  }

  lemma PolyShl(r: bv16)
    ensures Poly(r << 1) == Poly(r)[1..] + [false]
  {
    var shifted := r << 1;
    forall i | 0 <= i < 15 ensures Bit(shifted, i) == Bit(r, i + 1) {
      BitShl(r, i);
    }
    LastBitShl(r);
  }

  lemma PolyShift(r: bv16)
    ensures Poly(Shift(r)) == Step(G, Poly(r), false)
  {
    MaskValues();
    GeneratorIs1021();
    PolyShl(r);
    PolyXor(r << 1, 0x1021);
    XorZero(Poly(r)[1..] + [false]);
  }

  lemma BelowNextMask(x: bv16, m: bv16)
    requires m & (m - 1) == 0 && x < m && !Has(x, Down(m))
    ensures m == 1 || x < Down(m)
  {
  }

  lemma MaskNotOne(i: nat)
    requires i < 15
    ensures Mask(i) != 1
  {
    MaskValues();
  }

  lemma {:induction false} BelowMask(x: bv16, i: nat)
    requires i < 16 && forall j | 0 <= j <= i :: !Bit(x, j)
    ensures x < Mask(i)
  {
    if i == 0 {
      assert !Bit(x, 0);
    } else {
      BelowMask(x, i - 1);
      assert !Bit(x, i);
      MaskIsOneBit(i - 1);
      BelowNextMask(x, Mask(i - 1));
      MaskNotOne(i - 1);
    }
  }

  lemma XorIsZero(r: bv16, s: bv16)
    requires r ^ s == 0
    ensures r == s
  {
  }

  lemma PolyInjective(r: bv16, s: bv16)
    requires Poly(r) == Poly(s)
    ensures r == s
  {
    PolyXor(r, s);
    XorSelf(Poly(s));
    var x := r ^ s;
    forall j | 0 <= j < 16 ensures !Bit(x, j) {
      assert !Poly(x)[j];
    }
    BelowMask(x, 15);
    LastMask();
    XorIsZero(r, s);
  }

  lemma PolyZero()
    ensures Poly(0) == Zeros(16)
  {
  }

  // ---- A byte enters at the top

  lemma TopHalf(m: bv16, k: byte, b: byte)
    requires m == (k as bv16) << 8
    ensures Has((b as bv16) << 8, m) <==> b & k != 0
  {
  }

  lemma {:induction false} TopMask(i: nat)
    requires i < 8
    ensures Mask(i) == (HighMask(i) as bv16) << 8
  {
    MaskValues();
    Bytes.MaskValues();
  }

  lemma BottomHalf(m: bv16, b: byte)
    requires m & 0xff00 == 0
    ensures !Has((b as bv16) << 8, m)
  {
  }

  lemma BottomMask(i: nat)
    requires 8 <= i < 16
    ensures Mask(i) & 0xff00 == 0
  {
    MaskValues();
  }

  lemma PolyOfByte(b: byte)
    ensures Poly((b as bv16) << 8) == HighFirst(b) + Zeros(8)
  {
    var r := (b as bv16) << 8;
    forall i | 0 <= i < 16 ensures Bit(r, i) == (HighFirst(b) + Zeros(8))[i] {
      if i < 8 {
        TopMask(i);
        TopHalf(Mask(i), HighMask(i), b);
      } else {
        BottomMask(i);
        BottomHalf(Mask(i), b);
      }
    }
  }

  // ---- The code is the division register

  lemma {:induction false} ShiftsRun(r: bv16, n: nat)
    ensures Poly(Shifts(r, n)) == Run(G, Poly(r), Zeros(n))
  {
    GeneratorIs1021();
    if n > 0 {
      ShiftsRun(r, n - 1);
      PolyShift(Shifts(r, n - 1));
      RunSnoc(G, Poly(r), Zeros(n - 1), false);
      assert Zeros(n - 1) + [false] == Zeros(n);
    }
  }

  lemma MixedPoly(r: bv16, b: byte)
    ensures Poly(Mixed(r, b)) == Xor(Poly(r), HighFirst(b) + Zeros(8))
  {
    PolyOfByte(b);
    PolyXor(r, (b as bv16) << 8);
  }

  lemma FedByteRuns(r: bv16, b: byte)
    ensures Poly(FedByte(r, b)) == Run(G, Poly(r), HighFirst(b))
  {
    GeneratorIs1021();
    MixedPoly(r, b);
    ShiftsRun(Mixed(r, b), 8);
    RunAsInjection(G, Poly(r), HighFirst(b));
  }

  /** **The nested loops divide**: feeding bytes runs their bits, high bit first, through the
      division register of x^16 + x^12 + x^5 + 1. */
  lemma {:induction false} FedRuns(r: bv16, data: seq<byte>)
    ensures Poly(Fed(r, data)) == Run(G, Poly(r), MsbBits(data))
  {
    GeneratorIs1021();
    if data != [] {
      var t := |data| - 1;
      assert data == data[..t] + [data[t]];
      FedRuns(r, data[..t]);
      FedByteRuns(Fed(r, data[..t]), data[t]);
      MsbBitsConcat(data[..t], [data[t]]);
      assert MsbBits([data[t]]) == HighFirst(data[t]);
      RunConcat(G, Poly(r), MsbBits(data[..t]), HighFirst(data[t]));
    }
  }
}
