/** The powers of x modulo the CRC-16 generator: x comes back to 1 after 32767 steps and not
    before, which is what bounds the distance between two errors it can miss. */
module Crc16Order {
  import opened Gf2
  import opened Lfsr
  import opened Order
  import opened Crc16

  // ---- Multiplication modulo the generator, on the register itself

  function AddIf(x: bv16, r: bv16, b: bool): bv16 {
    if b then x ^ r else x
  }

  function HornerTurn(acc: bv16, r: bv16, b: bool): bv16 {
    AddIf(Shift(acc), r, b)
  }

  function TwoTurns(acc: bv16, r: bv16, b0: bool, b1: bool): bv16 {
    HornerTurn(HornerTurn(acc, r, b0), r, b1)
  }

  function FourTurns(acc: bv16, r: bv16, b0: bool, b1: bool, b2: bool, b3: bool): bv16 {
    TwoTurns(TwoTurns(acc, r, b0, b1), r, b2, b3)
  }

  function HighHalf(acc: bv16, r: bv16, p: bv16): bv16 {
    var t4 := FourTurns(acc, r, p & 0x8000 != 0, p & 0x4000 != 0, p & 0x2000 != 0, p & 0x1000 != 0);
    FourTurns(t4, r, p & 0x0800 != 0, p & 0x0400 != 0, p & 0x0200 != 0, p & 0x0100 != 0)
  }

  function LowHalf(acc: bv16, r: bv16, p: bv16): bv16 {
    var t4 := FourTurns(acc, r, p & 0x0080 != 0, p & 0x0040 != 0, p & 0x0020 != 0, p & 0x0010 != 0);
    FourTurns(t4, r, p & 0x0008 != 0, p & 0x0004 != 0, p & 0x0002 != 0, p & 0x0001 != 0)
  }

  function Multiply(r: bv16, p: bv16): bv16 {
    LowHalf(HighHalf(0, r, p), r, p)
  }

  lemma AddIfPoly(x: bv16, r: bv16, b: bool)
    ensures Poly(AddIf(x, r, b)) == Xor(Poly(x), Scale(b, Poly(r)))
  {
    PolyXor(x, r);
    XorZero(Poly(x));
  }

  lemma TurnPoly(acc: bv16, r: bv16, b: bool)
    requires |G| == 16
    ensures Poly(HornerTurn(acc, r, b)) == Xor(Step(G, Poly(acc), false), Scale(b, Poly(r)))
  {
    PolyShift(acc);
    AddIfPoly(Shift(acc), r, b);
  }

  lemma HornerTurnPoly(acc: bv16, r: bv16, f: Bits, b: bool)
    requires |G| == 16 && Poly(acc) == Horner(G, Zeros(16), Poly(r), f)
    ensures Poly(HornerTurn(acc, r, b)) == Horner(G, Zeros(16), Poly(r), f + [b])
  {
    TurnPoly(acc, r, b);
    HornerSnoc(G, Zeros(16), Poly(r), f, b);
  }

  lemma TwoTurnsPoly(acc: bv16, r: bv16, f: Bits, b0: bool, b1: bool)
    requires |G| == 16 && Poly(acc) == Horner(G, Zeros(16), Poly(r), f)
    ensures Poly(TwoTurns(acc, r, b0, b1)) == Horner(G, Zeros(16), Poly(r), f + [b0] + [b1])
  {
    HornerTurnPoly(acc, r, f, b0);
    HornerTurnPoly(HornerTurn(acc, r, b0), r, f + [b0], b1);
  }

  lemma FourTurnsPoly(acc: bv16, r: bv16, f: Bits, b0: bool, b1: bool, b2: bool, b3: bool)
    requires |G| == 16 && Poly(acc) == Horner(G, Zeros(16), Poly(r), f)
    ensures Poly(FourTurns(acc, r, b0, b1, b2, b3))
            == Horner(G, Zeros(16), Poly(r), f + [b0] + [b1] + [b2] + [b3])
  {
    TwoTurnsPoly(acc, r, f, b0, b1);
    TwoTurnsPoly(TwoTurns(acc, r, b0, b1), r, f + [b0] + [b1], b2, b3);
  }

  lemma FourMore(q: Bits, k: nat)
    requires k + 4 <= |q|
    ensures q[..k] + [q[k]] + [q[k + 1]] + [q[k + 2]] + [q[k + 3]] == q[..k + 4]
  {
  }

  /** Four more bits of `q`. */
  lemma NibblePoly(acc: bv16, r: bv16, q: Bits, k: nat)
    requires |G| == 16 && k + 4 <= |q| && Poly(acc) == Horner(G, Zeros(16), Poly(r), q[..k])
    ensures Poly(FourTurns(acc, r, q[k], q[k + 1], q[k + 2], q[k + 3]))
            == Horner(G, Zeros(16), Poly(r), q[..k + 4])
  {
    FourTurnsPoly(acc, r, q[..k], q[k], q[k + 1], q[k + 2], q[k + 3]);
    FourMore(q, k);
  }

  lemma BitsAre(p: bv16)
    ensures Bit(p, 0) == Has(p, 0x8000) && Bit(p, 1) == Has(p, 0x4000)
    ensures Bit(p, 2) == Has(p, 0x2000) && Bit(p, 3) == Has(p, 0x1000)
    ensures Bit(p, 4) == Has(p, 0x0800) && Bit(p, 5) == Has(p, 0x0400)
    ensures Bit(p, 6) == Has(p, 0x0200) && Bit(p, 7) == Has(p, 0x0100)
    ensures Bit(p, 8) == Has(p, 0x0080) && Bit(p, 9) == Has(p, 0x0040)
    ensures Bit(p, 10) == Has(p, 0x0020) && Bit(p, 11) == Has(p, 0x0010)
    ensures Bit(p, 12) == Has(p, 0x0008) && Bit(p, 13) == Has(p, 0x0004)
    ensures Bit(p, 14) == Has(p, 0x0002) && Bit(p, 15) == Has(p, 0x0001)
  {
    MaskValues();
  }

  lemma HighHalfPoly(acc: bv16, r: bv16, p: bv16)
    requires |G| == 16 && Poly(acc) == Horner(G, Zeros(16), Poly(r), Poly(p)[..0])
    ensures Poly(HighHalf(acc, r, p)) == Horner(G, Zeros(16), Poly(r), Poly(p)[..8])
  {
    BitsAre(p);
    NibblePoly(acc, r, Poly(p), 0);
    var t4 := FourTurns(acc, r, p & 0x8000 != 0, p & 0x4000 != 0, p & 0x2000 != 0, p & 0x1000 != 0);
    NibblePoly(t4, r, Poly(p), 4);
  }

  lemma LowHalfPoly(acc: bv16, r: bv16, p: bv16)
    requires |G| == 16 && Poly(acc) == Horner(G, Zeros(16), Poly(r), Poly(p)[..8])
    ensures Poly(LowHalf(acc, r, p)) == Horner(G, Zeros(16), Poly(r), Poly(p)[..16])
  {
    BitsAre(p);
    NibblePoly(acc, r, Poly(p), 8);
    var t4 := FourTurns(acc, r, p & 0x0080 != 0, p & 0x0040 != 0, p & 0x0020 != 0, p & 0x0010 != 0);
    NibblePoly(t4, r, Poly(p), 12);
  }

  lemma MultiplyPoly(r: bv16, p: bv16)
    ensures |G| == 16 && Poly(Multiply(r, p)) == Times(G, Poly(r), Poly(p))
  {
    GeneratorIs1021();
    PolyZero();
    assert Poly(p)[..0] == [];
    HighHalfPoly(0, r, p);
    LowHalfPoly(HighHalf(0, r, p), r, p);
    assert Poly(p)[..16] == Poly(p);
  }

  // ---- The powers themselves

  predicate IsPower(n: nat, r: bv16)
  {
    |G| == 16 && Power(G, n) == Poly(r)
  }

  lemma PowerSum(m: nat, r: bv16, n: nat, s: bv16, product: bv16)
    requires IsPower(m, r) && IsPower(n, s) && Multiply(s, r) == product
    ensures IsPower(m + n, product)
  {
    PowerAdd(G, m, n);
    MultiplyPoly(s, r);
  }

  lemma PowerDouble(n: nat, r: bv16, square: bv16)
    requires IsPower(n, r) && Multiply(r, r) == square
    ensures IsPower(2 * n, square)
  {
    PowerSum(n, r, n, r, square);
  }

  lemma PolyOne()
    ensures Poly(1) == One(16)
  {
    MaskValues();
  }

  lemma PowerOne()
    ensures IsPower(1, 0x0002)
  {
    GeneratorIs1021();
    LastPower(G, 1);
    MaskValues();
  }

  lemma ReturnsIff(n: nat, r: bv16)
    requires IsPower(n, r)
    ensures Returns(G, n) <==> r == 1
  {
    PolyOne();
    if Returns(G, n) {
      PolyInjective(r, 1);
    }
  }

  /** x to each power of two up to 2^15, by squaring. */
  lemma PowersOfTwo()
    ensures IsPower(1, 0x0002)
    ensures IsPower(2, 0x0004)
    ensures IsPower(4, 0x0010)
    ensures IsPower(8, 0x0100)
    ensures IsPower(16, 0x1021)
    ensures IsPower(32, 0x3730)
    ensures IsPower(64, 0xb861)
    ensures IsPower(128, 0xaefc)
    ensures IsPower(256, 0x8e29)
    ensures IsPower(512, 0x13fc)
    ensures IsPower(1024, 0x36c4)
    ensures IsPower(2048, 0xfd50)
    ensures IsPower(4096, 0xaa9e)
    ensures IsPower(8192, 0x881c)
    ensures IsPower(16384, 0x4458)
    ensures IsPower(32768, 0x0002)
  {
    PowerOne();
    PowerDouble(1, 0x0002, 0x0004);
    PowerDouble(2, 0x0004, 0x0010);
    PowerDouble(4, 0x0010, 0x0100);
    PowerDouble(8, 0x0100, 0x1021);
    PowerDouble(16, 0x1021, 0x3730);
    PowerDouble(32, 0x3730, 0xb861);
    PowerDouble(64, 0xb861, 0xaefc);
    PowerDouble(128, 0xaefc, 0x8e29);
    PowerDouble(256, 0x8e29, 0x13fc);
    PowerDouble(512, 0x13fc, 0x36c4);
    PowerDouble(1024, 0x36c4, 0xfd50);
    PowerDouble(2048, 0xfd50, 0xaa9e);
    PowerDouble(4096, 0xaa9e, 0x881c);
    PowerDouble(8192, 0x881c, 0x4458);
    PowerDouble(16384, 0x4458, 0x0002);
  }

  lemma ComesBackAt32767()
    ensures |G| > 0 && Returns(G, 32767)
  {
    GeneratorIs1021();
    PowersOfTwo();
    PowerAdd(G, 32767, 1);
    PowerAdd(G, 0, 1);
    assert Power(G, 0) == One(16);
    RunBijective(G, Power(G, 32767), Zeros(1));
    RunBijective(G, One(16), Zeros(1));
  }

  lemma NotAt4681()
    ensures |G| > 0 && !Returns(G, 4681)
  {
    PowersOfTwo();
    PowerSum(4096, 0xaa9e, 512, 0x13fc, 0x54a0);
    PowerSum(4608, 0x54a0, 64, 0xb861, 0x0106);
    PowerSum(4672, 0x0106, 8, 0x0100, 0x1621);
    PowerSum(4680, 0x1621, 1, 0x0002, 0x2c42);
    ReturnsIff(4681, 0x2c42);
  }

  lemma NotAt1057()
    ensures |G| > 0 && !Returns(G, 1057)
  {
    PowersOfTwo();
    PowerSum(1024, 0x36c4, 32, 0x3730, 0xf147);
    PowerSum(1056, 0xf147, 1, 0x0002, 0xf2af);
    ReturnsIff(1057, 0xf2af);
  }

  lemma NotAt217()
    ensures |G| > 0 && !Returns(G, 217)
  {
    PowersOfTwo();
    PowerSum(128, 0xaefc, 64, 0xb861, 0x650b);
    PowerSum(192, 0x650b, 16, 0x1021, 0x45b4);
    PowerSum(208, 0x45b4, 8, 0x0100, 0xac61);
    PowerSum(216, 0xac61, 1, 0x0002, 0x48e3);
    ReturnsIff(217, 0x48e3);
  }
}
