/** The powers of x modulo the CRC-32 generator: x comes back to 1 after 2^32 - 1 steps and not
    before, so two errors less than half a gibibyte apart are always seen. */
module Crc32Order {
  import opened Gf2
  import opened Lfsr
  import opened Order
  import opened Errors
  import opened Crc32

  // ---- Multiplication modulo the generator, on the register itself

  function AddIf(x: bv32, r: bv32, b: bool): bv32 {
    if b then x ^ r else x
  }

  function HornerTurn(acc: bv32, r: bv32, b: bool): bv32 {
    AddIf(Turn(acc), r, b)
  }

  function TwoTurns(acc: bv32, r: bv32, b0: bool, b1: bool): bv32 {
    HornerTurn(HornerTurn(acc, r, b0), r, b1)
  }

  function FourTurns(acc: bv32, r: bv32, b0: bool, b1: bool, b2: bool, b3: bool): bv32 {
    TwoTurns(TwoTurns(acc, r, b0, b1), r, b2, b3)
  }

  function FirstByte(acc: bv32, r: bv32, p: bv32): bv32 {
    var t4 := FourTurns(acc, r, p & 0x00000001 != 0, p & 0x00000002 != 0, p & 0x00000004 != 0, p & 0x00000008 != 0);
    FourTurns(t4, r, p & 0x00000010 != 0, p & 0x00000020 != 0, p & 0x00000040 != 0, p & 0x00000080 != 0)
  }

  function SecondByte(acc: bv32, r: bv32, p: bv32): bv32 {
    var t4 := FourTurns(acc, r, p & 0x00000100 != 0, p & 0x00000200 != 0, p & 0x00000400 != 0, p & 0x00000800 != 0);
    FourTurns(t4, r, p & 0x00001000 != 0, p & 0x00002000 != 0, p & 0x00004000 != 0, p & 0x00008000 != 0)
  }

  function ThirdByte(acc: bv32, r: bv32, p: bv32): bv32 {
    var t4 := FourTurns(acc, r, p & 0x00010000 != 0, p & 0x00020000 != 0, p & 0x00040000 != 0, p & 0x00080000 != 0);
    FourTurns(t4, r, p & 0x00100000 != 0, p & 0x00200000 != 0, p & 0x00400000 != 0, p & 0x00800000 != 0)
  }

  function FourthByte(acc: bv32, r: bv32, p: bv32): bv32 {
    var t4 := FourTurns(acc, r, p & 0x01000000 != 0, p & 0x02000000 != 0, p & 0x04000000 != 0, p & 0x08000000 != 0);
    FourTurns(t4, r, p & 0x10000000 != 0, p & 0x20000000 != 0, p & 0x40000000 != 0, p & 0x80000000 != 0)
  }

  function Multiply(r: bv32, p: bv32): bv32 {
    FourthByte(ThirdByte(SecondByte(FirstByte(0, r, p), r, p), r, p), r, p)
  }

  lemma AddIfPoly(x: bv32, r: bv32, b: bool)
    ensures Poly(AddIf(x, r, b)) == Xor(Poly(x), Scale(b, Poly(r)))
  {
    PolyXor(x, r);
    XorZero(Poly(x));
  }

  lemma TurnPoly(acc: bv32, r: bv32, b: bool)
    requires |G| == 32
    ensures Poly(HornerTurn(acc, r, b)) == Xor(Step(G, Poly(acc), false), Scale(b, Poly(r)))
  {
    PolyTurn(acc);
    AddIfPoly(Turn(acc), r, b);
  }

  lemma HornerTurnPoly(acc: bv32, r: bv32, f: Bits, b: bool)
    requires |G| == 32 && Poly(acc) == Horner(G, Zeros(32), Poly(r), f)
    ensures Poly(HornerTurn(acc, r, b)) == Horner(G, Zeros(32), Poly(r), f + [b])
  {
    TurnPoly(acc, r, b);
    HornerSnoc(G, Zeros(32), Poly(r), f, b);
  }

  lemma TwoTurnsPoly(acc: bv32, r: bv32, f: Bits, b0: bool, b1: bool)
    requires |G| == 32 && Poly(acc) == Horner(G, Zeros(32), Poly(r), f)
    ensures Poly(TwoTurns(acc, r, b0, b1)) == Horner(G, Zeros(32), Poly(r), f + [b0] + [b1])
  {
    HornerTurnPoly(acc, r, f, b0);
    HornerTurnPoly(HornerTurn(acc, r, b0), r, f + [b0], b1);
  }

  lemma FourTurnsPoly(acc: bv32, r: bv32, f: Bits, b0: bool, b1: bool, b2: bool, b3: bool)
    requires |G| == 32 && Poly(acc) == Horner(G, Zeros(32), Poly(r), f)
    ensures Poly(FourTurns(acc, r, b0, b1, b2, b3))
            == Horner(G, Zeros(32), Poly(r), f + [b0] + [b1] + [b2] + [b3])
  {
    TwoTurnsPoly(acc, r, f, b0, b1);
    TwoTurnsPoly(TwoTurns(acc, r, b0, b1), r, f + [b0] + [b1], b2, b3);
  }

  lemma FourMore(q: Bits, k: nat)
    requires k + 4 <= |q|
    ensures q[..k] + [q[k]] + [q[k + 1]] + [q[k + 2]] + [q[k + 3]] == q[..k + 4]
  {
  }

  /** Four more bits of `q`. */
  lemma NibblePoly(acc: bv32, r: bv32, q: Bits, k: nat)
    requires |G| == 32 && k + 4 <= |q| && Poly(acc) == Horner(G, Zeros(32), Poly(r), q[..k])
    ensures Poly(FourTurns(acc, r, q[k], q[k + 1], q[k + 2], q[k + 3]))
            == Horner(G, Zeros(32), Poly(r), q[..k + 4])
  {
    FourTurnsPoly(acc, r, q[..k], q[k], q[k + 1], q[k + 2], q[k + 3]);
    FourMore(q, k);
  }

  lemma FirstBits(p: bv32)
    ensures Bit(p, 0) == Has(p, 0x00000001) && Bit(p, 1) == Has(p, 0x00000002)
    ensures Bit(p, 2) == Has(p, 0x00000004) && Bit(p, 3) == Has(p, 0x00000008)
    ensures Bit(p, 4) == Has(p, 0x00000010) && Bit(p, 5) == Has(p, 0x00000020)
    ensures Bit(p, 6) == Has(p, 0x00000040) && Bit(p, 7) == Has(p, 0x00000080)
  {
    MaskValues();
  }

  lemma SecondBits(p: bv32)
    ensures Bit(p, 8) == Has(p, 0x00000100) && Bit(p, 9) == Has(p, 0x00000200)
    ensures Bit(p, 10) == Has(p, 0x00000400) && Bit(p, 11) == Has(p, 0x00000800)
    ensures Bit(p, 12) == Has(p, 0x00001000) && Bit(p, 13) == Has(p, 0x00002000)
    ensures Bit(p, 14) == Has(p, 0x00004000) && Bit(p, 15) == Has(p, 0x00008000)
  {
    MaskValues();
  }

  lemma ThirdBits(p: bv32)
    ensures Bit(p, 16) == Has(p, 0x00010000) && Bit(p, 17) == Has(p, 0x00020000)
    ensures Bit(p, 18) == Has(p, 0x00040000) && Bit(p, 19) == Has(p, 0x00080000)
    ensures Bit(p, 20) == Has(p, 0x00100000) && Bit(p, 21) == Has(p, 0x00200000)
    ensures Bit(p, 22) == Has(p, 0x00400000) && Bit(p, 23) == Has(p, 0x00800000)
  {
    MaskValues();
  }

  lemma FourthBits(p: bv32)
    ensures Bit(p, 24) == Has(p, 0x01000000) && Bit(p, 25) == Has(p, 0x02000000)
    ensures Bit(p, 26) == Has(p, 0x04000000) && Bit(p, 27) == Has(p, 0x08000000)
    ensures Bit(p, 28) == Has(p, 0x10000000) && Bit(p, 29) == Has(p, 0x20000000)
    ensures Bit(p, 30) == Has(p, 0x40000000) && Bit(p, 31) == Has(p, 0x80000000)
  {
    MaskValues();
  }

  lemma FirstBytePoly(acc: bv32, r: bv32, p: bv32)
    requires |G| == 32 && Poly(acc) == Horner(G, Zeros(32), Poly(r), Poly(p)[..0])
    ensures Poly(FirstByte(acc, r, p)) == Horner(G, Zeros(32), Poly(r), Poly(p)[..8])
  {
    FirstBits(p);
    NibblePoly(acc, r, Poly(p), 0);
    var t4 := FourTurns(acc, r, p & 0x00000001 != 0, p & 0x00000002 != 0, p & 0x00000004 != 0, p & 0x00000008 != 0);
    NibblePoly(t4, r, Poly(p), 4);
  }

  lemma SecondBytePoly(acc: bv32, r: bv32, p: bv32)
    requires |G| == 32 && Poly(acc) == Horner(G, Zeros(32), Poly(r), Poly(p)[..8])
    ensures Poly(SecondByte(acc, r, p)) == Horner(G, Zeros(32), Poly(r), Poly(p)[..16])
  {
    SecondBits(p);
    NibblePoly(acc, r, Poly(p), 8);
    var t4 := FourTurns(acc, r, p & 0x00000100 != 0, p & 0x00000200 != 0, p & 0x00000400 != 0, p & 0x00000800 != 0);
    NibblePoly(t4, r, Poly(p), 12);
  }

  lemma ThirdBytePoly(acc: bv32, r: bv32, p: bv32)
    requires |G| == 32 && Poly(acc) == Horner(G, Zeros(32), Poly(r), Poly(p)[..16])
    ensures Poly(ThirdByte(acc, r, p)) == Horner(G, Zeros(32), Poly(r), Poly(p)[..24])
  {
    ThirdBits(p);
    NibblePoly(acc, r, Poly(p), 16);
    var t4 := FourTurns(acc, r, p & 0x00010000 != 0, p & 0x00020000 != 0, p & 0x00040000 != 0, p & 0x00080000 != 0);
    NibblePoly(t4, r, Poly(p), 20);
  }

  lemma FourthBytePoly(acc: bv32, r: bv32, p: bv32)
    requires |G| == 32 && Poly(acc) == Horner(G, Zeros(32), Poly(r), Poly(p)[..24])
    ensures Poly(FourthByte(acc, r, p)) == Horner(G, Zeros(32), Poly(r), Poly(p)[..32])
  {
    FourthBits(p);
    NibblePoly(acc, r, Poly(p), 24);
    var t4 := FourTurns(acc, r, p & 0x01000000 != 0, p & 0x02000000 != 0, p & 0x04000000 != 0, p & 0x08000000 != 0);
    NibblePoly(t4, r, Poly(p), 28);
  }

  lemma PolyZero()
    ensures Poly(0) == Zeros(32)
  {
  }

  lemma MultiplyPoly(r: bv32, p: bv32)
    ensures |G| == 32 && Poly(Multiply(r, p)) == Times(G, Poly(r), Poly(p))
  {
    GeneratorIsEdb88320();
    TwoBytesPoly(r, p);
    var t2 := SecondByte(FirstByte(0, r, p), r, p);
    ThirdBytePoly(t2, r, p);
    FourthBytePoly(ThirdByte(t2, r, p), r, p);
    assert Poly(p)[..32] == Poly(p);
  }

  lemma TwoBytesPoly(r: bv32, p: bv32)
    requires |G| == 32
    ensures Poly(SecondByte(FirstByte(0, r, p), r, p)) == Horner(G, Zeros(32), Poly(r), Poly(p)[..16])
  {
    NothingYet(r, p);
    FirstBytePoly(0, r, p);
    SecondBytePoly(FirstByte(0, r, p), r, p);
  }

  lemma NothingYet(r: bv32, p: bv32)
    requires |G| == 32
    ensures Poly(0) == Horner(G, Zeros(32), Poly(r), Poly(p)[..0])
  {
    PolyZero();
    assert Poly(p)[..0] == [];
  }

  // ---- The powers themselves

  predicate IsPower(n: nat, r: bv32)
  {
    |G| == 32 && Power(G, n) == Poly(r)
  }

  lemma PowerSum(m: nat, r: bv32, n: nat, s: bv32, product: bv32)
    requires IsPower(m, r) && IsPower(n, s) && Multiply(s, r) == product
    ensures IsPower(m + n, product)
  {
    PowerAdd(G, m, n);
    MultiplyPoly(s, r);
  }

  lemma PowerDouble(n: nat, r: bv32, square: bv32)
    requires IsPower(n, r) && Multiply(r, r) == square
    ensures IsPower(2 * n, square)
  {
    PowerSum(n, r, n, r, square);
  }

  lemma PolyOne()
    ensures Poly(0x8000_0000) == One(32)
  {
    MaskValues();
  }

  lemma PowerOne()
    ensures IsPower(1, 0x4000_0000)
  {
    GeneratorIsEdb88320();
    LastPower(G, 1);
    MaskValues();
  }

  lemma ReturnsIff(n: nat, r: bv32)
    requires IsPower(n, r)
    ensures Returns(G, n) <==> r == 0x8000_0000
  {
    PolyOne();
    if Returns(G, n) {
      PolyInjective(r, 0x8000_0000);
    }
  }

  /** x to the powers of two, four at a time, by squaring. */
  lemma PowersTo4()
    ensures IsPower(0x1, 0x40000000)
    ensures IsPower(0x2, 0x20000000)
    ensures IsPower(0x4, 0x08000000)
    ensures IsPower(0x8, 0x00800000)
    ensures IsPower(0x10, 0x00008000)
  {
    PowerOne();
    PowerDouble(0x1, 0x40000000, 0x20000000);
    PowerDouble(0x2, 0x20000000, 0x08000000);
    PowerDouble(0x4, 0x08000000, 0x00800000);
    PowerDouble(0x8, 0x00800000, 0x00008000);
  }

  lemma PowersTo8()
    ensures IsPower(0x10, 0x00008000)
    ensures IsPower(0x20, 0xedb88320)
    ensures IsPower(0x40, 0xb1e6b092)
    ensures IsPower(0x80, 0xa06a2517)
    ensures IsPower(0x100, 0xed627dae)
  {
    PowersTo4();
    PowerDouble(0x10, 0x00008000, 0xedb88320);
    PowerDouble(0x20, 0xedb88320, 0xb1e6b092);
    PowerDouble(0x40, 0xb1e6b092, 0xa06a2517);
    PowerDouble(0x80, 0xa06a2517, 0xed627dae);
  }

  lemma PowersTo12()
    ensures IsPower(0x100, 0xed627dae)
    ensures IsPower(0x200, 0x88d14467)
    ensures IsPower(0x400, 0xd7bbfe6a)
    ensures IsPower(0x800, 0xec447f11)
    ensures IsPower(0x1000, 0x8e7ea170)
  {
    PowersTo8();
    PowerDouble(0x100, 0xed627dae, 0x88d14467);
    PowerDouble(0x200, 0x88d14467, 0xd7bbfe6a);
    PowerDouble(0x400, 0xd7bbfe6a, 0xec447f11);
    PowerDouble(0x800, 0xec447f11, 0x8e7ea170);
  }

  lemma PowersTo16()
    ensures IsPower(0x1000, 0x8e7ea170)
    ensures IsPower(0x2000, 0x6427800e)
    ensures IsPower(0x4000, 0x4d47bae0)
    ensures IsPower(0x8000, 0x09fe548f)
    ensures IsPower(0x10000, 0x83852d0f)
  {
    PowersTo12();
    PowerDouble(0x1000, 0x8e7ea170, 0x6427800e);
    PowerDouble(0x2000, 0x6427800e, 0x4d47bae0);
    PowerDouble(0x4000, 0x4d47bae0, 0x09fe548f);
    PowerDouble(0x8000, 0x09fe548f, 0x83852d0f);
  }

  lemma PowersTo20()
    ensures IsPower(0x10000, 0x83852d0f)
    ensures IsPower(0x20000, 0x30362f1a)
    ensures IsPower(0x40000, 0x7b5a9cc3)
    ensures IsPower(0x80000, 0x31fec169)
    ensures IsPower(0x100000, 0x9fec022a)
  {
    PowersTo16();
    PowerDouble(0x10000, 0x83852d0f, 0x30362f1a);
    PowerDouble(0x20000, 0x30362f1a, 0x7b5a9cc3);
    PowerDouble(0x40000, 0x7b5a9cc3, 0x31fec169);
    PowerDouble(0x80000, 0x31fec169, 0x9fec022a);
  }

  lemma PowersTo24()
    ensures IsPower(0x100000, 0x9fec022a)
    ensures IsPower(0x200000, 0x6c8dedc4)
    ensures IsPower(0x400000, 0x15d6874d)
    ensures IsPower(0x800000, 0x5fde7a4e)
    ensures IsPower(0x1000000, 0xbad90e37)
  {
    PowersTo20();
    PowerDouble(0x100000, 0x9fec022a, 0x6c8dedc4);
    PowerDouble(0x200000, 0x6c8dedc4, 0x15d6874d);
    PowerDouble(0x400000, 0x15d6874d, 0x5fde7a4e);
    PowerDouble(0x800000, 0x5fde7a4e, 0xbad90e37);
  }

  lemma PowersTo28()
    ensures IsPower(0x1000000, 0xbad90e37)
    ensures IsPower(0x2000000, 0x2e4e5eef)
    ensures IsPower(0x4000000, 0x4eaba214)
    ensures IsPower(0x8000000, 0xa8a472c0)
    ensures IsPower(0x10000000, 0x429a969e)
  {
    PowersTo24();
    PowerDouble(0x1000000, 0xbad90e37, 0x2e4e5eef);
    PowerDouble(0x2000000, 0x2e4e5eef, 0x4eaba214);
    PowerDouble(0x4000000, 0x4eaba214, 0xa8a472c0);
    PowerDouble(0x8000000, 0xa8a472c0, 0x429a969e);
  }

  lemma PowersTo32()
    ensures IsPower(0x10000000, 0x429a969e)
    ensures IsPower(0x20000000, 0x148d302a)
    ensures IsPower(0x40000000, 0xc40ba6d0)
    ensures IsPower(0x80000000, 0xc4e22c3c)
    ensures IsPower(0x100000000, 0x40000000)
  {
    PowersTo28();
    PowerDouble(0x10000000, 0x429a969e, 0x148d302a);
    PowerDouble(0x20000000, 0x148d302a, 0xc40ba6d0);
    PowerDouble(0x40000000, 0xc40ba6d0, 0xc4e22c3c);
    PowerDouble(0x80000000, 0xc4e22c3c, 0x40000000);
  }

  lemma ComesBackAtOrder()
    ensures |G| > 0 && Returns(G, 0xffff_ffff)
  {
    GeneratorIsEdb88320();
    PowersTo32();
    PowerOne();
    PowerAdd(G, 0xffff_ffff, 1);
    PowerAdd(G, 0, 1);
    assert Power(G, 0) == One(32);
    RunBijective(G, Power(G, 0xffff_ffff), Zeros(1));
    RunBijective(G, One(32), Zeros(1));
  }

  /** x^(3·4^k), the sums of neighbouring powers of two. */
  lemma ThreesFrom0()
    ensures IsPower(0x3, 0x10000000)
    ensures IsPower(0xc, 0x00080000)
    ensures IsPower(0x30, 0xe1351b80)
    ensures IsPower(0xc0, 0x32b39da3)
  {
    PowersTo4();
    PowersTo8();
    PowerSum(0x1, 0x40000000, 0x2, 0x20000000, 0x10000000);
    PowerSum(0x4, 0x08000000, 0x8, 0x00800000, 0x00080000);
    PowerSum(0x10, 0x00008000, 0x20, 0xedb88320, 0xe1351b80);
    PowerSum(0x40, 0xb1e6b092, 0x80, 0xa06a2517, 0x32b39da3);
  }

  lemma ThreesFrom4()
    ensures IsPower(0x300, 0xe5b592b8)
    ensures IsPower(0xc00, 0xb72d2b3c)
    ensures IsPower(0x3000, 0xbf110f7e)
    ensures IsPower(0xc000, 0x552d4042)
  {
    PowersTo12();
    PowersTo16();
    PowerSum(0x100, 0xed627dae, 0x200, 0x88d14467, 0xe5b592b8);
    PowerSum(0x400, 0xd7bbfe6a, 0x800, 0xec447f11, 0xb72d2b3c);
    PowerSum(0x1000, 0x8e7ea170, 0x2000, 0x6427800e, 0xbf110f7e);
    PowerSum(0x4000, 0x4d47bae0, 0x8000, 0x09fe548f, 0x552d4042);
  }

  lemma ThreesFrom8()
    ensures IsPower(0x30000, 0xf27674ad)
    ensures IsPower(0xc0000, 0x2c41450b)
    ensures IsPower(0x300000, 0x0abf1a4f)
    ensures IsPower(0xc00000, 0xfe664796)
  {
    PowersTo20();
    PowersTo24();
    PowerSum(0x10000, 0x83852d0f, 0x20000, 0x30362f1a, 0xf27674ad);
    PowerSum(0x40000, 0x7b5a9cc3, 0x80000, 0x31fec169, 0x2c41450b);
    PowerSum(0x100000, 0x9fec022a, 0x200000, 0x6c8dedc4, 0x0abf1a4f);
    PowerSum(0x400000, 0x15d6874d, 0x800000, 0x5fde7a4e, 0xfe664796);
  }

  lemma ThreesFrom12()
    ensures IsPower(0x3000000, 0x725d2aad)
    ensures IsPower(0xc000000, 0x6afbb0f7)
    ensures IsPower(0x30000000, 0x6633295b)
  {
    PowersTo28();
    PowersTo32();
    PowerSum(0x1000000, 0xbad90e37, 0x2000000, 0x2e4e5eef, 0x725d2aad);
    PowerSum(0x4000000, 0x4eaba214, 0x8000000, 0xa8a472c0, 0x6afbb0f7);
    PowerSum(0x10000000, 0x429a969e, 0x20000000, 0x148d302a, 0x6633295b);
  }

  /** x^(15·16^k). */
  lemma FifteensLow()
    ensures IsPower(0xf, 0x00010000)
    ensures IsPower(0xf0, 0x9e36506b)
    ensures IsPower(0xf00, 0x8ab14358)
    ensures IsPower(0xf000, 0x196613fe)
  {
    ThreesFrom0();
    ThreesFrom4();
    PowerSum(0x3, 0x10000000, 0xc, 0x00080000, 0x00010000);
    PowerSum(0x30, 0xe1351b80, 0xc0, 0x32b39da3, 0x9e36506b);
    PowerSum(0x300, 0xe5b592b8, 0xc00, 0xb72d2b3c, 0x8ab14358);
    PowerSum(0x3000, 0xbf110f7e, 0xc000, 0x552d4042, 0x196613fe);
  }

  lemma FifteensHigh()
    ensures IsPower(0xf0000, 0xc18e0eba)
    ensures IsPower(0xf00000, 0x0618410a)
    ensures IsPower(0xf000000, 0x3261eb50)
  {
    ThreesFrom8();
    ThreesFrom12();
    PowerSum(0x30000, 0xf27674ad, 0xc0000, 0x2c41450b, 0xc18e0eba);
    PowerSum(0x300000, 0x0abf1a4f, 0xc00000, 0xfe664796, 0x0618410a);
    PowerSum(0x3000000, 0x725d2aad, 0xc000000, 0x6afbb0f7, 0x3261eb50);
  }

  /** x^((2^32 - 1)/3), built up eight bits of the exponent at a time; it is not 1. */
  lemma Below3To8()
    ensures IsPower(0x55, 0xf44f2413)
  {
    PowersTo4();
    PowersTo8();
    PowerSum(0x1, 0x40000000, 0x4, 0x08000000, 0x04000000);
    PowerSum(0x5, 0x04000000, 0x10, 0x00008000, 0x00000400);
    PowerSum(0x15, 0x00000400, 0x40, 0xb1e6b092, 0xf44f2413);
  }

  lemma Below3To16()
    ensures IsPower(0x5555, 0xeba0264a)
  {
    Below3To8();
    PowersTo12();
    PowersTo16();
    PowerSum(0x55, 0xf44f2413, 0x100, 0xed627dae, 0xe15528e5);
    PowerSum(0x155, 0xe15528e5, 0x400, 0xd7bbfe6a, 0x4a625cd1);
    PowerSum(0x555, 0x4a625cd1, 0x1000, 0x8e7ea170, 0x3fc6efd3);
    PowerSum(0x1555, 0x3fc6efd3, 0x4000, 0x4d47bae0, 0xeba0264a);
  }

  lemma Below3To24()
    ensures IsPower(0x555555, 0x4281464d)
  {
    Below3To16();
    PowersTo20();
    PowersTo24();
    PowerSum(0x5555, 0xeba0264a, 0x10000, 0x83852d0f, 0xaba85d50);
    PowerSum(0x15555, 0xaba85d50, 0x40000, 0x7b5a9cc3, 0xb8678921);
    PowerSum(0x55555, 0xb8678921, 0x100000, 0x9fec022a, 0xa121b3bf);
    PowerSum(0x155555, 0xa121b3bf, 0x400000, 0x15d6874d, 0x4281464d);
  }

  lemma Below3()
    ensures IsPower(0x55555555, 0xc736eb52)
  {
    Below3To24();
    PowersTo28();
    PowersTo32();
    PowerSum(0x555555, 0x4281464d, 0x1000000, 0xbad90e37, 0xed9796a7);
    PowerSum(0x1555555, 0xed9796a7, 0x4000000, 0x4eaba214, 0x98aba02d);
    PowerSum(0x5555555, 0x98aba02d, 0x10000000, 0x429a969e, 0x0ecb08a8);
    PowerSum(0x15555555, 0x0ecb08a8, 0x40000000, 0xc40ba6d0, 0xc736eb52);
  }

  lemma MultipleOf3(k: nat)
    requires |G| > 0 && Returns(G, k)
    ensures Divides(3, k)
  {
    Below3();
    ComesBackAtOrder();
    FermatPrimes();
    ReturnsIff(0x55555555, 0xc736eb52);
    ReturnsOnlyAtMultiples(G, 3, 0x55555555, k);
  }

  lemma Below5To16()
    ensures IsPower(0x3333, 0xc1a99cf7)
  {
    ThreesFrom0();
    ThreesFrom4();
    PowerSum(0x3, 0x10000000, 0x30, 0xe1351b80, 0x1c26a370);
    PowerSum(0x33, 0x1c26a370, 0x300, 0xe5b592b8, 0x56a92869);
    PowerSum(0x333, 0x56a92869, 0x3000, 0xbf110f7e, 0xc1a99cf7);
  }

  lemma Below5()
    ensures IsPower(0x33333333, 0x84011278)
  {
    Below5To16();
    ThreesFrom8();
    ThreesFrom12();
    PowerSum(0x3333, 0xc1a99cf7, 0x30000, 0xf27674ad, 0x3b2be47a);
    PowerSum(0x33333, 0x3b2be47a, 0x300000, 0x0abf1a4f, 0xc6a740b1);
    PowerSum(0x333333, 0xc6a740b1, 0x3000000, 0x725d2aad, 0x07d548e2);
    PowerSum(0x3333333, 0x07d548e2, 0x30000000, 0x6633295b, 0x84011278);
  }

  lemma MultipleOf5(k: nat)
    requires |G| > 0 && Returns(G, k)
    ensures Divides(5, k)
  {
    Below5();
    ComesBackAtOrder();
    FermatPrimes();
    ReturnsIff(0x33333333, 0x84011278);
    ReturnsOnlyAtMultiples(G, 5, 0x33333333, k);
  }

  lemma Below17()
    ensures IsPower(0xf0f0f0f, 0x8c283ca0)
  {
    FifteensLow();
    FifteensHigh();
    PowerSum(0xf, 0x00010000, 0xf00, 0x8ab14358, 0xe01f9dcf);
    PowerSum(0xf0f, 0xe01f9dcf, 0xf0000, 0xc18e0eba, 0xaf69585a);
    PowerSum(0xf0f0f, 0xaf69585a, 0xf000000, 0x3261eb50, 0x8c283ca0);
  }

  lemma MultipleOf17(k: nat)
    requires |G| > 0 && Returns(G, k)
    ensures Divides(17, k)
  {
    Below17();
    ComesBackAtOrder();
    FermatPrimes();
    ReturnsIff(0xf0f0f0f, 0x8c283ca0);
    ReturnsOnlyAtMultiples(G, 17, 0xf0f0f0f, k);
  }

  lemma Below257()
    ensures IsPower(0xff00ff, 0x351c22c9)
  {
    FifteensLow();
    FifteensHigh();
    PowerSum(0xf, 0x00010000, 0xf0, 0x9e36506b, 0x01b5fd1d);
    PowerSum(0xf0000, 0xc18e0eba, 0xf00000, 0x0618410a, 0x14ec2c14);
    PowerSum(0xff, 0x01b5fd1d, 0xff0000, 0x14ec2c14, 0x351c22c9);
  }

  lemma MultipleOf257(k: nat)
    requires |G| > 0 && Returns(G, k)
    ensures Divides(257, k)
  {
    Below257();
    ComesBackAtOrder();
    FermatPrimes();
    ReturnsIff(0xff00ff, 0x351c22c9);
    ReturnsOnlyAtMultiples(G, 257, 0xff00ff, k);
  }

  lemma Below65537()
    ensures IsPower(0xffff, 0xdc7b5c5f)
  {
    FifteensLow();
    PowerSum(0xf, 0x00010000, 0xf0, 0x9e36506b, 0x01b5fd1d);
    PowerSum(0xf00, 0x8ab14358, 0xf000, 0x196613fe, 0x3ef534d3);
    PowerSum(0xff, 0x01b5fd1d, 0xff00, 0x3ef534d3, 0xdc7b5c5f);
  }

  lemma MultipleOf65537(k: nat)
    requires |G| > 0 && Returns(G, k)
    ensures Divides(65537, k)
  {
    Below65537();
    ComesBackAtOrder();
    FermatPrimes();
    ReturnsIff(0xffff, 0xdc7b5c5f);
    ReturnsOnlyAtMultiples(G, 65537, 0xffff, k);
  }

  lemma LargestFermatPrime()
    ensures Prime(65537)
  {
    PrimeByTrial(65537, 257);
  }

  lemma FermatPrimes()
    ensures Prime(3) && Prime(5) && Prime(17) && Prime(257) && Prime(65537)
  {
    PrimeByTrial(3, 2);
    PrimeByTrial(5, 3);
    PrimeByTrial(17, 5);
    PrimeByTrial(257, 17);
    LargestFermatPrime();
  }

  lemma CommonMultiple(k: nat)
    requires Divides(3, k) && Divides(5, k) && Divides(17, k) && Divides(257, k) && Divides(65537, k)
    ensures k % 0xffff_ffff == 0
  {
    var a: nat :| IsMultiple(a, 3, k);
    var b: nat :| IsMultiple(b, 5, k);
    var c: nat :| IsMultiple(c, 17, k);
    var d: nat :| IsMultiple(d, 257, k);
    var e: nat :| IsMultiple(e, 65537, k);
    JoinMultiples(3, 5, 2, -1, a, b, k);
    var ab := 2 * b - a;
    JoinMultiples(15, 17, 8, -7, ab, c, k);
    var abc := 8 * c - 7 * ab;
    JoinMultiples(255, 257, 128, -127, abc, d, k);
    var abcd := 128 * d - 127 * abc;
    JoinMultiples(65535, 65537, 32768, -32767, abcd, e, k);
  }

  lemma ReturnsOnlyAtOrder(k: nat)
    requires |G| > 0 && Returns(G, k)
    ensures k % 0xffff_ffff == 0
  {
    MultipleOf3(k);
    MultipleOf5(k);
    MultipleOf17(k);
    MultipleOf257(k);
    MultipleOf65537(k);
    CommonMultiple(k);
  }

  // ---- The first power of x that is another plus 1

  lemma Longer5()
    ensures IsPower(0x17, 0x00000100)
  {
    PowersTo4();
    PowerSum(0x1, 0x40000000, 0x2, 0x20000000, 0x10000000);
    PowerSum(0x3, 0x10000000, 0x4, 0x08000000, 0x01000000);
    PowerSum(0x7, 0x01000000, 0x10, 0x00008000, 0x00000100);
  }

  lemma Longer8()
    ensures IsPower(0xf7, 0x6e8c1b41)
  {
    Longer5();
    PowersTo8();
    PowerSum(0x17, 0x00000100, 0x20, 0xedb88320, 0x01c26a37);
    PowerSum(0x37, 0x01c26a37, 0x40, 0xb1e6b092, 0xc18edfc0);
    PowerSum(0x77, 0xc18edfc0, 0x80, 0xa06a2517, 0x6e8c1b41);
  }

  lemma Longer()
    ensures IsPower(0x165f7, 0x0a02228b)
  {
    Longer8();
    PowersTo12();
    PowersTo16();
    PowerSum(0xf7, 0x6e8c1b41, 0x100, 0xed627dae, 0x694c05f1);
    PowerSum(0x1f7, 0x694c05f1, 0x400, 0xd7bbfe6a, 0xd7af28b8);
    PowerSum(0x5f7, 0xd7af28b8, 0x2000, 0x6427800e, 0x8b60ff8c);
    PowerSum(0x25f7, 0x8b60ff8c, 0x4000, 0x4d47bae0, 0xa03cf795);
    PowerSum(0x65f7, 0xa03cf795, 0x10000, 0x83852d0f, 0x0a02228b);
  }

  lemma Shorter8()
    ensures IsPower(0xce, 0x2e50c980)
  {
    PowersTo4();
    PowersTo8();
    PowerSum(0x2, 0x20000000, 0x4, 0x08000000, 0x02000000);
    PowerSum(0x6, 0x02000000, 0x8, 0x00800000, 0x00020000);
    PowerSum(0xe, 0x00020000, 0x40, 0xb1e6b092, 0x4dc8a10b);
    PowerSum(0x4e, 0x4dc8a10b, 0x80, 0xa06a2517, 0x2e50c980);
  }

  lemma Shorter()
    ensures IsPower(0xa2ce, 0x8a02228b)
  {
    Shorter8();
    PowersTo12();
    PowersTo16();
    PowerSum(0xce, 0x2e50c980, 0x200, 0x88d14467, 0xee196295);
    PowerSum(0x2ce, 0xee196295, 0x2000, 0x6427800e, 0x48b85155);
    PowerSum(0x22ce, 0x48b85155, 0x8000, 0x09fe548f, 0x8a02228b);
  }

  /** x^m is x^k + 1: so x^m + x^k + 1 is a multiple of the generator. */
  predicate ThreeTerms(m: nat, k: nat) {
    |G| == 32 && OneApart(G, m, k)
  }

  /** x^91639 is x^41678 + 1. */
  lemma ThreeTermMultiple() returns (m: nat, k: nat)
    ensures 0 < k < m < 91640 && ThreeTerms(m, k)
  {
    m, k := 91639, 41678;
    Longer();
    Shorter();
    PolyOne();
    PolyXor(0x8a02228b, 0x80000000);
  }

  /** **x has order 2^32 - 1** modulo the generator: it is primitive. */
  lemma OrderIsFull()
    ensures |G| == 32 && HasConstantTerm(G) && HasOrder(G, 0xffff_ffff)
  {
    GeneratorIsEdb88320();
    ComesBackAtOrder();
    forall k: nat | Returns(G, k) ensures k % 0xffff_ffff == 0 {
      ReturnsOnlyAtOrder(k);
    }
    OrderByMultiples(G, 0xffff_ffff);
  }
}
