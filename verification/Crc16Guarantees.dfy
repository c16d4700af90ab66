/** What a matching CRC-16 is worth, for every message. Messages are compared bit by bit in the
    order they are fed, high bit of each byte first. */
module Crc16Guarantees {
  import opened Gf2
  import opened Lfsr
  import opened Order
  import opened Errors
  import opened Bytes
  import opened Crc16
  import Crc16Order

  // ---- What is computed

  lemma SeedIsOnes()
    ensures |G| == 16 && HasConstantTerm(G) && Poly(SEED) == Ones(16)
  {
    GeneratorIs1021();
    Crc16.MaskValues();
  }

  /** **The checksum is the remainder** of message·x^16 + (x^15 + ... + 1)·x^(8n) on division by
      x^16 + x^12 + x^5 + 1, and no other value is. */
  lemma CrcIsRemainder(data: seq<byte>, rest: bv16)
    ensures |G| == 16
    ensures rest == Crc(data) <==> exists q :: IsDivision(G, Ones(16), MsbBits(data), q, Poly(rest))
  {
    SeedIsOnes();
    FedRuns(SEED, data);
    RemainderIff(G, Poly(SEED), MsbBits(data), Poly(rest));
    if Poly(rest) == Poly(Crc(data)) {
      PolyInjective(rest, Crc(data));
    }
  }

  /** Sixteen bits or more are checked as they would be from an empty register, the first sixteen inverted. */
  lemma FirstSixteenInverted(data: seq<byte>)
    requires |data| >= 2
    ensures |G| == 16
    ensures Poly(Crc(data)) == Run(G, Zeros(16), FirstInverted(MsbBits(data), 16))
  {
    GeneratorIs1021();
    FedFromOnes(data, MsbBits(data));
    OnesAsInversion(G, MsbBits(data));
  }

  lemma FedFromOnes(data: seq<byte>, u: Bits)
    requires u == MsbBits(data)
    ensures |G| == 16 && Poly(Crc(data)) == Run(G, Ones(16), u)
  {
    SeedIsOnes();
    FedRuns(SEED, data);
  }

  function FourShifts(r: bv16): bv16 {
    Shift(Shift(Shift(Shift(r))))
  }

  lemma EightShifts(r: bv16)
    ensures Shifts(r, 8) == FourShifts(FourShifts(r))
  {
    assert Shifts(r, 0) == r;
    ShiftsByFour(r, 0);
    ShiftsByFour(r, 4);
  }

  lemma ShiftsByFour(r: bv16, n: nat)
    ensures Shifts(r, n + 4) == FourShifts(Shifts(r, n))
  {
    assert Shifts(r, n + 2) == Shift(Shift(Shifts(r, n)));
  }

  lemma FedByteIs(data: seq<byte>, r: bv16, b: byte, mixed: bv16, half: bv16, after: bv16)
    requires Fed(SEED, data) == r && Mixed(r, b) == mixed
    requires FourShifts(mixed) == half && FourShifts(half) == after
    ensures Fed(SEED, data + [b]) == after
  {
    assert (data + [b])[..|data|] == data;
    EightShifts(mixed);
  }

  /** The published check: the digits one to nine. */
  lemma CheckValue()
    ensures Crc([]) == 0xffff
    ensures Crc([0x31, 0x32, 0x33, 0x34, 0x35, 0x36, 0x37, 0x38, 0x39]) == 0x29b1
  {
    FedByteIs([], 0xffff, 0x31, 0xceff, 0x2e7c, 0xc782);
    var one := [] + [0x31];
    FedByteIs(one, 0xc782, 0x32, 0xf582, 0xa9cf, 0x3dba);
    var two := one + [0x32];
    FedByteIs(two, 0x3dba, 0x33, 0x0eba, 0xeba0, 0x5bce);
    FourToNine(two + [0x33]);
    assert two + [0x33] + [0x34, 0x35, 0x36, 0x37, 0x38, 0x39]
        == [0x31, 0x32, 0x33, 0x34, 0x35, 0x36, 0x37, 0x38, 0x39];
  }

  lemma FourToNine(three: seq<byte>)
    requires Fed(SEED, three) == 0x5bce
    ensures Fed(SEED, three + [0x34, 0x35, 0x36, 0x37, 0x38, 0x39]) == 0x29b1
  {
    FedByteIs(three, 0x5bce, 0x34, 0x6fce, 0x9c26, 0x5349);
    var four := three + [0x34];
    FedByteIs(four, 0x5349, 0x35, 0x6649, 0x0456, 0x4560);
    var five := four + [0x35];
    FedByteIs(five, 0x4560, 0x36, 0x7360, 0x46e7, 0x2ef4);
    SevenToNine(five + [0x36]);
    assert five + [0x36] + [0x37, 0x38, 0x39] == three + [0x34, 0x35, 0x36, 0x37, 0x38, 0x39];
  }

  lemma SevenToNine(six: seq<byte>)
    requires Fed(SEED, six) == 0x2ef4
    ensures Fed(SEED, six + [0x37, 0x38, 0x39]) == 0x29b1
  {
    FedByteIs(six, 0x2ef4, 0x37, 0x19f4, 0x8f61, 0x7718);
    var seven := six + [0x37];
    FedByteIs(seven, 0x7718, 0x38, 0x4f18, 0xb104, 0xa12b);
    FedByteIs(seven + [0x38], 0xa12b, 0x39, 0x982b, 0x1399, 0x29b1);
    assert seven + [0x38] + [0x39] == six + [0x37, 0x38, 0x39];
  }

  lemma {:induction false} Chunks(r: bv16, a: seq<byte>, b: seq<byte>)
    ensures Fed(Fed(r, a), b) == Fed(r, a + b)
    decreases |b|
  {
    if b == [] {
      assert a + b == a;
    } else {
      var t := |b| - 1;
      Chunks(r, a, b[..t]);
      assert (a + b)[..|a + b| - 1] == a + b[..t];
    }
  }

  /** **However the data is cut**, into any number of pieces, feeding them in order is feeding the whole. */
  lemma {:induction false} Pieces(r: bv16, pieces: seq<seq<byte>>)
    ensures FedEach(r, pieces) == Fed(r, Joined(pieces))
    decreases |pieces|
  {
    if pieces != [] {
      Pieces(Fed(r, pieces[0]), pieces[1..]);
      Chunks(r, pieces[0], Joined(pieces[1..]));
    }
  }

  lemma PolySum(x: bv16, y: bv16, z: bv16)
    requires Poly(z) == Xor(Poly(x), Poly(y))
    ensures z == x ^ y
  {
    PolyXor(x, y);
    PolyInjective(z, x ^ y);
  }

  lemma FedXorPoly(r: bv16, s: bv16, t: bv16, a: seq<byte>, b: seq<byte>)
    requires |a| == |b| && Poly(t) == Xor(Poly(r), Poly(s))
    ensures Poly(Fed(t, XorBytes(a, b))) == Xor(Poly(Fed(r, a)), Poly(Fed(s, b)))
  {
    GeneratorIs1021();
    FedRuns(t, XorBytes(a, b));
    FedRuns(r, a);
    FedRuns(s, b);
    MsbBitsXor(a, b);
    RunXor(G, Poly(r), Poly(s), MsbBits(a), MsbBits(b));
  }

  /** Feeding is linear in the register and the data together. */
  lemma FedXor(r: bv16, s: bv16, a: seq<byte>, b: seq<byte>)
    requires |a| == |b|
    ensures Fed(r ^ s, XorBytes(a, b)) == Fed(r, a) ^ Fed(s, b)
  {
    PolyXor(r, s);
    FedXorPoly(r, s, r ^ s, a, b);
    PolySum(Fed(r, a), Fed(s, b), Fed(r ^ s, XorBytes(a, b)));
  }

  /** **The checksum is affine**: three equally long messages xored together have the xor of
      their checksums. */
  lemma Affine(a: seq<byte>, b: seq<byte>, c: seq<byte>)
    requires |a| == |b| == |c|
    ensures Crc(XorBytes(XorBytes(a, b), c)) == Crc(a) ^ Crc(b) ^ Crc(c)
  {
    FedXor(SEED, SEED, a, b);
    FedXor(SEED ^ SEED, SEED, XorBytes(a, b), c);
    assert SEED ^ SEED ^ SEED == SEED;
  }

  // ---- What is caught

  lemma SameCrcSameRegister(a: seq<byte>, b: seq<byte>)
    ensures |G| == 16 && HasConstantTerm(G)
    ensures Crc(a) == Crc(b) <==> Run(G, Poly(SEED), MsbBits(a)) == Run(G, Poly(SEED), MsbBits(b))
  {
    GeneratorIs1021();
    FedRuns(SEED, a);
    FedRuns(SEED, b);
    if Poly(Crc(a)) == Poly(Crc(b)) {
      PolyInjective(Crc(a), Crc(b));
    }
  }

  /** **Bursts**: messages that differ only within sixteen consecutive bits never share a
      checksum, wherever the sixteen bits are and however long the messages. */
  lemma BurstCaught(a: seq<byte>, b: seq<byte>, start: nat)
    requires |a| == |b| && a != b
    requires Confined(Xor(MsbBits(a), MsbBits(b)), start, 16)
    ensures Crc(a) != Crc(b)
  {
    SameCrcSameRegister(a, b);
    DifferentBits(a, b);
    BurstSeen(G, Poly(SEED), MsbBits(a), MsbBits(b), start);
  }

  /** The generator has four terms. */
  lemma GeneratorWeight()
    ensures Weight([true] + G) == 4
  {
    WeightConcat([true], G);
    WeightConcat(Zeros(3), [true]);
    WeightConcat(Zeros(3) + [true], Zeros(6));
    WeightConcat(Zeros(3) + [true] + Zeros(6), [true]);
    WeightConcat(Zeros(3) + [true] + Zeros(6) + [true], Zeros(4));
    WeightConcat(Zeros(3) + [true] + Zeros(6) + [true] + Zeros(4), [true]);
    assert [true][1..] == [];
  }

  lemma GeneratorOdd()
    ensures Odd(G)
  {
    GeneratorWeight();
    assert ([true] + G)[1..] == G;
  }

  lemma SeedEven()
    ensures !Odd(Poly(SEED))
  {
    Crc16.MaskValues();
    var ones := [true, true, true, true];
    assert Weight(ones) == 4 by {
      assert ones[1..] == [true, true, true] && ones[1..][1..] == [true, true];
      assert ones[1..][1..][1..] == [true] && ones[1..][1..][1..][1..] == [];
    }
    assert Poly(SEED) == ones + ones + ones + ones;
    WeightConcat(ones, ones);
    WeightConcat(ones + ones, ones);
    WeightConcat(ones + ones + ones, ones);
  }

  /** **Parity**: the checksum has an odd number of ones exactly when the message has. */
  lemma ParityLaw(data: seq<byte>)
    ensures Odd(Poly(Crc(data))) == Odd(MsbBits(data))
  {
    GeneratorIs1021();
    GeneratorOdd();
    SeedEven();
    FedRuns(SEED, data);
    RunParity(G, Poly(SEED), MsbBits(data));
  }

  lemma ReturnsOnlyAtOrder(k: nat)
    requires |G| > 0 && Returns(G, k)
    ensures k % 32767 == 0
  {
    Crc16Order.ComesBackAt32767();
    Crc16Order.NotAt4681();
    Crc16Order.NotAt1057();
    Crc16Order.NotAt217();
    SmallPrimes();
    ReturnsOnlyAtMultiples(G, 7, 4681, k);
    ReturnsOnlyAtMultiples(G, 31, 1057, k);
    ReturnsOnlyAtMultiples(G, 151, 217, k);
    CommonMultiple(k);
  }

  /** **x has order 32767** modulo the generator. */
  lemma OrderIs32767()
    ensures |G| == 16 && HasConstantTerm(G) && HasOrder(G, 32767)
  {
    GeneratorIs1021();
    Crc16Order.ComesBackAt32767();
    forall k: nat | Returns(G, k) ensures k % 32767 == 0 {
      ReturnsOnlyAtOrder(k);
    }
    OrderByMultiples(G, 32767);
  }

  lemma NoReturnBelow32767()
    ensures |G| == 16 && NoReturnBelow(G, 32767)
  {
    OrderIs32767();
  }

  lemma SmallPrimes()
    ensures Prime(7) && Prime(31) && Prime(151)
  {
    PrimeByTrial(7, 3);
    PrimeByTrial(31, 6);
    PrimeByTrial(151, 13);
  }

  lemma CommonMultiple(k: nat)
    requires Divides(7, k) && Divides(31, k) && Divides(151, k)
    ensures k % 32767 == 0
  {
    var a: nat :| IsMultiple(a, 7, k);
    var b: nat :| IsMultiple(b, 31, k);
    var c: nat :| IsMultiple(c, 151, k);
    JoinMultiples(7, 31, 9, -2, a, b, k);
    JoinMultiples(217, 151, -16, 23, 9 * b - 2 * a, c, k);
  }

  /** **Two errors** slip through exactly when their distance is a multiple of 32767 bits. */
  lemma TwoErrorsMissedIff(a: seq<byte>, b: seq<byte>, i: nat, j: nat)
    requires |a| == |b| && i < j < 8 * |a|
    requires forall p | 0 <= p < 8 * |a| :: MsbBits(a)[p] != MsbBits(b)[p] <==> p == i || p == j
    ensures Crc(a) == Crc(b) <==> (j - i) % 32767 == 0
  {
    SameCrcSameRegister(a, b);
    OrderIs32767();
    TwoErrorsUnseenAtOrder(G, 32767, Poly(SEED), MsbBits(a), MsbBits(b), i, j);
  }

  lemma DifferentBits(a: seq<byte>, b: seq<byte>)
    requires |a| == |b| && a != b
    ensures MsbBits(a) != MsbBits(b)
  {
    if MsbBits(a) == MsbBits(b) {
      MsbBitsInjective(a, b);
    }
  }

  /** **Minimum distance four**: distinct messages with one checksum, differing only within
      32767 consecutive bits, differ in at least four. */
  lemma MinimumDistance(a: seq<byte>, b: seq<byte>, start: nat)
    requires |a| == |b| && a != b && Crc(a) == Crc(b)
    requires Confined(Xor(MsbBits(a), MsbBits(b)), start, 32767)
    ensures Weight(Xor(MsbBits(a), MsbBits(b))) >= 4
  {
    SameCrcSameRegister(a, b);
    DifferentBits(a, b);
    GeneratorOdd();
    NoReturnBelow32767();
    FourErrorsNeeded(G, 32767, Poly(SEED), MsbBits(a), MsbBits(b), start);
  }

  lemma FirstGeneratorByte()
    ensures HighFirst(0x88) == [true] + Zeros(3) + [true] + Zeros(3)
  {
    Bytes.MaskValues();
  }

  lemma SecondGeneratorByte()
    ensures HighFirst(0x10) == Zeros(3) + [true] + Zeros(4)
  {
    Bytes.MaskValues();
  }

  lemma ThirdGeneratorByte()
    ensures HighFirst(0x80) == [true] + Zeros(7)
  {
    Bytes.MaskValues();
  }

  lemma OneByteBits(x: byte)
    ensures MsbBits([x]) == HighFirst(x)
  {
    assert [x][1..] == [];
  }

  lemma ThreeBytes(x: byte, y: byte, z: byte)
    ensures MsbBits([x, y, z]) == HighFirst(x) + HighFirst(y) + HighFirst(z)
  {
    assert [x, y, z] == [x] + [y] + [z];
    MsbBitsConcat([x], [y]);
    MsbBitsConcat([x] + [y], [z]);
    OneByteBits(x);
    OneByteBits(y);
    OneByteBits(z);
  }

  /** The generator itself, and zeros to fill three bytes. */
  lemma GeneratorBytes()
    ensures MsbBits([0x88, 0x10, 0x80]) == [true] + G + Zeros(7)
  {
    ThreeBytes(0x88, 0x10, 0x80);
    FirstGeneratorByte();
    SecondGeneratorByte();
    ThirdGeneratorByte();
  }

  lemma GeneratorEmpties(n: nat)
    ensures |G| == 16 && Run(G, Zeros(16), [true] + G + Zeros(n)) == Zeros(16)
  {
    GeneratorIs1021();
    XorZero(G);
    assert Zeros(16)[1..] + [false] == Zeros(16);
    assert ([true] + G + Zeros(n))[1..] == G + Zeros(n);
    assert Step(G, Zeros(16), true) == G;
    RunConcat(G, G, G, Zeros(n));
    assert G + Zeros(0) == G;
    EmptiedIff(G, G, G);
    RunZeros(G, n);
  }

  /** **Four is the distance**: every message of three bytes or more has another, differing in four of
      its first seventeen bits and nowhere else, with the same checksum. */
  lemma DistanceIsFour(a: seq<byte>) returns (b: seq<byte>)
    requires |a| >= 3
    ensures |b| == |a| && Crc(b) == Crc(a)
    ensures Confined(Xor(MsbBits(a), MsbBits(b)), 0, 17) && Weight(Xor(MsbBits(a), MsbBits(b))) == 4
  {
    var rest := seq(|a| - 3, i requires 0 <= i < |a| - 3 => 0 as byte);
    var d: seq<byte> := [0x88, 0x10, 0x80] + rest;
    b := XorBytes(a, d);
    GeneratorBytes();
    GeneratorWeight();
    ZeroBytes(rest);
    MsbBitsConcat([0x88, 0x10, 0x80], rest);
    var n := 7 + 8 * |rest|;
    assert MsbBits(d) == [true] + G + Zeros(n);
    MsbBitsXor(a, d);
    XorCancels(MsbBits(a), MsbBits(d));
    WeightConcat([true] + G, Zeros(n));
    GeneratorEmpties(n);
    GeneratorIs1021();
    XorZero(Poly(SEED));
    RunXor(G, Poly(SEED), Zeros(16), MsbBits(a), MsbBits(d));
    XorZero(Run(G, Poly(SEED), MsbBits(a)));
    SameCrcSameRegister(a, b);
  }

  lemma XorCancels(a: Bits, d: Bits)
    requires |a| == |d|
    ensures Xor(a, Xor(a, d)) == d
  {
    XorAssociates(a, a, d);
    XorSelf(a);
    XorCommutes(Zeros(|a|), d);
    XorZero(d);
  }

  lemma {:induction false} ZeroBytes(data: seq<byte>)
    requires forall i | 0 <= i < |data| :: data[i] == 0
    ensures MsbBits(data) == Zeros(8 * |data|)
  {
    if data != [] {
      ZeroBytes(data[1..]);
      assert HighFirst(0) == Zeros(8);
    }
  }

  // ---- Every register is reached, and left, in exactly one way

  /** One turn of the inner loop, undone: the low bit says whether the generator was added. */
  function Unshift(r: bv16): bv16 {
    if r & 1 != 0 then ((r ^ 0x1021) >> 1) | 0x8000 else r >> 1
  }

  function Unshifts(r: bv16, n: nat): bv16
    decreases n
  {
    if n == 0 then r else Unshifts(Unshift(r), n - 1)
  }

  lemma ShiftInjective(r: bv16, s: bv16)
    requires Shift(r) == Shift(s)
    ensures r == s
  {
    GeneratorIs1021();
    PolyShift(r);
    PolyShift(s);
    BackStep(G, Poly(r), false);
    BackStep(G, Poly(s), false);
    PolyInjective(r, s);
  }

  lemma UnshiftUndone(r: bv16)
    ensures Shift(Unshift(r)) == r
  {
  }

  lemma ShiftUndone(r: bv16)
    ensures Unshift(Shift(r)) == r
  {
    UnshiftUndone(Shift(r));
    ShiftInjective(Unshift(Shift(r)), r);
  }

  lemma {:induction false} ShiftsBijective(r: bv16, n: nat)
    ensures Unshifts(Shifts(r, n), n) == r
    ensures Shifts(Unshifts(r, n), n) == r
    decreases n
  {
    if n > 0 {
      ShiftUndone(Shifts(r, n - 1));
      ShiftsBijective(r, n - 1);
      ShiftsBijective(Unshift(r), n - 1);
      UnshiftUndone(r);
    }
  }

  lemma MixedTwice(r: bv16, b: byte)
    ensures Mixed(Mixed(r, b), b) == r
  {
  }

  function UnfedByte(r: bv16, b: byte): bv16 {
    Mixed(Unshifts(r, 8), b)
  }

  /** **Each byte is a bijection on registers.** */
  lemma FedByteBijective(r: bv16, b: byte)
    ensures UnfedByte(FedByte(r, b), b) == r
    ensures FedByte(UnfedByte(r, b), b) == r
  {
    ShiftsBijective(Mixed(r, b), 8);
    MixedTwice(r, b);
    ShiftsBijective(r, 8);
    MixedTwice(Unshifts(r, 8), b);
  }

  // ---- What a reader checks with

  function HighByte(r: bv16): byte {
    (r >> 8) as bv8
  }

  function LowByte(r: bv16): byte {
    (r & 0xff) as bv8
  }

  /** A register as it is stored: high byte first. */
  function BigEndian(r: bv16): (data: seq<byte>)
    ensures |data| == 2
  {
    [HighByte(r), LowByte(r)]
  }

  function FromBytes(h: byte, l: byte): bv16 {
    ((h as bv16) << 8) ^ (l as bv16)
  }

  lemma BytesRoundTrip(r: bv16, h: byte, l: byte)
    ensures FromBytes(HighByte(r), LowByte(r)) == r
    ensures BigEndian(FromBytes(h, l)) == [h, l]
  {
  }

  lemma BottomByte(m: bv16, k: byte, b: byte)
    requires m == k as bv16
    ensures Has(b as bv16, m) <==> b & k != 0
  {
  }

  lemma BottomByteMask(i: nat)
    requires 8 <= i < 16
    ensures Mask(i) == HighMask(i - 8) as bv16
  {
    Crc16.MaskValues();
    Bytes.MaskValues();
  }

  lemma TopByteMask(i: nat)
    requires i < 8
    ensures Mask(i) & 0xff == 0
  {
    Crc16.MaskValues();
  }

  lemma NoTopByte(m: bv16, b: byte)
    requires m & 0xff == 0
    ensures !Has(b as bv16, m)
  {
  }

  lemma LowByteBits(b: byte, i: nat)
    requires i < 16
    ensures Bit(b as bv16, i) == if i < 8 then false else HighFirst(b)[i - 8]
  {
    if i < 8 {
      TopByteMask(i);
      NoTopByte(Mask(i), b);
    } else {
      BottomByteMask(i);
      BottomByte(Mask(i), HighMask(i - 8), b);
    }
  }

  lemma PolyOfLowByte(b: byte)
    ensures Poly(b as bv16) == Zeros(8) + HighFirst(b)
  {
    var r := b as bv16;
    forall i | 0 <= i < 16 ensures Bit(r, i) == (Zeros(8) + HighFirst(b))[i] {
      LowByteBits(b, i);
    }
  }

  lemma PolyOfBytes(h: byte, l: byte)
    ensures Poly(FromBytes(h, l)) == MsbBits([h, l])
  {
    PolyOfByte(h);
    PolyOfLowByte(l);
    PolyXor((h as bv16) << 8, l as bv16);
    XorConcat(HighFirst(h), Zeros(8), Zeros(8), HighFirst(l));
    XorZero(HighFirst(h));
    XorZero(HighFirst(l));
    assert [h, l][1..] == [l] && [l][1..] == [];
  }

  /** The sum of two registers. */
  function Sum(r: bv16, s: bv16): bv16 {
    r ^ s
  }

  lemma SumTwice(r: bv16, m: bv16)
    ensures Sum(r, Sum(r, m)) == m
  {
  }

  lemma SumWithZero(r: bv16)
    ensures Sum(r, 0) == r && Sum(r, r) == 0
  {
  }

  lemma SumZeroIff(r: bv16, s: bv16)
    ensures Sum(r, s) == 0 <==> r == s
  {
    SumTwice(r, s);
    SumWithZero(r);
  }

  lemma FedWordPoly(r: bv16, x: bv16, u: seq<byte>)
    requires MsbBits(u) == Poly(x)
    ensures Poly(Fed(r, u)) == Poly(Shifts(Sum(r, x), 16))
  {
    GeneratorIs1021();
    FedRuns(r, u);
    InjectedWhole(Poly(r), Poly(x));
    PolyXor(r, x);
    ShiftsRun(Sum(r, x), 16);
  }

  lemma InjectedWhole(r: Bits, u: Bits)
    requires |r| == |u| == 16
    ensures |G| == 16 && Run(G, r, u) == Run(G, Xor(r, u), Zeros(16))
  {
    GeneratorIs1021();
    RunAsInjection(G, r, u);
    assert u + Zeros(0) == u;
  }

  /** Two bytes are one sixteen-bit word added to the register and shifted through. */
  lemma FedWord(r: bv16, h: byte, l: byte)
    ensures Fed(r, [h, l]) == Shifts(Sum(r, FromBytes(h, l)), 16)
  {
    PolyOfBytes(h, l);
    FedWordPoly(r, FromBytes(h, l), [h, l]);
    PolyInjective(Fed(r, [h, l]), Shifts(Sum(r, FromBytes(h, l)), 16));
  }

  lemma FedStored(r: bv16, x: bv16)
    ensures Fed(r, BigEndian(x)) == Shifts(Sum(r, x), 16)
  {
    FedWord(r, HighByte(x), LowByte(x));
    BytesRoundTrip(x, 0, 0);
  }

  lemma EveryPairIsStored(u: seq<byte>) returns (x: bv16)
    requires |u| == 2
    ensures u == BigEndian(x)
  {
    x := FromBytes(u[0], u[1]);
    BytesRoundTrip(x, u[0], u[1]);
  }

  lemma ShiftsToIff(r: bv16, target: bv16, n: nat)
    ensures Shifts(r, n) == target <==> r == Unshifts(target, n)
  {
    ShiftsBijective(r, n);
    ShiftsBijective(target, n);
  }

  lemma SumToIff(r: bv16, x: bv16, target: bv16)
    ensures Sum(r, x) == target <==> x == Sum(r, target)
  {
    SumTwice(r, x);
    SumTwice(r, target);
  }

  /** The two bytes that take register `r` to `target`. */
  function Suffix(r: bv16, target: bv16): (u: seq<byte>)
    ensures |u| == 2
  {
    BigEndian(Sum(r, Unshifts(target, 16)))
  }

  lemma BigEndianInjective(x: bv16, y: bv16)
    requires BigEndian(x) == BigEndian(y)
    ensures x == y
  {
    assert BigEndian(x)[0] == BigEndian(y)[0] && BigEndian(x)[1] == BigEndian(y)[1];
    BytesRoundTrip(x, 0, 0);
    BytesRoundTrip(y, 0, 0);
  }

  /** **After any message, exactly one two-byte suffix reaches each register.** */
  lemma SuffixUnique(r: bv16, target: bv16, u: seq<byte>)
    requires |u| == 2
    ensures Fed(r, u) == target <==> u == Suffix(r, target)
  {
    var x := EveryPairIsStored(u);
    FedStored(r, x);
    ShiftsToIff(Sum(r, x), target, 16);
    SumToIff(r, x, Unshifts(target, 16));
    if u == Suffix(r, target) {
      BigEndianInjective(x, Sum(r, Unshifts(target, 16)));
    }
  }

  lemma {:induction false} ZeroShifts(n: nat)
    ensures Shifts(0, n) == 0
  {
    if n > 0 {
      ZeroShifts(n - 1);
    }
  }

  lemma ShiftsToZeroIff(r: bv16, n: nat)
    ensures Shifts(r, n) == 0 <==> r == 0
  {
    ZeroShifts(n);
    ShiftsBijective(r, n);
    ShiftsBijective(0, n);
  }

  lemma StoredEmptiesIff(r: bv16, x: bv16)
    ensures Fed(r, BigEndian(x)) == 0 <==> x == r
  {
    FedStored(r, x);
    ShiftsToZeroIff(Sum(r, x), 16);
    SumZeroIff(r, x);
  }

  /** **The residue**: appending a stored checksum high byte first empties the register exactly
      when it is the checksum of what came before, so a reader's zero means it matched. */
  lemma ResidueIff(data: seq<byte>, stored: bv16)
    ensures Crc(data + BigEndian(stored)) == 0 <==> stored == Crc(data)
  {
    Chunks(SEED, data, BigEndian(stored));
    StoredEmptiesIff(Crc(data), stored);
  }
}
