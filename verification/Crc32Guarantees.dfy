/** What a matching CRC-32 is worth, for every message. Messages are compared bit by bit in the
    order they are fed, low bit of each byte first. */
module Crc32Guarantees {
  import opened Gf2
  import opened Lfsr
  import opened Errors
  import opened Bytes
  import opened Crc32
  import Crc32Order

  // ---- What is computed

  /** The register the checksum was complemented from. */
  function Register(crc: bv32): bv32 {
    !crc
  }

  lemma RegisterOfCrc(data: seq<byte>)
    ensures Register(Crc(data)) == Fed(SEED, data)
  {
  }

  lemma RegisterInjective(x: bv32, y: bv32)
    ensures Register(x) == Register(y) <==> x == y
  {
  }

  lemma SeedIsOnes()
    ensures |G| == 32 && HasConstantTerm(G) && Poly(SEED) == Ones(32)
  {
    GeneratorIsEdb88320();
    Crc32.MaskValues();
  }

  /** **The complemented checksum is the remainder** of message·x^32 + (x^31 + ... + 1)·x^(8n) on division
      by the generator, and no other value is. */
  lemma CrcIsRemainder(data: seq<byte>, crc: bv32)
    ensures |G| == 32
    ensures crc == Crc(data)
            <==> exists q :: IsDivision(G, Ones(32), LsbBits(data), q, Poly(Register(crc)))
  {
    SeedIsOnes();
    FedRuns(SEED, data);
    RegisterOfCrc(data);
    RegisterInjective(crc, Crc(data));
    RemainderIff(G, Poly(SEED), LsbBits(data), Poly(Register(crc)));
    if Poly(Register(crc)) == Poly(Register(Crc(data))) {
      PolyInjective(Register(crc), Register(Crc(data)));
    }
  }

  /** Thirty-two bits or more are checked as they would be from an empty register, the first thirty-two
      inverted, and the result complemented. */
  lemma FirstThirtyTwoInverted(data: seq<byte>)
    requires |data| >= 4
    ensures |G| == 32
    ensures Poly(Register(Crc(data))) == Run(G, Zeros(32), FirstInverted(LsbBits(data), 32))
  {
    GeneratorIsEdb88320();
    FedFromOnes(data, LsbBits(data));
    OnesAsInversion(G, LsbBits(data));
  }

  lemma FedFromOnes(data: seq<byte>, u: Bits)
    requires u == LsbBits(data)
    ensures |G| == 32 && Poly(Register(Crc(data))) == Run(G, Ones(32), u)
  {
    SeedIsOnes();
    FedRuns(SEED, data);
    RegisterOfCrc(data);
  }

  lemma EightTurns(r: bv32)
    ensures Turns(r, 8) == FourTurns(FourTurns(r))
  {
    assert Turns(r, 0) == r;
    TurnsByFour(r, 0);
    TurnsByFour(r, 4);
  }

  lemma FedByteIs(data: seq<byte>, r: bv32, b: byte, mixed: bv32, half: bv32, after: bv32)
    requires Fed(SEED, data) == r && Mixed(r, b) == mixed
    requires FourTurns(mixed) == half && FourTurns(half) == after
    ensures Fed(SEED, data + [b]) == after
  {
    assert (data + [b])[..|data|] == data;
    EightTurns(mixed);
  }

  /** The published check: the digits one to nine. */
  lemma CheckValue()
    ensures Crc([]) == 0
    ensures Crc([0x31, 0x32, 0x33, 0x34, 0x35, 0x36, 0x37, 0x38, 0x39]) == 0xcbf43926
  {
    FedByteIs([], 0xffffffff, 0x31, 0xffffffce, 0xaff51d84, 0x7c231048);
    var one := [] + [0x31];
    FedByteIs(one, 0x7c231048, 0x32, 0x7c23107a, 0xd11492ef, 0xb0acbb32);
    var two := one + [0x32];
    FedByteIs(two, 0xb0acbb32, 0x33, 0xb0acbb01, 0x16bddbd4, 0x77b79c2d);
    FourToNine(two + [0x33]);
    assert two + [0x33] + [0x34, 0x35, 0x36, 0x37, 0x38, 0x39]
        == [0x31, 0x32, 0x33, 0x34, 0x35, 0x36, 0x37, 0x38, 0x39];
  }

  lemma FourToNine(three: seq<byte>)
    requires Fed(SEED, three) == 0x77b79c2d
    ensures Fed(SEED, three + [0x34, 0x35, 0x36, 0x37, 0x38, 0x39]) == 0x340bc6d9
  {
    FedByteIs(three, 0x77b79c2d, 0x34, 0x77b79c19, 0xf774ea85, 0x641c1f5c);
    var four := three + [0x34];
    FedByteIs(four, 0x641c1f5c, 0x35, 0x641c1f69, 0xf64e52b2, 0x340ac5e3);
    var five := four + [0x35];
    FedByteIs(five, 0x340ac5e3, 0x36, 0x340ac5d5, 0x682bfda9, 0xf68d2c9e);
    SevenToNine(five + [0x36]);
    assert five + [0x36] + [0x37, 0x38, 0x39] == three + [0x34, 0x35, 0x36, 0x37, 0x38, 0x39];
  }

  lemma SevenToNine(six: seq<byte>)
    requires Fed(SEED, six) == 0xf68d2c9e
    ensures Fed(SEED, six + [0x37, 0x38, 0x39]) == 0x340bc6d9
  {
    FedByteIs(six, 0xf68d2c9e, 0x37, 0xf68d2ca9, 0xff67418e, 0xaffc9660);
    var seven := six + [0x37];
    FedByteIs(seven, 0xaffc9660, 0x38, 0xaffc9658, 0xe7474a45, 0x651f2550);
    FedByteIs(seven + [0x38], 0x651f2550, 0x39, 0x651f2569, 0xf65e6112, 0x340bc6d9);
    assert seven + [0x38] + [0x39] == six + [0x37, 0x38, 0x39];
  }

  lemma {:induction false} Chunks(r: bv32, a: seq<byte>, b: seq<byte>)
    ensures Fed(Fed(r, a), b) == Fed(r, a + b)
    decreases |b|
  {
    if b == [] {
      assert a + b == a;
    } else {
      var t := |b| - 1;
      Chunks(r, a, b[..t]);
      assert (a + b)[..|a + b| - 1] == a + b[..t];
    }
  }

  /** **However the data is cut**, into any number of pieces, feeding them in order is feeding the whole. */
  lemma {:induction false} Pieces(r: bv32, pieces: seq<seq<byte>>)
    ensures FedEach(r, pieces) == Fed(r, Joined(pieces))
    decreases |pieces|
  {
    if pieces != [] {
      Pieces(Fed(r, pieces[0]), pieces[1..]);
      Chunks(r, pieces[0], Joined(pieces[1..]));
    }
  }

  lemma FedSumPoly(r: bv32, s: bv32, t: bv32, a: seq<byte>, b: seq<byte>)
    requires |a| == |b| && Poly(t) == Xor(Poly(r), Poly(s))
    ensures Poly(Fed(t, XorBytes(a, b))) == Xor(Poly(Fed(r, a)), Poly(Fed(s, b)))
  {
    FedRuns(t, XorBytes(a, b));
    FedRuns(r, a);
    FedRuns(s, b);
    LsbBitsXor(a, b);
    RunXor(G, Poly(r), Poly(s), LsbBits(a), LsbBits(b));
  }

  /** Feeding is linear in the register and the data together. */
  lemma FedSum(r: bv32, s: bv32, a: seq<byte>, b: seq<byte>)
    requires |a| == |b|
    ensures Fed(Sum(r, s), XorBytes(a, b)) == Sum(Fed(r, a), Fed(s, b))
  {
    PolyXor(r, s);
    FedSumPoly(r, s, Sum(r, s), a, b);
    PolySum(Fed(r, a), Fed(s, b), Fed(Sum(r, s), XorBytes(a, b)));
  }

  lemma SeedThrice()
    ensures Sum(Sum(SEED, SEED), SEED) == SEED
  {
  }

  lemma ComplementThrice(x: bv32, y: bv32, z: bv32)
    ensures Register(Sum(Sum(x, y), z)) == Register(x) ^ Register(y) ^ Register(z)
  {
  }

  /** **The checksum is affine**: three equally long messages xored together have the xor of
      their checksums. */
  lemma Affine(a: seq<byte>, b: seq<byte>, c: seq<byte>)
    requires |a| == |b| == |c|
    ensures Crc(XorBytes(XorBytes(a, b), c)) == Crc(a) ^ Crc(b) ^ Crc(c)
  {
    FedSum(SEED, SEED, a, b);
    FedSum(Sum(SEED, SEED), SEED, XorBytes(a, b), c);
    SeedThrice();
    ComplementThrice(Fed(SEED, a), Fed(SEED, b), Fed(SEED, c));
  }

  // ---- What is caught

  lemma SameCrcSameRegister(a: seq<byte>, b: seq<byte>)
    ensures |G| == 32 && HasConstantTerm(G)
    ensures Crc(a) == Crc(b) <==> Run(G, Poly(SEED), LsbBits(a)) == Run(G, Poly(SEED), LsbBits(b))
  {
    GeneratorIsEdb88320();
    FedRuns(SEED, a);
    FedRuns(SEED, b);
    RegisterOfCrc(a);
    RegisterOfCrc(b);
    RegisterInjective(Crc(a), Crc(b));
    if Poly(Fed(SEED, a)) == Poly(Fed(SEED, b)) {
      PolyInjective(Fed(SEED, a), Fed(SEED, b));
    }
  }

  lemma DifferentBits(a: seq<byte>, b: seq<byte>)
    requires |a| == |b| && a != b
    ensures LsbBits(a) != LsbBits(b)
  {
    if LsbBits(a) == LsbBits(b) {
      LsbBitsInjective(a, b);
    }
  }

  /** **Bursts**: messages that differ only within thirty-two consecutive bits never share a
      checksum, wherever the bits are and however long the messages. */
  lemma BurstCaught(a: seq<byte>, b: seq<byte>, start: nat)
    requires |a| == |b| && a != b
    requires Confined(Xor(LsbBits(a), LsbBits(b)), start, 32)
    ensures Crc(a) != Crc(b)
  {
    SameCrcSameRegister(a, b);
    DifferentBits(a, b);
    BurstSeen(G, Poly(SEED), LsbBits(a), LsbBits(b), start);
  }

  /** **Two errors** slip through exactly when their distance is a multiple of 2^32 - 1 bits. */
  lemma TwoErrorsMissedIff(a: seq<byte>, b: seq<byte>, i: nat, j: nat)
    requires |a| == |b| && i < j < 8 * |a|
    requires forall p | 0 <= p < 8 * |a| :: LsbBits(a)[p] != LsbBits(b)[p] <==> p == i || p == j
    ensures Crc(a) == Crc(b) <==> (j - i) % 0xffff_ffff == 0
  {
    SameCrcSameRegister(a, b);
    Crc32Order.OrderIsFull();
    TwoErrorsUnseenAtOrder(G, 0xffff_ffff, Poly(SEED), LsbBits(a), LsbBits(b), i, j);
  }

  lemma NoReturnBelowOrder()
    ensures |G| == 32 && NoReturnBelow(G, 0xffff_ffff)
  {
    Crc32Order.OrderIsFull();
  }

  /** **Minimum distance three**: distinct messages with one checksum, differing only within 2^32 - 1
      consecutive bits, differ in at least three. */
  lemma MinimumDistance(a: seq<byte>, b: seq<byte>, start: nat)
    requires |a| == |b| && a != b && Crc(a) == Crc(b)
    requires Confined(Xor(LsbBits(a), LsbBits(b)), start, 0xffff_ffff)
    ensures Weight(Xor(LsbBits(a), LsbBits(b))) >= 3
  {
    SameCrcSameRegister(a, b);
    DifferentBits(a, b);
    NoReturnBelowOrder();
    ThreeErrorsNeeded(G, 0xffff_ffff, Poly(SEED), LsbBits(a), LsbBits(b), start);
  }

  /** **Three errors** slip through exactly when x to the distance of the first from the last is x to the
      distance of the second from the last, plus 1. */
  lemma ThreeErrorsMissedIff(a: seq<byte>, b: seq<byte>, i: nat, j: nat, k: nat)
    requires |a| == |b| && i < j < k < 8 * |a| && DifferAtThree(LsbBits(a), LsbBits(b), i, j, k)
    ensures Crc(a) == Crc(b) <==> Crc32Order.ThreeTerms(k - i, k - j)
  {
    SameCrcSameRegister(a, b);
    ThreeErrorsUnseenIff(G, Poly(SEED), LsbBits(a), LsbBits(b), i, j, k);
  }

  /** One bit of the message turned over. */
  function Flipped(a: seq<byte>, p: nat): (b: seq<byte>)
    requires p < 8 * |a|
    ensures |b| == |a|
  {
    XorBytes(a, OneBit(|a|, p))
  }

  lemma FlippedBits(a: seq<byte>, p: nat)
    requires p < 8 * |a|
    ensures forall q | 0 <= q < 8 * |a| :: LsbBits(Flipped(a, p))[q] != LsbBits(a)[q] <==> q == p
  {
    LsbBitsXor(a, OneBit(|a|, p));
    forall q | 0 <= q < 8 * |a|
      ensures LsbBits(OneBit(|a|, p))[q] <==> q == p
    {
      OneBitIs(|a|, p, q);
    }
  }

  function FlippedThrice(a: seq<byte>, i: nat, j: nat, k: nat): (b: seq<byte>)
    requires i < j < k < 8 * |a|
    ensures |b| == |a|
  {
    Flipped(Flipped(Flipped(a, i), j), k)
  }

  lemma FlippedThriceBits(a: seq<byte>, i: nat, j: nat, k: nat)
    requires i < j < k < 8 * |a|
    ensures DifferAtThree(LsbBits(a), LsbBits(FlippedThrice(a, i, j, k)), i, j, k)
  {
    FlippedBits(a, i);
    FlippedBits(Flipped(a, i), j);
    FlippedBits(Flipped(Flipped(a, i), j), k);
  }

  /** **Three is the distance**: every message of 11455 bytes or more has another, differing in three of its
      first 91640 bits and nowhere else, with the same checksum. */
  lemma DistanceIsThree(a: seq<byte>) returns (b: seq<byte>)
    requires |a| >= 11455
    ensures |b| == |a| && Crc(b) == Crc(a)
    ensures Confined(Xor(LsbBits(a), LsbBits(b)), 0, 91640) && Weight(Xor(LsbBits(a), LsbBits(b))) == 3
  {
    var m, k := Crc32Order.ThreeTermMultiple();
    b := ThreeAway(a, 0, m - k, m);
  }

  lemma ThreeAway(a: seq<byte>, i: nat, j: nat, k: nat) returns (b: seq<byte>)
    requires i < j < k < 8 * |a| && Crc32Order.ThreeTerms(k - i, k - j)
    ensures |b| == |a| && Crc(b) == Crc(a)
    ensures Confined(Xor(LsbBits(a), LsbBits(b)), 0, k + 1) && Weight(Xor(LsbBits(a), LsbBits(b))) == 3
  {
    b := FlippedThrice(a, i, j, k);
    FlippedThriceBits(a, i, j, k);
    ThreeErrorsMissedIff(a, b, i, j, k);
    ThreeWeight(LsbBits(a), LsbBits(b), i, j, k);
  }

  // ---- Every register is reached, and left, in exactly one way

  /** One turn undone: the high bit says whether the generator was added. */
  function Unturn(r: bv32): bv32 {
    if r & 0x8000_0000 != 0 then ((r ^ 0xedb8_8320) << 1) | 1 else r << 1
  }

  function Unturns(r: bv32, n: nat): bv32
    decreases n
  {
    if n == 0 then r else Unturns(Unturn(r), n - 1)
  }

  lemma TurnInjective(r: bv32, s: bv32)
    requires Turn(r) == Turn(s)
    ensures r == s
  {
    GeneratorIsEdb88320();
    PolyTurn(r);
    PolyTurn(s);
    BackStep(G, Poly(r), false);
    BackStep(G, Poly(s), false);
    PolyInjective(r, s);
  }

  lemma OddTurn(r: bv32)
    requires r & 1 != 0
    ensures Turn(r) == (r >> 1) ^ 0xedb8_8320
  {
  }

  lemma HighUnfolds(r: bv32)
    requires r & 0x8000_0000 != 0
    ensures (((r ^ 0xedb8_8320) << 1) | 1) & 1 != 0
    ensures ((((r ^ 0xedb8_8320) << 1) | 1) >> 1) ^ 0xedb8_8320 == r
  {
  }

  lemma EvenTurn(r: bv32)
    requires r & 0x8000_0000 == 0
    ensures Turn(r << 1) == r
  {
  }

  lemma UnturnUndone(r: bv32)
    ensures Turn(Unturn(r)) == r
  {
    if r & 0x8000_0000 != 0 {
      HighUnfolds(r);
      OddTurn(((r ^ 0xedb8_8320) << 1) | 1);
    } else {
      EvenTurn(r);
    }
  }

  lemma TurnUndone(r: bv32)
    ensures Unturn(Turn(r)) == r
  {
    UnturnUndone(Turn(r));
    TurnInjective(Unturn(Turn(r)), r);
  }

  lemma {:induction false} TurnsBijective(r: bv32, n: nat)
    ensures Unturns(Turns(r, n), n) == r
    ensures Turns(Unturns(r, n), n) == r
    decreases n
  {
    if n > 0 {
      TurnUndone(Turns(r, n - 1));
      TurnsBijective(r, n - 1);
      TurnsBijective(Unturn(r), n - 1);
      UnturnUndone(r);
    }
  }

  lemma MixedTwice(r: bv32, b: byte)
    ensures Mixed(Mixed(r, b), b) == r
  {
  }

  function UnfedByte(r: bv32, b: byte): bv32 {
    Mixed(Unturns(r, 8), b)
  }

  /** **Each byte is a bijection on registers.** */
  lemma FedByteBijective(r: bv32, b: byte)
    ensures UnfedByte(FedByte(r, b), b) == r
    ensures FedByte(UnfedByte(r, b), b) == r
  {
    TurnsBijective(Mixed(r, b), 8);
    MixedTwice(r, b);
    TurnsBijective(r, 8);
    MixedTwice(Unturns(r, 8), b);
  }

  // ---- A register as it is stored: low byte first

  function ByteAt(r: bv32, k: nat): byte
    requires k < 4
  {
    if k == 0 then (r & 0xff) as bv8
    else if k == 1 then ((r >> 8) & 0xff) as bv8
    else if k == 2 then ((r >> 16) & 0xff) as bv8
    else ((r >> 24) & 0xff) as bv8
  }

  function LittleEndian(r: bv32): (data: seq<byte>)
    ensures |data| == 4
  {
    [ByteAt(r, 0), ByteAt(r, 1), ByteAt(r, 2), ByteAt(r, 3)]
  }

  function FromBytes(a: byte, b: byte, c: byte, d: byte): bv32 {
    (a as bv32) | ((b as bv32) << 8) | ((c as bv32) << 16) | ((d as bv32) << 24)
  }

  lemma BytesOut(r: bv32)
    ensures FromBytes(ByteAt(r, 0), ByteAt(r, 1), ByteAt(r, 2), ByteAt(r, 3)) == r
  {
  }

  lemma BytesIn(a: byte, b: byte, c: byte, d: byte)
    ensures LittleEndian(FromBytes(a, b, c, d)) == [a, b, c, d]
  {
  }

  function MaskAt(k: nat, m: byte): bv32
    requires k < 4
  {
    if k == 0 then m as bv32
    else if k == 1 then (m as bv32) << 8
    else if k == 2 then (m as bv32) << 16
    else (m as bv32) << 24
  }

  lemma MaskAtIs(k: nat, i: nat)
    requires k < 4 && i < 8
    ensures Mask(8 * k + i) == MaskAt(k, LowMask(i))
  {
    Crc32.MaskValues();
    Bytes.MaskValues();
  }

  lemma HasAt(r: bv32, k: nat, m: byte)
    requires k < 4
    ensures Has(r, MaskAt(k, m)) <==> ByteAt(r, k) & m != 0
  {
  }

  lemma ByteAtBit(r: bv32, k: nat, i: nat)
    requires k < 4 && i < 8
    ensures LowFirst(ByteAt(r, k))[i] == Bit(r, 8 * k + i)
  {
    MaskAtIs(k, i);
    HasAt(r, k, LowMask(i));
  }

  lemma ByteAtBits(r: bv32, k: nat)
    requires k < 4
    ensures LowFirst(ByteAt(r, k)) == Poly(r)[8 * k..8 * k + 8]
  {
    forall i | 0 <= i < 8 ensures LowFirst(ByteAt(r, k))[i] == Poly(r)[8 * k + i] {
      ByteAtBit(r, k, i);
    }
  }

  lemma LittleEndianBits(r: bv32)
    ensures LsbBits(LittleEndian(r)) == Poly(r)
  {
    var p := Poly(r);
    ByteAtBits(r, 0);
    ByteAtBits(r, 1);
    ByteAtBits(r, 2);
    ByteAtBits(r, 3);
    FourBytes(ByteAt(r, 0), ByteAt(r, 1), ByteAt(r, 2), ByteAt(r, 3));
    assert p == p[0..8] + (p[8..16] + (p[16..24] + p[24..32]));
  }

  lemma OneByte(a: byte, rest: seq<byte>)
    ensures LsbBits([a] + rest) == LowFirst(a) + LsbBits(rest)
  {
    assert ([a] + rest)[1..] == rest;
  }

  lemma FourBytes(a: byte, b: byte, c: byte, d: byte)
    ensures LsbBits([a, b, c, d]) == LowFirst(a) + (LowFirst(b) + (LowFirst(c) + LowFirst(d)))
  {
    OneByte(a, [b, c, d]);
    OneByte(b, [c, d]);
    OneByte(c, [d]);
    OneByte(d, []);
    assert [a] + [b, c, d] == [a, b, c, d] && [b] + [c, d] == [b, c, d] && [c] + [d] == [c, d];
    assert [d] + [] == [d] && LowFirst(d) + [] == LowFirst(d);
  }

  lemma FedStoredPoly(r: bv32, x: bv32, u: seq<byte>)
    requires LsbBits(u) == Poly(x)
    ensures Poly(Fed(r, u)) == Poly(Turns(Sum(r, x), 32))
  {
    GeneratorIsEdb88320();
    FedRuns(r, u);
    RunAsInjection(G, Poly(r), Poly(x));
    assert Poly(x) + Zeros(0) == Poly(x);
    PolyXor(r, x);
    TurnsRun(Sum(r, x), 32);
  }

  /** Four bytes are one word added to the register and turned through. */
  lemma FedStored(r: bv32, x: bv32)
    ensures Fed(r, LittleEndian(x)) == Turns(Sum(r, x), 32)
  {
    LittleEndianBits(x);
    FedStoredPoly(r, x, LittleEndian(x));
    PolyInjective(Fed(r, LittleEndian(x)), Turns(Sum(r, x), 32));
  }

  lemma SumTwice(r: bv32, m: bv32)
    ensures Sum(r, Sum(r, m)) == m
  {
  }

  lemma SumToIff(r: bv32, x: bv32, target: bv32)
    ensures Sum(r, x) == target <==> x == Sum(r, target)
  {
    SumTwice(r, x);
    SumTwice(r, target);
  }

  lemma TurnsToIff(r: bv32, target: bv32, n: nat)
    ensures Turns(r, n) == target <==> r == Unturns(target, n)
  {
    TurnsBijective(r, n);
    TurnsBijective(target, n);
  }

  lemma LittleEndianInjective(x: bv32, y: bv32)
    requires LittleEndian(x) == LittleEndian(y)
    ensures x == y
  {
    var u, v := LittleEndian(x), LittleEndian(y);
    assert u[0] == v[0] && u[1] == v[1] && u[2] == v[2] && u[3] == v[3];
    BytesOut(x);
    BytesOut(y);
  }

  /** The four bytes that take register `r` to `target`. */
  function Suffix(r: bv32, target: bv32): (u: seq<byte>)
    ensures |u| == 4
  {
    LittleEndian(Sum(r, Unturns(target, 32)))
  }

  /** **After any message, exactly one four-byte suffix reaches each register.** */
  lemma SuffixUnique(r: bv32, target: bv32, u: seq<byte>)
    requires |u| == 4
    ensures Fed(r, u) == target <==> u == Suffix(r, target)
  {
    var x := FromBytes(u[0], u[1], u[2], u[3]);
    BytesIn(u[0], u[1], u[2], u[3]);
    assert u == LittleEndian(x);
    FedStored(r, x);
    TurnsToIff(Sum(r, x), target, 32);
    SumToIff(r, x, Unturns(target, 32));
    if u == Suffix(r, target) {
      LittleEndianInjective(x, Sum(r, Unturns(target, 32)));
    }
  }

  // ---- The residue

  const RESIDUE: bv32 := 0x2144_df1c

  function FourTurns(r: bv32): bv32 {
    Turn(Turn(Turn(Turn(r))))
  }

  lemma TurnsByFour(r: bv32, n: nat)
    ensures Turns(r, n + 4) == FourTurns(Turns(r, n))
  {
    assert Turns(r, n + 2) == Turn(Turn(Turns(r, n)));
  }

  /** The all-ones register after thirty-two turns. */
  lemma OnesTurned()
    ensures Turns(SEED, 32) == Register(RESIDUE)
  {
    assert Turns(SEED, 0) == SEED;
    TurnsByFour(SEED, 0);
    assert Turns(SEED, 4) == 0xb2420de3;
    TurnsByFour(SEED, 4);
    assert Turns(SEED, 8) == 0x2dfd1072;
    TurnsByFour(SEED, 8);
    assert Turns(SEED, 12) == 0x39b1f1cf;
    TurnsByFour(SEED, 12);
    assert Turns(SEED, 16) == 0xbe26ed00;
    TurnsByFour(SEED, 16);
    assert Turns(SEED, 20) == 0x0be26ed0;
    TurnsByFour(SEED, 20);
    assert Turns(SEED, 24) == 0x00be26ed;
    TurnsByFour(SEED, 24);
    assert Turns(SEED, 28) == 0x86d830ba;
    TurnsByFour(SEED, 28);
    assert Turns(SEED, 32) == 0xdebb20e3;
  }

  lemma SumWithOnes(r: bv32)
    ensures Sum(r, SEED) == Register(r)
  {
  }

  lemma StoredResidueIff(r: bv32, x: bv32)
    ensures Fed(r, LittleEndian(x)) == Register(RESIDUE) <==> x == Register(r)
  {
    FedStored(r, x);
    OnesTurned();
    TurnsToIff(Sum(r, x), Turns(SEED, 32), 32);
    TurnsToIff(SEED, Turns(SEED, 32), 32);
    SumToIff(r, x, SEED);
    SumWithOnes(r);
  }

  /** **The residue**: a message followed by four stored bytes, low byte first, checks to
      0x2144df1c exactly when those bytes are its checksum. */
  lemma ResidueIff(data: seq<byte>, stored: bv32)
    ensures Crc(data + LittleEndian(stored)) == RESIDUE <==> stored == Crc(data)
  {
    Chunks(SEED, data, LittleEndian(stored));
    StoredResidueIff(Fed(SEED, data), stored);
    RegisterOfCrc(data + LittleEndian(stored));
    RegisterInjective(Crc(data + LittleEndian(stored)), RESIDUE);
  }
}
