/** CRC-32 as RFC 1952 section 8 states it: reversed, over 0xedb88320, by a table of 256 entries.
    The table loop and the update loop are the code; Fed is the same division a bit at a time. */
module Crc32 {
  import opened Gf2
  import opened Lfsr
  import opened Bytes

  const SEED: bv32 := 0xffff_ffff

  /** One bit of division, low bit first. */
  function Turn(r: bv32): bv32 {
    if r & 1 != 0 then (r >> 1) ^ 0xedb8_8320 else r >> 1
  }

  function Turns(r: bv32, n: nat): bv32 {
    if n == 0 then r else Turn(Turns(r, n - 1))
  }

  /** A byte added to the register's low end. */
  function Mixed(r: bv32, b: byte): bv32 {
    r ^ (b as bv32)
  }

  /** A byte's eight bits divided in one at a time. */
  function FedByte(r: bv32, b: byte): bv32 {
    Turns(Mixed(r, b), 8)
  }

  /** The state after `update` with `data`. */
  function Fed(r: bv32, data: seq<byte>): bv32 {
    if data == [] then r else FedByte(Fed(r, data[..|data| - 1]), data[|data| - 1])
  }

  /** The register after feeding each piece in turn. */
  function FedEach(r: bv32, pieces: seq<seq<byte>>): bv32
    decreases |pieces|
  {
    if pieces == [] then r else FedEach(Fed(r, pieces[0]), pieces[1..])
  }

  /** The one-shot form, with the final complement. */
  function Crc(data: seq<byte>): bv32 {
    !Fed(SEED, data)
  }

  // ---- The table

  /** What one table entry stands for: its index, divided eight bits further. */
  function Entry(i: nat): bv32
    requires i < 256
  {
    Turns(i as bv32, 8)
  }

  predicate IsTable(table: seq<bv32>) {
    |table| == 256 && forall i | 0 <= i < 256 :: table[i] == Entry(i)
  }

  /** The body of the table's inner loop. */
  method TurnOnce(value: bv32) returns (next: bv32)
    ensures next == Turn(value)
  {
    next := if value & 1 != 0 then (value >> 1) ^ 0xedb8_8320 else value >> 1;
  }

  method BuildTable() returns (table: array<bv32>)
    ensures fresh(table) && IsTable(table[..])
  {
    table := new bv32[256];
    var index := 0;
    while index < 256
      invariant 0 <= index <= 256
      invariant forall i | 0 <= i < index :: table[i] == Entry(i)
    {
      var value := index as bv32;
      var bit := 0;
      while bit < 8
        invariant 0 <= bit <= 8
        invariant value == Turns(index as bv32, bit)
        modifies {}
      {
        value := TurnOnce(value);
        bit := bit + 1;
      }
      table[index] := value;
      index := index + 1;
    }
  }

  function LowByte(r: bv32): (l: bv32)
    ensures l as nat < 256
  {
    r & 0xff
  }

  class Crc32Stream {
    var state: bv32
    const table: seq<bv32>

    constructor ()
      ensures state == SEED && IsTable(table)
    {
      state := 0xffff_ffff;
      var built := BuildTable();
      table := built[..];
    }

    /** One turn of the loop over bytes: one lookup and one shift. */
    method UpdateByte(b: byte)
      requires IsTable(table)
      modifies this
      ensures state == FedByte(old(state), b)
    {
      LookupIsEightTurns(state, b);
      state := table[LowByte(Mixed(state, b)) as nat] ^ (state >> 8);
    }

    method Update(data: seq<byte>)
      requires IsTable(table)
      modifies this
      ensures state == Fed(old(state), data)
    {
      for i := 0 to |data|
        invariant state == Fed(old(state), data[..i])
      {
        assert data[..i + 1][..i] == data[..i];
        UpdateByte(data[i]);
      }
      assert data[..|data|] == data;
    }

    method Finish() returns (crc: bv32)
      ensures crc == !state
    {
      crc := !state;
    }
  }

  method Crc32Of(data: seq<byte>) returns (crc: bv32)
    ensures crc == Crc(data)
  {
    var c := new Crc32Stream();
    c.Update(data);
    crc := c.Finish();
  }

  // ---- The register as a polynomial, highest power in the low bit

  function Up(m: bv32): bv32 {
    m << 1
  }

  function Mask(i: nat): bv32 {
    if i == 0 then 1 else Up(Mask(i - 1))
  }

  lemma {:induction false} MaskIsOneBit(i: nat)
    ensures Mask(i) & (Mask(i) - 1) == 0
  {
    if i > 0 {
      MaskIsOneBit(i - 1);
    }
  }

  predicate Has(r: bv32, m: bv32) {
    r & m != 0
  }

  predicate Bit(r: bv32, i: nat) {
    Has(r, Mask(i))
  }

  function Poly(r: bv32): (p: Bits)
    ensures |p| == 32
  {
    seq(32, i requires 0 <= i < 32 => Bit(r, i))
  }

  /** The generator of ITU-T V.42 section 8.1.1.6.2 below its leading x^32. */
  const G: Bits :=
    [false, false, false, false, false, true, false, false,
     true, true, false, false, false, false, false, true,
     false, false, false, true, true, true, false, true,
     true, false, true, true, false, true, true, true]

  lemma MaskValues()
    ensures Mask(0) == 0x00000001 && Mask(1) == 0x00000002 && Mask(2) == 0x00000004 && Mask(3) == 0x00000008
    ensures Mask(4) == 0x00000010 && Mask(5) == 0x00000020 && Mask(6) == 0x00000040 && Mask(7) == 0x00000080
    ensures Mask(8) == 0x00000100 && Mask(9) == 0x00000200 && Mask(10) == 0x00000400 && Mask(11) == 0x00000800
    ensures Mask(12) == 0x00001000 && Mask(13) == 0x00002000 && Mask(14) == 0x00004000 && Mask(15) == 0x00008000
    ensures Mask(16) == 0x00010000 && Mask(17) == 0x00020000 && Mask(18) == 0x00040000 && Mask(19) == 0x00080000
    ensures Mask(20) == 0x00100000 && Mask(21) == 0x00200000 && Mask(22) == 0x00400000 && Mask(23) == 0x00800000
    ensures Mask(24) == 0x01000000 && Mask(25) == 0x02000000 && Mask(26) == 0x04000000 && Mask(27) == 0x08000000
    ensures Mask(28) == 0x10000000 && Mask(29) == 0x20000000 && Mask(30) == 0x40000000 && Mask(31) == 0x80000000
  {
    assert Mask(2) == 0x00000004 && Mask(4) == 0x00000010 && Mask(6) == 0x00000040 && Mask(8) == 0x00000100;
    assert Mask(10) == 0x00000400 && Mask(12) == 0x00001000 && Mask(14) == 0x00004000 && Mask(16) == 0x00010000;
    assert Mask(18) == 0x00040000 && Mask(20) == 0x00100000 && Mask(22) == 0x00400000 && Mask(24) == 0x01000000;
    assert Mask(26) == 0x04000000 && Mask(28) == 0x10000000 && Mask(30) == 0x40000000;
  }

  lemma GeneratorIsEdb88320()
    ensures |G| == 32 && Poly(0xedb8_8320) == G && HasConstantTerm(G)
  {
    MaskValues();
  }

  lemma XorOneBit(r: bv32, s: bv32, m: bv32)
    requires m & (m - 1) == 0
    ensures Has(r ^ s, m) <==> (Has(r, m) != Has(s, m))
  {
  }

  lemma PolyXor(r: bv32, s: bv32)
    ensures Poly(r ^ s) == Xor(Poly(r), Poly(s))
  {
    forall i | 0 <= i < 32 ensures Poly(r ^ s)[i] == Xor(Poly(r), Poly(s))[i] {
      MaskIsOneBit(i);
      XorOneBit(r, s, Mask(i));
    }
  }

  lemma ShrOneBit(r: bv32, m: bv32)
    ensures Has(r >> 1, m) <==> Has(r, Up(m))
  {
  }

  lemma BitShr(r: bv32, i: nat)
    ensures Bit(r >> 1, i) == Bit(r, i + 1)
  {
    ShrOneBit(r, Mask(i));
  }

  lemma LastMask()
    ensures Mask(31) == 0x8000_0000
  {
    MaskValues();
  }

  lemma LastBitShr(r: bv32)
    ensures !Bit(r >> 1, 31)
  {
    LastMask();
  }

  lemma PolyShr(r: bv32)
    ensures Poly(r >> 1) == Poly(r)[1..] + [false]
  {
    var shifted := r >> 1;
    forall i | 0 <= i < 31 ensures Bit(shifted, i) == Bit(r, i + 1) {
      BitShr(r, i);
    }
    LastBitShr(r);
  }

  lemma PolyTurn(r: bv32)
    ensures |G| == 32 && Poly(Turn(r)) == Step(G, Poly(r), false)
  {
    GeneratorIsEdb88320();
    PolyShr(r);
    PolyXor(r >> 1, 0xedb8_8320);
    XorZero(Poly(r)[1..] + [false]);
  }

  /** No bit of `x` is set up to and including the one bit of `m`. */
  predicate ClearUpTo(x: bv32, m: bv32) {
    x & (m | (m - 1)) == 0
  }

  lemma ClearUpToNext(x: bv32, m: bv32)
    requires m & (m - 1) == 0 && ClearUpTo(x, m) && !Has(x, Up(m))
    ensures ClearUpTo(x, Up(m))
  {
  }

  lemma ClearFirst(x: bv32)
    requires !Has(x, 1)
    ensures ClearUpTo(x, 1)
  {
  }

  lemma ClearUpToNextIndex(x: bv32, i: nat)
    requires ClearUpTo(x, Mask(i)) && !Bit(x, i + 1)
    ensures ClearUpTo(x, Mask(i + 1))
  {
    MaskIsOneBit(i);
    ClearUpToNext(x, Mask(i));
  }

  lemma {:induction false} UpToMask(x: bv32, i: nat)
    requires forall j | 0 <= j <= i :: !Bit(x, j)
    ensures ClearUpTo(x, Mask(i))
  {
    if i == 0 {
      assert !Bit(x, 0);
      ClearFirst(x);
    } else {
      UpToMask(x, i - 1);
      ClearUpToNextIndex(x, i - 1);
    }
  }

  lemma XorIsZero(r: bv32, s: bv32)
    requires r ^ s == 0
    ensures r == s
  {
  }

  lemma PolyInjective(r: bv32, s: bv32)
    requires Poly(r) == Poly(s)
    ensures r == s
  {
    PolyXor(r, s);
    XorSelf(Poly(s));
    var x := r ^ s;
    forall j | 0 <= j < 32 ensures !Bit(x, j) {
      assert !Poly(x)[j];
    }
    UpToMask(x, 31);
    LastMask();
    XorIsZero(r, s);
  }

  lemma {:induction false} TurnsRun(r: bv32, n: nat)
    ensures |G| == 32 && Poly(Turns(r, n)) == Run(G, Poly(r), Zeros(n))
  {
    GeneratorIsEdb88320();
    if n > 0 {
      TurnsRun(r, n - 1);
      PolyTurn(Turns(r, n - 1));
      RunSnoc(G, Poly(r), Zeros(n - 1), false);
      assert Zeros(n - 1) + [false] == Zeros(n);
    }
  }

  // ---- One lookup is eight turns

  function Sum(r: bv32, s: bv32): bv32 {
    r ^ s
  }

  lemma TurnsSumPoly(r: bv32, s: bv32, n: nat)
    ensures Poly(Turns(Sum(r, s), n)) == Xor(Poly(Turns(r, n)), Poly(Turns(s, n)))
  {
    TurnsRun(Sum(r, s), n);
    TurnsRun(r, n);
    TurnsRun(s, n);
    PolyXor(r, s);
    RunXor(G, Poly(r), Poly(s), Zeros(n), Zeros(n));
    XorZero(Zeros(n));
  }

  lemma PolySum(x: bv32, y: bv32, z: bv32)
    requires Poly(z) == Xor(Poly(x), Poly(y))
    ensures z == Sum(x, y)
  {
    PolyXor(x, y);
    PolyInjective(z, Sum(x, y));
  }

  lemma TurnsSum(r: bv32, s: bv32, n: nat)
    ensures Turns(Sum(r, s), n) == Sum(Turns(r, n), Turns(s, n))
  {
    TurnsSumPoly(r, s, n);
    PolySum(Turns(r, n), Turns(s, n), Turns(Sum(r, s), n));
  }

  function ByteDown(r: bv32): bv32 {
    r >> 8
  }

  function HighBytes(r: bv32): bv32 {
    r & 0xffff_ff00
  }

  lemma Halves(r: bv32)
    ensures Sum(LowByte(r), HighBytes(r)) == r
  {
  }

  lemma TwoEvenTurns(r: bv32)
    requires r & 3 == 0
    ensures Turn(Turn(r)) == r >> 2
  {
  }

  lemma TurnsByTwo(r: bv32, n: nat)
    ensures Turns(r, n + 2) == Turn(Turn(Turns(r, n)))
  {
  }

  lemma LowByteClear(h: bv32)
    requires h & 0xff == 0
    ensures h & 3 == 0 && (h >> 2) & 3 == 0 && (h >> 4) & 3 == 0 && (h >> 6) & 3 == 0
    ensures (h >> 2) >> 2 == h >> 4 && (h >> 4) >> 2 == h >> 6 && (h >> 6) >> 2 == ByteDown(h)
  {
  }

  lemma EvenTurns(h: bv32)
    requires h & 0xff == 0
    ensures Turns(h, 8) == ByteDown(h)
  {
    LowByteClear(h);
    assert Turns(h, 0) == h;
    TurnsByTwo(h, 0);
    TwoEvenTurns(h);
    TurnsByTwo(h, 2);
    TwoEvenTurns(h >> 2);
    TurnsByTwo(h, 4);
    TwoEvenTurns(h >> 4);
    TurnsByTwo(h, 6);
    TwoEvenTurns(h >> 6);
  }

  lemma HighBytesClear(r: bv32)
    ensures HighBytes(r) & 0xff == 0
    ensures ByteDown(HighBytes(r)) == ByteDown(r)
  {
  }

  /** With the low byte clear, eight turns are one shift by a byte. */
  lemma HighBytesFall(r: bv32)
    ensures Turns(HighBytes(r), 8) == ByteDown(r)
  {
    HighBytesClear(r);
    EvenTurns(HighBytes(r));
  }

  lemma MixedKeepsHigh(r: bv32, b: byte)
    ensures ByteDown(Mixed(r, b)) == ByteDown(r)
  {
  }

  lemma LowByteIndex(r: bv32)
    ensures (LowByte(r) as nat) as bv32 == LowByte(r)
  {
  }

  /** **One lookup and one shift are eight turns**: the low byte is divided through the table
      and the high bytes fall into place. */
  lemma LookupIsEightTurns(r: bv32, b: byte)
    ensures Sum(Entry(LowByte(Mixed(r, b)) as nat), ByteDown(r)) == FedByte(r, b)
  {
    var x := Mixed(r, b);
    Halves(x);
    TurnsSum(LowByte(x), HighBytes(x), 8);
    HighBytesFall(x);
    MixedKeepsHigh(r, b);
    LowByteIndex(x);
  }

  // ---- A byte enters at the low end

  lemma LowMaskIs(i: nat)
    requires i < 8
    ensures Mask(i) == LowMask(i) as bv32
  {
    MaskValues();
    Bytes.MaskValues();
  }

  lemma InLowByte(b: byte, m: byte)
    ensures Has(b as bv32, m as bv32) <==> b & m != 0
  {
  }

  lemma HighMaskIs(i: nat)
    requires 8 <= i < 32
    ensures Mask(i) & 0xff == 0
  {
    MaskValues();
  }

  lemma AboveLowByte(b: byte, m: bv32)
    requires m & 0xff == 0
    ensures !Has(b as bv32, m)
  {
  }

  lemma ByteBit(b: byte, i: nat)
    requires i < 32
    ensures Bit(b as bv32, i) == if i < 8 then LowFirst(b)[i] else false
  {
    if i < 8 {
      LowMaskIs(i);
      InLowByte(b, LowMask(i));
    } else {
      HighMaskIs(i);
      AboveLowByte(b, Mask(i));
    }
  }

  lemma PolyOfByte(b: byte)
    ensures Poly(b as bv32) == LowFirst(b) + Zeros(24)
  {
    var r := b as bv32;
    forall i | 0 <= i < 32 ensures Bit(r, i) == (LowFirst(b) + Zeros(24))[i] {
      ByteBit(b, i);
    }
  }

  // ---- The code is the division register

  lemma MixedPoly(r: bv32, b: byte)
    ensures Poly(Mixed(r, b)) == Xor(Poly(r), LowFirst(b) + Zeros(24))
  {
    PolyOfByte(b);
    PolyXor(r, b as bv32);
  }

  lemma FedByteRuns(r: bv32, b: byte)
    ensures |G| == 32 && Poly(FedByte(r, b)) == Run(G, Poly(r), LowFirst(b))
  {
    GeneratorIsEdb88320();
    MixedPoly(r, b);
    TurnsRun(Mixed(r, b), 8);
    RunAsInjection(G, Poly(r), LowFirst(b));
  }

  /** **The table loop divides**: feeding bytes runs their bits, low bit first, through the
      division register of the generator. */
  lemma {:induction false} FedRuns(r: bv32, data: seq<byte>)
    ensures |G| == 32 && Poly(Fed(r, data)) == Run(G, Poly(r), LsbBits(data))
  {
    GeneratorIsEdb88320();
    if data != [] {
      var t := |data| - 1;
      assert data == data[..t] + [data[t]];
      FedRuns(r, data[..t]);
      FedByteRuns(Fed(r, data[..t]), data[t]);
      LsbBitsConcat(data[..t], [data[t]]);
      assert LsbBits([data[t]]) == LowFirst(data[t]);
      RunConcat(G, Poly(r), LsbBits(data[..t]), LowFirst(data[t]));
    }
  }
}
