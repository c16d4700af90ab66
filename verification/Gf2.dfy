/** Polynomials over GF(2), written as bit sequences with the highest power first:
    [true, false, true] is x^2 + 1. Adding two of the same length is Xor, and Product
    is the carry-less schoolbook product. Nothing here knows about registers. */
module Gf2 {

  type Bits = seq<bool>

  function Zeros(n: nat): (z: Bits)
    ensures |z| == n
    ensures forall i | 0 <= i < n :: !z[i]
  {
    seq(n, _ => false)
  }

  function Ones(n: nat): (z: Bits)
    ensures |z| == n
    ensures forall i | 0 <= i < n :: z[i]
  {
    seq(n, _ => true)
  }

  function Xor(a: Bits, b: Bits): (c: Bits)
    requires |a| == |b|
    ensures |c| == |a|
    ensures forall i | 0 <= i < |a| :: c[i] == (a[i] != b[i])
  {
    seq(|a|, i requires 0 <= i < |a| => a[i] != b[i])
  }

  /** The bits that survive a mask of one bit: all of `a`, or nothing of its length. */
  function Scale(b: bool, a: Bits): (c: Bits)
    ensures |c| == |a|
  {
    if b then a else Zeros(|a|)
  }

  predicate IsZero(a: Bits) {
    a == Zeros(|a|)
  }

  /** How many bits of `a` are one. */
  function Weight(a: Bits): (n: nat)
    ensures n <= |a|
    ensures n == 0 <==> IsZero(a)
  {
    if a == [] then 0 else
      assert a == [a[0]] + a[1..];
      (if a[0] then 1 else 0) + Weight(a[1..])
  }

  /** Whether an odd number of bits of `a` are one. */
  predicate Odd(a: Bits) {
    Weight(a) % 2 == 1
  }

  /** The product of two polynomials, one coefficient of `q` at a time. */
  function Product(q: Bits, g: Bits): (p: Bits)
    requires |g| > 0
    ensures |p| == |q| + |g| - 1
  {
    if q == [] then Zeros(|g| - 1)
    else
      var t := |q| - 1;
      Xor(Product(q[..t], g) + [false], Zeros(t) + Scale(q[t], g))
  }

  // ---- Xor as a group

  lemma XorSelf(a: Bits)
    ensures Xor(a, a) == Zeros(|a|)
  {
  }

  lemma XorZero(a: Bits)
    ensures Xor(a, Zeros(|a|)) == a
    ensures Xor(Zeros(|a|), a) == a
  {
  }

  lemma XorCommutes(a: Bits, b: Bits)
    requires |a| == |b|
    ensures Xor(a, b) == Xor(b, a)
  {
  }

  lemma XorAssociates(a: Bits, b: Bits, c: Bits)
    requires |a| == |b| == |c|
    ensures Xor(Xor(a, b), c) == Xor(a, Xor(b, c))
  {
  }

  /** Two pairs may be summed in either grouping. */
  lemma XorExchange(a: Bits, b: Bits, c: Bits, d: Bits)
    requires |a| == |b| == |c| == |d|
    ensures Xor(Xor(a, b), Xor(c, d)) == Xor(Xor(a, c), Xor(b, d))
  {
  }

  lemma XorZeroIffEqual(a: Bits, b: Bits)
    requires |a| == |b|
    ensures IsZero(Xor(a, b)) <==> a == b
  {
    if IsZero(Xor(a, b)) {
      forall i | 0 <= i < |a| ensures a[i] == b[i] {
        assert !Xor(a, b)[i];
      }
    }
  }

  lemma XorConcat(a: Bits, b: Bits, c: Bits, d: Bits)
    requires |a| == |b| && |c| == |d|
    ensures Xor(a + c, b + d) == Xor(a, b) + Xor(c, d)
  {
  }

  lemma XorTail(a: Bits, b: Bits)
    requires |a| == |b| > 0
    ensures Xor(a, b) == [a[0] != b[0]] + Xor(a[1..], b[1..])
  {
  }

  lemma XorPad(n: nat, a: Bits, b: Bits)
    requires |a| == |b|
    ensures Xor(Zeros(n) + a, Zeros(n) + b) == Zeros(n) + Xor(a, b)
  {
  }

  lemma ZerosConcat(m: nat, n: nat)
    ensures Zeros(m) + Zeros(n) == Zeros(m + n)
  {
  }

  lemma ScaleXor(b: bool, c: bool, a: Bits)
    ensures Scale(b != c, a) == Xor(Scale(b, a), Scale(c, a))
  {
    XorSelf(a);
    XorZero(a);
    XorZero(Zeros(|a|));
  }

  // ---- Weight and parity

  lemma {:induction false} WeightConcat(a: Bits, b: Bits)
    ensures Weight(a + b) == Weight(a) + Weight(b)
  {
    if a == [] {
      assert a + b == b;
    } else {
      assert (a + b)[1..] == a[1..] + b;
      WeightConcat(a[1..], b);
    }
  }

  lemma OddStep(a: Bits)
    requires a != []
    ensures Odd(a) == (a[0] != Odd(a[1..]))
  {
  }

  /** Adding two polynomials adds their parities: each shared bit removes two. */
  lemma {:induction false} ParityXor(a: Bits, b: Bits)
    requires |a| == |b|
    ensures Odd(Xor(a, b)) == (Odd(a) != Odd(b))
  {
    if a != [] {
      var c := Xor(a, b);
      assert c[1..] == Xor(a[1..], b[1..]);
      OddStep(a);
      OddStep(b);
      OddStep(c);
      ParityXor(a[1..], b[1..]);
    }
  }

  /** A nonzero polynomial has a first one: zeros, that one, and a rest of one less weight. */
  lemma {:induction false} FirstOne(a: Bits) returns (i: nat)
    requires !IsZero(a)
    ensures i < |a| && a == Zeros(i) + [true] + a[i + 1..]
    ensures Weight(a) == 1 + Weight(a[i + 1..])
  {
    if a[0] {
      i := 0;
    } else {
      assert Weight(a) == Weight(a[1..]);
      var j := FirstOne(a[1..]);
      i := j + 1;
      assert a[1..][j + 1..] == a[i + 1..];
    }
  }

  // ---- The product

  lemma ProductSnoc(q: Bits, b: bool, g: Bits)
    requires |g| > 0
    ensures Product(q + [b], g) == Xor(Product(q, g) + [false], Zeros(|q|) + Scale(b, g))
  {
    assert (q + [b])[..|q|] == q;
  }

  lemma TermsXor(a: Bits, b: Bits, c: Bits, d: Bits, t: nat)
    requires |a| == |b| && |c| == |d| && t + |c| == |a| + 1
    ensures Xor(Xor(a, b) + [false], Zeros(t) + Xor(c, d))
            == Xor(Xor(a + [false], Zeros(t) + c), Xor(b + [false], Zeros(t) + d))
  {
    XorConcat(a, b, [false], [false]);
    XorPad(t, c, d);
    XorExchange(a + [false], b + [false], Zeros(t) + c, Zeros(t) + d);
  }

  /** Products distribute over sums of the multiplier. */
  lemma {:induction false} ProductXor(p: Bits, q: Bits, g: Bits)
    requires |p| == |q| && |g| > 0
    ensures Product(Xor(p, q), g) == Xor(Product(p, g), Product(q, g))
  {
    if p == [] {
      XorSelf(Zeros(|g| - 1));
    } else {
      var t := |p| - 1;
      assert Xor(p, q)[..t] == Xor(p[..t], q[..t]);
      ProductXor(p[..t], q[..t], g);
      ScaleXor(p[t], q[t], g);
      TermsXor(Product(p[..t], g), Product(q[..t], g), Scale(p[t], g), Scale(q[t], g), t);
    }
  }

  /** A product by a monic polynomial with no high coefficients is a product by zero. */
  lemma {:induction false} HighPartZero(q: Bits, g: Bits)
    requires |g| > 0 && g[0]
    requires forall i | 0 <= i < |q| :: !Product(q, g)[i]
    ensures IsZero(q)
  {
    if q != [] {
      var t := |q| - 1;
      var high := Product(q[..t], g);
      forall i | 0 <= i < t ensures !high[i] {
        assert Product(q, g)[i] == (high + [false])[i];
      }
      HighPartZero(q[..t], g);
      assert q[..t] == Zeros(t);
      ProductOfZero(t, g);
      assert !(high + [false])[t];
      assert !Product(q, g)[t];
      assert !(Zeros(t) + Scale(q[t], g))[t];
      assert q == q[..t] + [q[t]];
    }
  }

  lemma {:induction false} ProductOfZero(n: nat, g: Bits)
    requires |g| > 0
    ensures Product(Zeros(n), g) == Zeros(n + |g| - 1)
  {
    if n > 0 {
      assert Zeros(n)[..n - 1] == Zeros(n - 1);
      ProductOfZero(n - 1, g);
    }
  }

  /** A power of x times a polynomial is the polynomial moved up: with `ProductXor`, this is what a product is. */
  lemma {:induction false} ProductOfPower(before: nat, after: nat, g: Bits)
    requires |g| > 0
    ensures Product(Zeros(before) + [true] + Zeros(after), g) == Zeros(before) + g + Zeros(after)
    decreases after
  {
    if after == 0 {
      ProductSnoc(Zeros(before), true, g);
      ProductOfZero(before, g);
      assert Zeros(before) + [true] + Zeros(0) == Zeros(before) + [true];
      AddedToZeros(Zeros(before) + g, Zeros(before + |g| - 1) + [false]);
      assert Zeros(before) + g + Zeros(0) == Zeros(before) + g;
    } else {
      var q := Zeros(before) + [true] + Zeros(after - 1);
      ProductOfPower(before, after - 1, g);
      ProductSnoc(q, false, g);
      AddedToZeros(Zeros(before) + g + Zeros(after - 1) + [false], Zeros(|q|) + Zeros(|g|));
      assert q + [false] == Zeros(before) + [true] + Zeros(after);
      assert Zeros(before) + g + Zeros(after - 1) + [false] == Zeros(before) + g + Zeros(after);
    }
  }

  lemma AddedToZeros(a: Bits, z: Bits)
    requires |a| == |z| && IsZero(z)
    ensures Xor(a, z) == a && Xor(z, a) == a
  {
  }

  lemma XorSwap(a: Bits, b: Bits, c: Bits, d: Bits)
    requires |a| == |b| == |c| == |d|
    requires Xor(a, b) == Xor(c, d)
    ensures Xor(a, c) == Xor(b, d)
  {
    forall i | 0 <= i < |a| ensures Xor(a, c)[i] == Xor(b, d)[i] {
      assert Xor(a, b)[i] == Xor(c, d)[i];
    }
  }

  lemma PadZeroIff(n: nat, a: Bits)
    ensures IsZero(Zeros(n) + a) <==> IsZero(a)
  {
    ZerosConcat(n, |a|);
    if IsZero(Zeros(n) + a) {
      assert a == (Zeros(n) + a)[n..];
    }
  }

  lemma NothingLeftOver(d: Bits, e: Bits, g: Bits)
    requires |g| > 0 && g[0] && |e| == |g| - 1
    requires Product(d, g) == Zeros(|d|) + e
    ensures IsZero(d) && IsZero(e)
  {
    HighPartZero(d, g);
    ProductOfZero(|d|, g);
    PadZeroIff(|d|, e);
  }

  /** **Division is unique**: two ways of writing one polynomial as a multiple of a monic `g`
      plus a rest shorter than `g` are the same way. */
  lemma DivisionUnique(q: Bits, r: Bits, p: Bits, s: Bits, g: Bits)
    requires |g| > 0 && g[0]
    requires |q| == |p| && |r| == |s| == |g| - 1
    requires Xor(Product(q, g), Zeros(|q|) + r) == Xor(Product(p, g), Zeros(|q|) + s)
    ensures q == p && r == s
  {
    XorSwap(Product(q, g), Zeros(|q|) + r, Product(p, g), Zeros(|q|) + s);
    ProductXor(q, p, g);
    XorPad(|q|, r, s);
    NothingLeftOver(Xor(q, p), Xor(r, s), g);
    XorZeroIffEqual(q, p);
    XorZeroIffEqual(r, s);
  }
}
