/** A division register of any width: shift left, and where the bit that falls off differs from
    the message bit, add the generator's low coefficients. `g` lists those coefficients, highest
    power first, so the generator itself is the monic polynomial [true] + g of degree |g|.
    Both of the repository's checksums are this register, one of them with its bits mirrored. */
module Lfsr {
  import opened Gf2

  function Step(g: Bits, r: Bits, b: bool): (s: Bits)
    requires |r| == |g| > 0
    ensures |s| == |g|
  {
    Xor(r[1..] + [false], Scale(r[0] != b, g))
  }

  function Run(g: Bits, r: Bits, u: Bits): (s: Bits)
    requires |r| == |g| > 0
    ensures |s| == |g|
    decreases |u|
  {
    if u == [] then r else Run(g, Step(g, r, u[0]), u[1..])
  }

  /** The bits that selected a subtraction: the quotient of the division. */
  function Quotient(g: Bits, r: Bits, u: Bits): (q: Bits)
    requires |r| == |g| > 0
    ensures |q| == |u|
    decreases |u|
  {
    if u == [] then [] else [r[0] != u[0]] + Quotient(g, Step(g, r, u[0]), u[1..])
  }

  lemma {:induction false} RunConcat(g: Bits, r: Bits, u: Bits, v: Bits)
    requires |r| == |g| > 0
    ensures Run(g, r, u + v) == Run(g, Run(g, r, u), v)
    decreases |u|
  {
    if u == [] {
      assert u + v == v;
    } else {
      assert (u + v)[1..] == u[1..] + v;
      RunConcat(g, Step(g, r, u[0]), u[1..], v);
    }
  }

  lemma RunSnoc(g: Bits, r: Bits, u: Bits, b: bool)
    requires |r| == |g| > 0
    ensures Run(g, r, u + [b]) == Step(g, Run(g, r, u), b)
  {
    RunConcat(g, r, u, [b]);
  }

  lemma {:induction false} QuotientSnoc(g: Bits, r: Bits, u: Bits, b: bool)
    requires |r| == |g| > 0
    ensures Quotient(g, r, u + [b]) == Quotient(g, r, u) + [Run(g, r, u)[0] != b]
    decreases |u|
  {
    if u == [] {
      assert [] + [b] == [b] && Quotient(g, r, [b]) == [r[0] != b] + Quotient(g, Step(g, r, b), []);
    } else {
      var rest, next := u[1..], Step(g, r, u[0]);
      QuotientSnoc(g, next, rest, b);
      assert (u + [b])[0] == u[0] && (u + [b])[1..] == rest + [b];
      QuotientFrom(g, r, u + [b]);
    }
  }

  lemma QuotientFrom(g: Bits, r: Bits, u: Bits)
    requires |r| == |g| > 0 && u != []
    ensures Quotient(g, r, u) == [r[0] != u[0]] + Quotient(g, Step(g, r, u[0]), u[1..])
  {
  }

  // ---- Linearity

  lemma StepXor(g: Bits, r: Bits, s: Bits, b: bool, c: bool)
    requires |r| == |s| == |g| > 0
    ensures Step(g, Xor(r, s), b != c) == Xor(Step(g, r, b), Step(g, s, c))
  {
    var x, y := r[1..] + [false], s[1..] + [false];
    var top, other := r[0] != b, s[0] != c;
    assert Xor(r, s)[1..] + [false] == Xor(x, y);
    ScaleXor(top, other, g);
    XorExchange(x, y, Scale(top, g), Scale(other, g));
  }

  /** Running is linear in the register and the message together. */
  lemma {:induction false} RunXor(g: Bits, r: Bits, s: Bits, u: Bits, v: Bits)
    requires |r| == |s| == |g| > 0 && |u| == |v|
    ensures Run(g, Xor(r, s), Xor(u, v)) == Xor(Run(g, r, u), Run(g, s, v))
    decreases |u|
  {
    if u != [] {
      StepXor(g, r, s, u[0], v[0]);
      assert Xor(u, v)[1..] == Xor(u[1..], v[1..]);
      RunXor(g, Step(g, r, u[0]), Step(g, s, v[0]), u[1..], v[1..]);
    }
  }

  lemma StepZeros(g: Bits)
    requires |g| > 0
    ensures Step(g, Zeros(|g|), false) == Zeros(|g|)
  {
  }

  lemma {:induction false} RunZeros(g: Bits, n: nat)
    requires |g| > 0
    ensures Run(g, Zeros(|g|), Zeros(n)) == Zeros(|g|)
  {
    if n > 0 {
      StepZeros(g);
      assert Zeros(n)[1..] == Zeros(n - 1);
      RunZeros(g, n - 1);
    }
  }

  // ---- Invertibility: a generator with a constant term loses nothing

  predicate HasConstantTerm(g: Bits) {
    |g| > 0 && g[|g| - 1]
  }

  /** The register one step earlier. */
  function Back(g: Bits, r: Bits, b: bool): (p: Bits)
    requires |r| == |g| && HasConstantTerm(g)
    ensures |p| == |g|
  {
    var n := |g| - 1;
    [r[n] != b] + Xor(r, Scale(r[n], g))[..n]
  }

  lemma BackAfterStep(g: Bits, r: Bits, b: bool)
    requires |r| == |g| && HasConstantTerm(g)
    ensures Back(g, Step(g, r, b), b) == r
  {
    var n := |g| - 1;
    var s := Step(g, r, b);
    assert s[n] == (r[0] != b);
    forall i | 0 <= i < n ensures Xor(s, Scale(s[n], g))[i] == r[i + 1] {
    }
    assert Xor(s, Scale(s[n], g))[..n] == r[1..];
  }

  lemma StepAfterBack(g: Bits, r: Bits, b: bool)
    requires |r| == |g| && HasConstantTerm(g)
    ensures Step(g, Back(g, r, b), b) == r
  {
    var n := |g| - 1;
    var x := Xor(r, Scale(r[n], g));
    assert Back(g, r, b)[1..] == x[..n];
    assert !x[n];
    assert x[..n] + [false] == x;
    XorAssociates(r, Scale(r[n], g), Scale(r[n], g));
    XorSelf(Scale(r[n], g));
    XorZero(r);
  }

  lemma BackStep(g: Bits, r: Bits, b: bool)
    requires |r| == |g| && HasConstantTerm(g)
    ensures Back(g, Step(g, r, b), b) == r
    ensures Step(g, Back(g, r, b), b) == r
  {
    BackAfterStep(g, r, b);
    StepAfterBack(g, r, b);
  }

  /** The register from which running `u` reaches `r`. */
  function BackRun(g: Bits, r: Bits, u: Bits): (p: Bits)
    requires |r| == |g| && HasConstantTerm(g)
    ensures |p| == |g|
  {
    if u == [] then r else Back(g, BackRun(g, r, u[1..]), u[0])
  }

  /** Each message is a bijection on registers: BackRun undoes Run, and Run undoes BackRun. */
  lemma {:induction false} RunBijective(g: Bits, r: Bits, u: Bits)
    requires |r| == |g| && HasConstantTerm(g)
    ensures BackRun(g, Run(g, r, u), u) == r
    ensures Run(g, BackRun(g, r, u), u) == r
    decreases |u|
  {
    if u != [] {
      RunBijective(g, Step(g, r, u[0]), u[1..]);
      BackStep(g, r, u[0]);
      RunBijective(g, r, u[1..]);
      BackStep(g, BackRun(g, r, u[1..]), u[0]);
    }
  }

  lemma StepToPadded(g: Bits, r: Bits, b: bool, v: Bits)
    requires |r| == |g| && HasConstantTerm(g) && |v| < |g|
    ensures Step(g, r, b) == v + Zeros(|g| - |v|) <==> r == [b] + v + Zeros(|g| - |v| - 1)
  {
    var n := |g| - 1;
    var to := v + Zeros(|g| - |v|);
    var from := [b] + v + Zeros(n - |v|);
    assert from[1..] + [false] == to;
    XorZero(to);
    assert Step(g, from, b) == to;
    BackStep(g, r, b);
    BackStep(g, from, b);
  }

  /** The register holds a short message exactly when running that message empties it. */
  lemma {:induction false} EmptiedIff(g: Bits, r: Bits, u: Bits)
    requires |r| == |g| && HasConstantTerm(g) && |u| <= |g|
    ensures IsZero(Run(g, r, u)) <==> r == u + Zeros(|g| - |u|)
    decreases |u|
  {
    if u == [] {
      assert u + Zeros(|g|) == Zeros(|g|);
    } else {
      EmptiedIff(g, Step(g, r, u[0]), u[1..]);
      StepToPadded(g, r, u[0], u[1..]);
      assert u == [u[0]] + u[1..];
    }
  }

  /** Feeding a short message is the same as adding it to the register and shifting. */
  lemma RunAsInjection(g: Bits, r: Bits, u: Bits)
    requires |r| == |g| && HasConstantTerm(g) && |u| <= |g|
    ensures Run(g, r, u) == Run(g, Xor(r, u + Zeros(|g| - |u|)), Zeros(|u|))
  {
    var p := u + Zeros(|g| - |u|);
    EmptiedIff(g, p, u);
    RunXor(g, r, p, u, u);
    XorSelf(u);
    XorZero(Run(g, r, u));
  }

  /** A register's contents and then zeros run down to nothing. */
  lemma RunOwn(g: Bits, r: Bits, n: nat)
    requires |r| == |g| && HasConstantTerm(g)
    ensures Run(g, r, r + Zeros(n)) == Zeros(|g|)
  {
    assert r + Zeros(0) == r;
    EmptiedIff(g, r, r);
    RunConcat(g, r, r, Zeros(n));
    RunZeros(g, n);
  }

  /** **Starting from `r` is starting from nothing with `r` added to the message's first bits.** */
  lemma SeedAsMessage(g: Bits, r: Bits, u: Bits, v: Bits)
    requires |r| == |g| && HasConstantTerm(g) && |u| >= |g| && v == Xor(u, r + Zeros(|u| - |g|))
    ensures Run(g, r, u) == Run(g, Zeros(|g|), v)
  {
    var p := r + Zeros(|u| - |g|);
    RunXor(g, r, r, u, p);
    XorSelf(r);
    RunOwn(g, r, |u| - |g|);
    XorZero(Run(g, r, u));
  }

  /** The message with its first `w` bits inverted. */
  function FirstInverted(u: Bits, w: nat): (v: Bits)
    requires w <= |u|
    ensures |v| == |u| && forall i | 0 <= i < |u| :: v[i] == if i < w then !u[i] else u[i]
  {
    seq(|u|, i requires 0 <= i < |u| => if i < w then !u[i] else u[i])
  }

  lemma InvertedIsXor(u: Bits, w: nat)
    requires w <= |u|
    ensures FirstInverted(u, w) == Xor(u, Ones(w) + Zeros(|u| - w))
  {
  }

  /** So starting from all ones is starting from nothing with the first bits inverted. */
  lemma OnesAsInversion(g: Bits, u: Bits)
    requires HasConstantTerm(g) && |u| >= |g|
    ensures Run(g, Ones(|g|), u) == Run(g, Zeros(|g|), FirstInverted(u, |g|))
  {
    InvertedIsXor(u, |g|);
    SeedAsMessage(g, Ones(|g|), u, FirstInverted(u, |g|));
  }

  /** Zero bits keep an empty register empty, and nothing else. */
  lemma RunZerosIff(g: Bits, r: Bits, n: nat)
    requires |r| == |g| && HasConstantTerm(g)
    ensures IsZero(Run(g, r, Zeros(n))) <==> IsZero(r)
  {
    RunZeros(g, n);
    RunBijective(g, r, Zeros(n));
    RunBijective(g, Zeros(|g|), Zeros(n));
  }

  /** Zero bits around an error make no difference to whether it is seen. */
  lemma SurroundedByZeros(g: Bits, before: nat, u: Bits, after: nat)
    requires HasConstantTerm(g)
    ensures IsZero(Run(g, Zeros(|g|), Zeros(before) + u + Zeros(after)))
            <==> IsZero(Run(g, Zeros(|g|), u))
  {
    RunConcat(g, Zeros(|g|), Zeros(before) + u, Zeros(after));
    RunConcat(g, Zeros(|g|), Zeros(before), u);
    RunZeros(g, before);
    RunZerosIff(g, Run(g, Zeros(|g|), u), after);
  }

  /** **Bursts**: an error confined to one register's width never leaves the register as it was,
      whatever surrounds it. */
  lemma BurstNotMissed(g: Bits, before: nat, u: Bits, after: nat)
    requires HasConstantTerm(g) && |u| <= |g| && !IsZero(u)
    ensures !IsZero(Run(g, Zeros(|g|), Zeros(before) + u + Zeros(after)))
  {
    SurroundedByZeros(g, before, u, after);
    EmptiedIff(g, Zeros(|g|), u);
    var padded := u + Zeros(|g| - |u|);
    assert u == padded[..|u|];
  }

  // ---- Parity: a generator with an even number of terms carries it through

  lemma ShiftParity(r: Bits)
    requires r != []
    ensures Odd(r[1..] + [false]) == (Odd(r) != r[0])
  {
    WeightConcat(r[1..], [false]);
    OddStep(r);
  }

  lemma StepParity(g: Bits, r: Bits, b: bool)
    requires |r| == |g| > 0 && Odd(g)
    ensures Odd(Step(g, r, b)) == (Odd(r) != b)
  {
    ShiftParity(r);
    ScaleParity(r[0] != b, g);
    ParityXor(r[1..] + [false], Scale(r[0] != b, g));
  }

  lemma ScaleParity(b: bool, g: Bits)
    requires Odd(g)
    ensures Odd(Scale(b, g)) == b
  {
    assert !b ==> IsZero(Scale(b, g));
  }

  lemma {:induction false} RunParity(g: Bits, r: Bits, u: Bits)
    requires |r| == |g| > 0 && Odd(g)
    ensures Odd(Run(g, r, u)) == (Odd(r) != Odd(u))
    decreases |u|
  {
    if u != [] {
      OddStep(u);
      StepParity(g, r, u[0]);
      RunParity(g, Step(g, r, u[0]), u[1..]);
    }
  }

  // ---- What the register computes

  /** One step, as an identity between polynomials one degree longer than the register. */
  lemma StepIdentity(g: Bits, r: Bits, b: bool)
    requires |r| == |g| > 0
    ensures Xor(r + [false], [b] + Zeros(|g|))
            == Xor(Scale(r[0] != b, [true] + g), [false] + Step(g, r, b))
  {
    var top := r[0] != b;
    var x := r[1..] + [false];
    XorTail(r + [false], [b] + Zeros(|g|));
    assert (r + [false])[1..] == x;
    XorZero(x);
    var scaled := Scale(top, [true] + g);
    assert scaled == [top] + Scale(top, g);
    XorTail(scaled, [false] + Step(g, r, b));
    XorCommutes(x, Scale(top, g));
    XorAssociates(Scale(top, g), Scale(top, g), x);
    XorSelf(Scale(top, g));
  }

  /** The dividend: the message shifted past the register, plus the register's first value
      shifted past the message. */
  function Dividend(g: Bits, r: Bits, u: Bits): (d: Bits)
    requires |r| == |g|
    ensures |d| == |u| + |g|
  {
    Xor(u + Zeros(|g|), r + Zeros(|u|))
  }

  lemma DividendSnoc(g: Bits, r: Bits, u: Bits, b: bool)
    requires |r| == |g|
    ensures Dividend(g, r, u + [b])
            == Xor(Dividend(g, r, u) + [false], Zeros(|u|) + ([b] + Zeros(|g|)))
  {
    var n := |u|;
    assert (u + [b]) + Zeros(|g|) == Xor(u + Zeros(|g|) + [false], Zeros(n) + ([b] + Zeros(|g|)));
    assert r + Zeros(n + 1) == Xor(r + Zeros(n) + [false], Zeros(n + 1 + |g|));
    XorConcat(u + Zeros(|g|), r + Zeros(n), [false], [false]);
  }

  lemma DivisionStep(n: nat, p: Bits, d: Bits, g: Bits, r: Bits, b: bool)
    requires |r| == |g| > 0 && |p| == |d| == n + |g|
    requires d == Xor(p, Zeros(n) + r)
    ensures Xor(d + [false], Zeros(n) + ([b] + Zeros(|g|)))
            == Xor(Xor(p + [false], Zeros(n) + Scale(r[0] != b, [true] + g)),
                   Zeros(n + 1) + Step(g, r, b))
  {
    var scaled, next := Scale(r[0] != b, [true] + g), [false] + Step(g, r, b);
    assert d + [false] == Xor(p + [false], Zeros(n) + (r + [false])) by {
      XorConcat(p, Zeros(n) + r, [false], [false]);
      assert Zeros(n) + r + [false] == Zeros(n) + (r + [false]);
    }
    XorAssociates(p + [false], Zeros(n) + (r + [false]), Zeros(n) + ([b] + Zeros(|g|)));
    XorPad(n, r + [false], [b] + Zeros(|g|));
    StepIdentity(g, r, b);
    XorPad(n, scaled, next);
    XorAssociates(p + [false], Zeros(n) + scaled, Zeros(n) + next);
    assert Zeros(n + 1) + Step(g, r, b) == Zeros(n) + next;
  }

  /** `q` and `rest` are quotient and remainder of the dividend by the generator. */
  predicate IsDivision(g: Bits, r: Bits, u: Bits, q: Bits, rest: Bits)
    requires |r| == |g| > 0
  {
    && |q| == |u|
    && |rest| == |g|
    && Dividend(g, r, u) == Xor(Product(q, [true] + g), Zeros(|u|) + rest)
  }

  lemma RunDividesEmpty(g: Bits, r: Bits)
    requires |r| == |g| > 0
    ensures IsDivision(g, r, [], [], r)
  {
    assert r + Zeros(0) == r && Zeros(0) + r == r;
    assert [] + Zeros(|g|) == Zeros(|g|);
  }

  /** One more bit of message extends the quotient by one bit and steps the remainder. */
  lemma DivisionExtends(g: Bits, r: Bits, u: Bits, q: Bits, rest: Bits, b: bool)
    requires |r| == |g| > 0 && IsDivision(g, r, u, q, rest)
    ensures IsDivision(g, r, u + [b], q + [rest[0] != b], Step(g, rest, b))
  {
    DividendSnoc(g, r, u, b);
    ProductSnoc(q, rest[0] != b, [true] + g);
    DivisionStep(|u|, Product(q, [true] + g), Dividend(g, r, u), g, rest, b);
  }

  /** **The register is the remainder**: running `u` from `r` divides the dividend by the
      generator, leaving Run as the rest. */
  lemma {:induction false} RunDivides(g: Bits, r: Bits, u: Bits)
    requires |r| == |g| > 0
    ensures IsDivision(g, r, u, Quotient(g, r, u), Run(g, r, u))
    decreases |u|
  {
    if u == [] {
      RunDividesEmpty(g, r);
    } else {
      var t := |u| - 1;
      assert u == u[..t] + [u[t]];
      RunDivides(g, r, u[..t]);
      DivisionExtends(g, r, u[..t], Quotient(g, r, u[..t]), Run(g, r, u[..t]), u[t]);
      RunSnoc(g, r, u[..t], u[t]);
      QuotientSnoc(g, r, u[..t], u[t]);
    }
  }

  /** A value is what the register computes exactly when it is the rest of that division. */
  lemma RemainderIff(g: Bits, r: Bits, u: Bits, rest: Bits)
    requires |r| == |g| == |rest| > 0
    ensures rest == Run(g, r, u) <==> exists q: Bits :: IsDivision(g, r, u, q, rest)
  {
    RunDivides(g, r, u);
    if q: Bits :| IsDivision(g, r, u, q, rest) {
      DivisionUnique(q, rest, Quotient(g, r, u), Run(g, r, u), [true] + g);
    }
  }
}
