/** The powers of x modulo a generator, and the distance between two errors that cancel.
    Everything here is generic in the generator; the numbers are in Crc16 and Crc32. */
module Order {
  import opened Gf2
  import opened Lfsr

  /** The polynomial 1 in a register of width `w`. */
  function One(w: nat): (p: Bits)
    requires w > 0
    ensures |p| == w
  {
    Zeros(w - 1) + [true]
  }

  /** x^n modulo the generator: 1, shifted n times. */
  function Power(g: Bits, n: nat): (p: Bits)
    requires |g| > 0
    ensures |p| == |g|
  {
    Run(g, One(|g|), Zeros(n))
  }

  /** The product of two registers modulo the generator, by Horner's rule on the bits of `p`. */
  function Horner(g: Bits, acc: Bits, r: Bits, p: Bits): (s: Bits)
    requires |acc| == |r| == |g| > 0
    ensures |s| == |g|
    decreases |p|
  {
    if p == [] then acc else Horner(g, Xor(Step(g, acc, false), Scale(p[0], r)), r, p[1..])
  }

  function Times(g: Bits, r: Bits, p: Bits): (s: Bits)
    requires |r| == |g| > 0
    ensures |s| == |g|
  {
    Horner(g, Zeros(|g|), r, p)
  }

  lemma {:induction false} HornerSnoc(g: Bits, acc: Bits, r: Bits, p: Bits, b: bool)
    requires |acc| == |r| == |g| > 0
    ensures Horner(g, acc, r, p + [b]) == Xor(Step(g, Horner(g, acc, r, p), false), Scale(b, r))
    decreases |p|
  {
    if p != [] {
      assert (p + [b])[1..] == p[1..] + [b];
      HornerSnoc(g, Xor(Step(g, acc, false), Scale(p[0], r)), r, p[1..], b);
    }
  }

  // ---- Shifting a product shifts one factor

  lemma StepScale(g: Bits, b: bool, r: Bits)
    requires |r| == |g| > 0
    ensures Step(g, Scale(b, r), false) == Scale(b, Step(g, r, false))
  {
    StepZeros(g);
  }

  lemma {:induction false} HornerStep(g: Bits, acc: Bits, r: Bits, p: Bits)
    requires |acc| == |r| == |g| > 0
    ensures Step(g, Horner(g, acc, r, p), false)
            == Horner(g, Step(g, acc, false), Step(g, r, false), p)
    decreases |p|
  {
    if p != [] {
      StepXor(g, Step(g, acc, false), Scale(p[0], r), false, false);
      StepScale(g, p[0], r);
      HornerStep(g, Xor(Step(g, acc, false), Scale(p[0], r)), r, p[1..]);
    }
  }

  lemma {:induction false} TimesShift(g: Bits, r: Bits, p: Bits, n: nat)
    requires |r| == |g| > 0
    ensures Run(g, Times(g, r, p), Zeros(n)) == Times(g, Run(g, r, Zeros(n)), p)
    decreases n
  {
    if n > 0 {
      assert Zeros(n)[1..] == Zeros(n - 1);
      HornerStep(g, Zeros(|g|), r, p);
      StepZeros(g);
      TimesShift(g, Step(g, r, false), p, n - 1);
    }
  }

  lemma HornerOneStep(g: Bits, f: Bits, b: bool)
    requires |f| < |g|
    ensures Xor(Step(g, Zeros(|g| - |f|) + f, false), Scale(b, One(|g|)))
            == Zeros(|g| - |f| - 1) + (f + [b])
  {
    var acc := Zeros(|g| - |f|) + f;
    XorZero(acc[1..] + [false]);
    assert Step(g, acc, false) == Zeros(|g| - |f| - 1) + f + [false];
  }

  /** 1 times p is p, while p fits. */
  lemma {:induction false} HornerOne(g: Bits, f: Bits, p: Bits)
    requires 0 < |g| && |f| + |p| <= |g|
    ensures Horner(g, Zeros(|g| - |f|) + f, One(|g|), p)
            == Zeros(|g| - |f| - |p|) + (f + p)
    decreases |p|
  {
    if p == [] {
      assert f + p == f;
    } else {
      var more := f + [p[0]];
      assert more + p[1..] == f + p;
      HornerOneStep(g, f, p[0]);
      assert |g| - |f| - 1 == |g| - |more|;
      HornerOne(g, more, p[1..]);
    }
  }

  lemma TimesOne(g: Bits, p: Bits)
    requires |p| == |g| > 0
    ensures Times(g, One(|g|), p) == p
  {
    HornerOne(g, [], p);
    assert Zeros(|g|) + [] == Zeros(|g|);
    assert Zeros(0) + ([] + p) == p;
  }

  /** Shifting is multiplying by a power of x. */
  lemma ShiftIsTimes(g: Bits, p: Bits, n: nat)
    requires |p| == |g| > 0
    ensures Run(g, p, Zeros(n)) == Times(g, Power(g, n), p)
  {
    TimesOne(g, p);
    TimesShift(g, One(|g|), p, n);
  }

  /** x^(m+n) is x^m times x^n. */
  lemma PowerAdd(g: Bits, m: nat, n: nat)
    requires |g| > 0
    ensures Power(g, m + n) == Run(g, Power(g, m), Zeros(n))
    ensures Power(g, m + n) == Times(g, Power(g, n), Power(g, m))
  {
    ZerosConcat(m, n);
    RunConcat(g, One(|g|), Zeros(m), Zeros(n));
    ShiftIsTimes(g, Power(g, m), n);
  }

  // ---- The exponents at which x^k comes back to 1

  predicate Returns(g: Bits, k: nat)
    requires |g| > 0
  {
    Power(g, k) == One(|g|)
  }

  lemma ReturnsAdd(g: Bits, a: nat, b: nat)
    requires |g| > 0 && Returns(g, a)
    ensures Returns(g, a + b) <==> Returns(g, b)
  {
    PowerAdd(g, a, b);
  }

  lemma {:induction false} ReturnsMultiple(g: Bits, k: nat, m: nat)
    requires |g| > 0 && Returns(g, k)
    ensures Returns(g, m * k)
    decreases m
  {
    if m == 0 {
      assert Zeros(0) == [];
    } else {
      ReturnsMultiple(g, k, m - 1);
      ReturnsAdd(g, (m - 1) * k, k);
      assert (m - 1) * k + k == m * k;
    }
  }

  predicate IsMultiple(k: nat, d: nat, n: nat) {
    n == k * d
  }

  ghost predicate Divides(d: nat, n: nat) {
    exists k: nat :: IsMultiple(k, d, n)
  }

  ghost predicate Prime(p: nat) {
    p > 1 && forall d: nat | Divides(d, p) :: d == 1 || d == p
  }

  lemma DividesSum(d: nat, a: nat, b: nat)
    requires Divides(d, a) && Divides(d, b)
    ensures Divides(d, a + b)
  {
    var i: nat :| IsMultiple(i, d, a);
    var j: nat :| IsMultiple(j, d, b);
    assert (i + j) * d == i * d + j * d;
    assert IsMultiple(i + j, d, a + b);
  }

  lemma SmallerFactor(p: nat, d: nat, e: nat, root: nat)
    requires p == e * d && p < root * root
    ensures d < root || e < root
  {
    if d >= root && e >= root {
      ProductGrows(root, e, root, d);
    }
  }

  lemma ProductGrows(a: nat, c: nat, b: nat, d: nat)
    requires a <= c && b <= d
    ensures a * b <= c * d
  {
    assert c * d == a * b + (c - a) * b + c * (d - b);
  }

  lemma SmallMultiple(d: nat, x: int, r: nat)
    requires d * x == r < d
    ensures r == 0
  {
    if x >= 1 {
      ProductGrows(d, d, 1, x);
    }
  }

  lemma FactorDivides(p: nat, d: nat, e: nat)
    requires p == e * d && 0 < d
    ensures p % d == 0
  {
    var q, r := p / d, p % d;
    assert p == d * q + r;
    assert d * (e - q) == e * d - d * q;
    SmallMultiple(d, e - q, r);
  }

  /** Trial division up to a bound past the square root settles primality. */
  lemma PrimeByTrial(p: nat, root: nat)
    requires 1 < p < root * root
    requires forall d | 2 <= d < root :: p % d != 0
    ensures Prime(p)
  {
    forall d: nat | Divides(d, p) ensures d == 1 || d == p {
      var e: nat :| IsMultiple(e, d, p);
      SmallerFactor(p, d, e, root);
      FactorDivides(p, d, e);
      FactorDivides(p, e, d);
    }
  }

  lemma ReturnsDifference(g: Bits, m: nat, a: nat, b: nat)
    requires |g| > 0 && a <= b
    requires Returns(g, a * m) && Returns(g, b * m)
    ensures Returns(g, (b - a) * m)
  {
    assert a * m + (b - a) * m == b * m;
    ReturnsAdd(g, a * m, (b - a) * m);
  }

  /** Euclid's algorithm on exponents: if x^(a·m) and x^(b·m) are both 1, so is x^(d·m) for a
      common divisor d of a and b. */
  lemma {:induction false} ReturnsAtDivisor(g: Bits, m: nat, a: nat, b: nat) returns (d: nat)
    requires |g| > 0 && a > 0
    requires Returns(g, a * m) && Returns(g, b * m)
    ensures Divides(d, a) && Divides(d, b) && Returns(g, d * m)
    decreases a + b
  {
    if b == 0 {
      d := a;
      assert IsMultiple(1, a, a) && IsMultiple(0, a, 0);
    } else if a <= b {
      ReturnsDifference(g, m, a, b);
      d := ReturnsAtDivisor(g, m, a, b - a);
      DividesSum(d, a, b - a);
    } else {
      ReturnsDifference(g, m, b, a);
      d := ReturnsAtDivisor(g, m, a - b, b);
      DividesSum(d, b, a - b);
    }
  }

  /** If x^(p·m) is 1 and x^m is not, every exponent that returns to 1 is a multiple of the
      prime p. */
  lemma ReturnsOnlyAtMultiples(g: Bits, p: nat, m: nat, k: nat)
    requires |g| > 0 && Prime(p)
    requires Returns(g, p * m) && !Returns(g, m)
    requires Returns(g, k)
    ensures Divides(p, k)
  {
    ReturnsMultiple(g, k, m);
    assert m * k == k * m;
    var d := ReturnsAtDivisor(g, m, p, k);
    assert 1 * m == m;
  }

  /** Bezout's identity: a multiple of m and of p, with u·m + w·p = 1, is a multiple of m·p. */
  lemma JoinMultiples(m: int, p: int, u: int, w: int, x: int, y: int, k: int)
    requires k == x * m && k == y * p && u * m + w * p == 1
    ensures k == (u * y + w * x) * (m * p)
  {
    assert k == k * (u * m + w * p);
    assert k == (u * m) * k + (w * p) * k;
    assert (u * m) * (y * p) == (u * y) * (m * p);
    assert (w * p) * (x * m) == (w * x) * (m * p);
  }

  // ---- Two errors

  lemma ShiftOne(g: Bits, a: nat, k: nat)
    requires |g| == a + 1 + k && a > 0
    ensures Step(g, Zeros(a) + [true] + Zeros(k), false) == Zeros(a - 1) + [true] + Zeros(k + 1)
  {
    var r := Zeros(a) + [true] + Zeros(k);
    var shifted := Zeros(a - 1) + [true] + Zeros(k + 1);
    assert r[1..] + [false] == shifted;
    XorZero(shifted);
  }

  lemma PowerNext(g: Bits, k: nat)
    requires |g| > 0
    ensures Power(g, k + 1) == Step(g, Power(g, k), false)
  {
    assert Zeros(k) + [false] == Zeros(k + 1);
    RunSnoc(g, One(|g|), Zeros(k), false);
  }

  lemma {:induction false} LastPower(g: Bits, k: nat)
    requires k < |g|
    ensures Power(g, k) == Zeros(|g| - 1 - k) + [true] + Zeros(k)
    decreases k
  {
    if k == 0 {
      assert Zeros(0) == [];
    } else {
      LastPower(g, k - 1);
      PowerNext(g, k - 1);
      ShiftOne(g, |g| - k, k - 1);
    }
  }

  /** x^w is the generator's low coefficients. */
  lemma PowerWidth(g: Bits)
    requires |g| > 0
    ensures Power(g, |g|) == g
    ensures Step(g, Zeros(|g|), true) == g
  {
    var w := |g|;
    LastPower(g, w - 1);
    PowerAdd(g, w - 1, 1);
    assert Zeros(1)[1..] == [];
    assert Power(g, w - 1)[1..] + [false] == Zeros(w);
    XorZero(g);
    assert Zeros(w)[1..] + [false] == Zeros(w);
  }

  lemma GeneratorComesBackIff(g: Bits, n: nat)
    requires HasConstantTerm(g)
    ensures Run(g, g, Zeros(n)) == g <==> Returns(g, n)
  {
    var w := |g|;
    PowerWidth(g);
    PowerAdd(g, w, n);
    PowerAdd(g, n, w);
    RunBijective(g, Power(g, n), Zeros(w));
    RunBijective(g, One(w), Zeros(w));
  }

  lemma StepError(g: Bits, r: Bits)
    requires |r| == |g| > 0
    ensures Step(g, r, true) == Xor(Step(g, r, false), g)
  {
    PowerWidth(g);
    XorZero(r);
    StepXor(g, r, Zeros(|g|), false, true);
  }

  lemma RunFirstError(g: Bits, v: Bits)
    requires |g| > 0
    ensures Run(g, Zeros(|g|), [true] + v) == Run(g, g, v)
  {
    PowerWidth(g);
    assert ([true] + v)[1..] == v;
  }

  lemma RunTwoErrors(g: Bits, gap: nat)
    requires |g| > 0
    ensures Run(g, Zeros(|g|), [true] + Zeros(gap) + [true]) == Xor(Run(g, g, Zeros(gap + 1)), g)
  {
    assert [true] + Zeros(gap) + [true] == [true] + (Zeros(gap) + [true]);
    RunFirstError(g, Zeros(gap) + [true]);
    RunLastError(g, gap);
  }

  lemma RunLastError(g: Bits, gap: nat)
    requires |g| > 0
    ensures Run(g, g, Zeros(gap) + [true]) == Xor(Run(g, g, Zeros(gap + 1)), g)
  {
    assert Zeros(gap) + [false] == Zeros(gap + 1);
    RunSnoc(g, g, Zeros(gap), true);
    RunSnoc(g, g, Zeros(gap), false);
    StepError(g, Run(g, g, Zeros(gap)));
  }

  /** **Two errors cancel exactly when x to their distance is 1**, whatever surrounds them. */
  lemma TwoErrorsCancelIff(g: Bits, before: nat, gap: nat, after: nat)
    requires HasConstantTerm(g)
    ensures IsZero(Run(g, Zeros(|g|), Zeros(before) + ([true] + Zeros(gap) + [true]) + Zeros(after)))
            <==> Returns(g, gap + 1)
  {
    SurroundedByZeros(g, before, [true] + Zeros(gap) + [true], after);
    RunTwoErrors(g, gap);
    GeneratorComesBackIff(g, gap + 1);
    XorZeroIffEqual(Run(g, g, Zeros(gap + 1)), g);
  }
}
