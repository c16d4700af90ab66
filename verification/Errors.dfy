/** Error patterns: the difference of two equally long messages, and which patterns a division
    register with a constant term never confuses with no error at all. */
module Errors {
  import opened Gf2
  import opened Lfsr
  import opened Order

  /** Every error lies in the `width` bits from `start`. */
  ghost predicate Confined(d: Bits, start: nat, width: nat) {
    forall p | 0 <= p < |d| && d[p] :: start <= p < start + width
  }

  /** Two messages end in the same register exactly when their difference empties it. */
  lemma SameRegisterIff(g: Bits, r: Bits, u: Bits, v: Bits)
    requires |r| == |g| > 0 && |u| == |v|
    ensures Run(g, r, u) == Run(g, r, v) <==> IsZero(Run(g, Zeros(|g|), Xor(u, v)))
  {
    RunXor(g, r, r, u, v);
    XorSelf(r);
    XorZeroIffEqual(Run(g, r, u), Run(g, r, v));
  }

  /** A confined error is zeros, a short nonzero burst, and zeros. */
  lemma ConfinedShape(d: Bits, start: nat, width: nat) returns (before: nat, u: Bits, after: nat)
    requires Confined(d, start, width) && !IsZero(d)
    ensures d == Zeros(before) + u + Zeros(after)
    ensures |u| <= width && !IsZero(u)
  {
    var p := FirstOne(d);
    assert d[p];
    var hi := if start + width <= |d| then start + width else |d|;
    before, u, after := start, d[start..hi], |d| - hi;
    assert u[p - start];
    ZerosOutside(d, start, hi);
  }

  lemma ZerosOutside(d: Bits, lo: nat, hi: nat)
    requires lo <= hi <= |d|
    requires forall p | 0 <= p < |d| && d[p] :: lo <= p < hi
    ensures d == Zeros(lo) + d[lo..hi] + Zeros(|d| - hi)
  {
  }

  /** **Every burst no wider than the register is seen**, at any position in any message. */
  lemma BurstSeen(g: Bits, r: Bits, u: Bits, v: Bits, start: nat)
    requires |r| == |g| && HasConstantTerm(g) && |u| == |v| && u != v
    requires Confined(Xor(u, v), start, |g|)
    ensures Run(g, r, u) != Run(g, r, v)
  {
    XorZeroIffEqual(u, v);
    SameRegisterIff(g, r, u, v);
    var before, e, after := ConfinedShape(Xor(u, v), start, |g|);
    BurstNotMissed(g, before, e, after);
  }

  /** A pattern of two errors is zeros, an error, a gap, an error, and zeros. */
  lemma TwoErrorShape(d: Bits) returns (before: nat, gap: nat, after: nat)
    requires Weight(d) == 2
    ensures d == Zeros(before) + ([true] + Zeros(gap) + [true]) + Zeros(after)
    ensures before + gap + 1 < |d| && d[before] && d[before + gap + 1]
  {
    before := FirstOne(d);
    gap, after := OneErrorShape(d[before + 1..]);
    Reassociate(before, gap, after);
  }

  lemma OneErrorShape(d: Bits) returns (before: nat, after: nat)
    requires Weight(d) == 1
    ensures d == Zeros(before) + [true] + Zeros(after)
  {
    before := FirstOne(d);
    after := |d| - before - 1;
    assert d[before + 1..] == Zeros(after);
  }

  lemma Reassociate(before: nat, gap: nat, after: nat)
    ensures Zeros(before) + [true] + (Zeros(gap) + [true] + Zeros(after))
            == Zeros(before) + ([true] + Zeros(gap) + [true]) + Zeros(after)
  {
  }

  lemma TwoErrorPattern(d: Bits, i: nat, j: nat)
    requires i < j < |d|
    requires forall p | 0 <= p < |d| :: d[p] <==> p == i || p == j
    ensures d == Zeros(i) + ([true] + Zeros(j - i - 1) + [true]) + Zeros(|d| - j - 1)
  {
  }

  /** Two errors in positions, not in a pattern of bits. */
  ghost predicate DifferAtTwo(u: Bits, v: Bits, i: nat, j: nat)
    requires |u| == |v|
  {
    forall p | 0 <= p < |u| :: u[p] != v[p] <==> p == i || p == j
  }

  lemma TwoErrorDifference(u: Bits, v: Bits, i: nat, j: nat)
    requires |u| == |v| && i < j < |u| && DifferAtTwo(u, v, i, j)
    ensures Xor(u, v) == Zeros(i) + ([true] + Zeros(j - i - 1) + [true]) + Zeros(|u| - j - 1)
  {
    TwoErrorPattern(Xor(u, v), i, j);
  }

  /** **Two errors go unseen exactly when x to their distance comes back to 1.** */
  lemma TwoErrorsUnseenIff(g: Bits, r: Bits, u: Bits, v: Bits, i: nat, j: nat)
    requires |r| == |g| && HasConstantTerm(g) && |u| == |v| && i < j < |u| && DifferAtTwo(u, v, i, j)
    ensures Run(g, r, u) == Run(g, r, v) <==> Returns(g, j - i)
  {
    SameRegisterIff(g, r, u, v);
    TwoErrorDifference(u, v, i, j);
    TwoErrorsCancelIff(g, i, j - i - 1, |u| - j - 1);
  }

  /** With an even number of terms in the generator, an odd number of errors is always seen. */
  lemma OddErrorsSeen(g: Bits, r: Bits, u: Bits, v: Bits)
    requires |r| == |g| > 0 && Odd(g) && |u| == |v|
    requires Run(g, r, u) == Run(g, r, v)
    ensures !Odd(Xor(u, v))
  {
    ParityXor(u, v);
    RunParity(g, r, u);
    RunParity(g, r, v);
  }

  /** x^k is 1 exactly at the multiples of `n`. */
  ghost predicate HasOrder(g: Bits, n: nat)
    requires |g| > 0
  {
    n > 0 && forall k: nat :: Returns(g, k) <==> k % n == 0
  }

  lemma OrderByMultiples(g: Bits, n: nat)
    requires |g| > 0 && n > 0 && Returns(g, n)
    requires forall k: nat | Returns(g, k) :: k % n == 0
    ensures HasOrder(g, n)
  {
    forall k: nat | k % n == 0 ensures Returns(g, k) {
      Multiple(k, n);
      ReturnsMultiple(g, n, k / n);
    }
  }

  lemma Multiple(k: nat, n: nat)
    requires n > 0 && k % n == 0
    ensures k / n * n == k
  {
  }

  /** Two errors go unseen exactly at the multiples of the order. */
  lemma TwoErrorsUnseenAtOrder(g: Bits, n: nat, r: Bits, u: Bits, v: Bits, i: nat, j: nat)
    requires |r| == |g| && HasConstantTerm(g) && HasOrder(g, n)
    requires |u| == |v| && i < j < |u| && DifferAtTwo(u, v, i, j)
    ensures Run(g, r, u) == Run(g, r, v) <==> (j - i) % n == 0
  {
    TwoErrorsUnseenIff(g, r, u, v, i, j);
  }

  /** x^k is not 1 for any k from 1 up to `n`. */
  ghost predicate NoReturnBelow(g: Bits, n: nat)
    requires |g| > 0
  {
    forall k | 0 < k < n :: !Returns(g, k)
  }

  /** Two errors closer than the order are always seen. */
  lemma TwoErrorsSeen(g: Bits, n: nat, r: Bits, u: Bits, v: Bits, start: nat)
    requires |r| == |g| && HasConstantTerm(g) && NoReturnBelow(g, n)
    requires |u| == |v| && Run(g, r, u) == Run(g, r, v)
    requires Confined(Xor(u, v), start, n)
    ensures Weight(Xor(u, v)) != 2
  {
    if Weight(Xor(u, v)) == 2 {
      SameRegisterIff(g, r, u, v);
      var before, gap, after := TwoErrorShape(Xor(u, v));
      TwoErrorsCancelIff(g, before, gap, after);
    }
  }

  /** One error is always seen. */
  lemma OneErrorSeen(g: Bits, r: Bits, u: Bits, v: Bits)
    requires |r| == |g| && HasConstantTerm(g) && |u| == |v| && Run(g, r, u) == Run(g, r, v)
    ensures Weight(Xor(u, v)) != 1
  {
    if Weight(Xor(u, v)) == 1 {
      var before, after := OneErrorShape(Xor(u, v));
      assert Confined(Xor(u, v), before, 1);
      XorZeroIffEqual(u, v);
      BurstSeen(g, r, u, v, before);
    }
  }

  /** **Minimum distance three**: errors closer together than the order go unseen only three or more at a
      time. */
  lemma ThreeErrorsNeeded(g: Bits, n: nat, r: Bits, u: Bits, v: Bits, start: nat)
    requires |r| == |g| && HasConstantTerm(g) && NoReturnBelow(g, n)
    requires |u| == |v| && u != v && Run(g, r, u) == Run(g, r, v)
    requires Confined(Xor(u, v), start, n)
    ensures Weight(Xor(u, v)) >= 3
  {
    OneErrorSeen(g, r, u, v);
    TwoErrorsSeen(g, n, r, u, v, start);
    XorZeroIffEqual(u, v);
  }

  lemma EvenAboveTwo(weight: nat)
    requires weight % 2 == 0 && weight != 0 && weight != 2
    ensures weight >= 4
  {
  }

  /** **Minimum distance four**: with an even number of terms, errors closer together than the
      order go unseen only four or more at a time. */
  lemma FourErrorsNeeded(g: Bits, n: nat, r: Bits, u: Bits, v: Bits, start: nat)
    requires |r| == |g| && HasConstantTerm(g) && NoReturnBelow(g, n) && Odd(g)
    requires |u| == |v| && u != v && Run(g, r, u) == Run(g, r, v)
    requires Confined(Xor(u, v), start, n)
    ensures Weight(Xor(u, v)) >= 4
  {
    OddErrorsSeen(g, r, u, v);
    TwoErrorsSeen(g, n, r, u, v, start);
    XorZeroIffEqual(u, v);
    EvenAboveTwo(Weight(Xor(u, v)));
  }

  // ---- Three errors

  /** What a message leaves in an empty register. */
  function Left(g: Bits, u: Bits): (r: Bits)
    requires |g| > 0
    ensures |r| == |g|
  {
    Run(g, Zeros(|g|), u)
  }

  function OneError(before: nat, after: nat): Bits {
    Zeros(before) + ([true] + Zeros(after))
  }

  /** One error leaves the power of x it stands for. */
  lemma OneErrorLeaves(g: Bits, before: nat, after: nat)
    requires |g| > 0
    ensures Left(g, OneError(before, after)) == Power(g, |g| + after)
  {
    RunConcat(g, Zeros(|g|), Zeros(before), [true] + Zeros(after));
    RunZeros(g, before);
    RunFirstError(g, Zeros(after));
    PowerWidth(g);
    PowerAdd(g, |g|, after);
  }

  lemma PowersShift(g: Bits, a: nat, b: nat, e: nat)
    requires |g| > 0
    ensures Xor(Xor(Power(g, a + e), Power(g, b + e)), Power(g, e))
         == Run(g, Xor(Xor(Power(g, a), Power(g, b)), One(|g|)), Zeros(e))
  {
    PowerAdd(g, a, e);
    PowerAdd(g, b, e);
    XorZero(Zeros(e));
    RunXor(g, Power(g, a), Power(g, b), Zeros(e), Zeros(e));
    RunXor(g, Xor(Power(g, a), Power(g, b)), One(|g|), Zeros(e), Zeros(e));
  }

  lemma SumZeroIff(a: Bits, b: Bits, c: Bits)
    requires |a| == |b| == |c|
    ensures IsZero(Xor(Xor(a, b), c)) <==> a == Xor(b, c)
  {
    XorAssociates(a, b, c);
    XorZeroIffEqual(a, Xor(b, c));
  }

  /** x^a is x^b + 1. */
  predicate OneApart(g: Bits, a: nat, b: nat)
    requires |g| > 0
  {
    Power(g, a) == Xor(Power(g, b), One(|g|))
  }

  predicate ThreePowers(g: Bits, left: Bits, a: nat, b: nat, e: nat)
    requires |g| > 0
  {
    left == Xor(Xor(Power(g, a + e), Power(g, b + e)), Power(g, e))
  }

  lemma PowersCancelIff(g: Bits, a: nat, b: nat, e: nat, left: Bits)
    requires HasConstantTerm(g) && ThreePowers(g, left, a, b, e)
    ensures IsZero(left) <==> OneApart(g, a, b)
  {
    PowersShift(g, a, b, e);
    RunZerosIff(g, Xor(Xor(Power(g, a), Power(g, b)), One(|g|)), e);
    SumZeroIff(Power(g, a), Power(g, b), One(|g|));
  }

  lemma LeftXor(g: Bits, u: Bits, v: Bits)
    requires |g| > 0 && |u| == |v|
    ensures Left(g, Xor(u, v)) == Xor(Left(g, u), Left(g, v))
  {
    XorSelf(Zeros(|g|));
    RunXor(g, Zeros(|g|), Zeros(|g|), u, v);
  }

  lemma LeftThree(g: Bits, d: Bits, e: Bits, f: Bits, x: Bits, y: Bits, z: Bits)
    requires |g| > 0 && |d| == |e| == |f| && x == Left(g, d) && y == Left(g, e) && z == Left(g, f)
    ensures Left(g, Xor(Xor(d, e), f)) == Xor(Xor(x, y), z)
  {
    LeftXor(g, Xor(d, e), f);
    LeftXor(g, d, e);
  }

  ghost predicate DifferAtThree(u: Bits, v: Bits, i: nat, j: nat, k: nat)
    requires |u| == |v|
  {
    forall p | 0 <= p < |u| :: u[p] != v[p] <==> p == i || p == j || p == k
  }

  lemma ThreeErrorDifference(u: Bits, v: Bits, i: nat, j: nat, k: nat) returns (d: Bits, e: Bits, f: Bits)
    requires |u| == |v| && i < j < k < |u| && DifferAtThree(u, v, i, j, k)
    ensures d == OneError(i, |u| - i - 1) && e == OneError(j, |u| - j - 1) && f == OneError(k, |u| - k - 1)
    ensures |d| == |e| == |f| == |u| && Xor(u, v) == Xor(Xor(d, e), f)
  {
    d, e, f := OneError(i, |u| - i - 1), OneError(j, |u| - j - 1), OneError(k, |u| - k - 1);
  }

  lemma ThreeErrorsLeave(g: Bits, u: Bits, v: Bits, i: nat, j: nat, k: nat) returns (z: nat)
    requires |g| > 0 && |u| == |v| && i < j < k < |u| && DifferAtThree(u, v, i, j, k)
    ensures ThreePowers(g, Left(g, Xor(u, v)), k - i, k - j, z)
  {
    var d, e, f := ThreeErrorDifference(u, v, i, j, k);
    z := |g| + (|u| - k - 1);
    OneErrorLeaves(g, i, |u| - i - 1);
    OneErrorLeaves(g, j, |u| - j - 1);
    OneErrorLeaves(g, k, |u| - k - 1);
    LeftThree(g, d, e, f, Power(g, k - i + z), Power(g, k - j + z), Power(g, z));
  }

  /** **Three errors go unseen exactly when x to the first distance is x to the second, plus 1**, the
      distances taken to the last of them. */
  lemma ThreeErrorsUnseenIff(g: Bits, r: Bits, u: Bits, v: Bits, i: nat, j: nat, k: nat)
    requires |r| == |g| && HasConstantTerm(g) && |u| == |v| && i < j < k < |u| && DifferAtThree(u, v, i, j, k)
    ensures Run(g, r, u) == Run(g, r, v) <==> OneApart(g, k - i, k - j)
  {
    SameLeftIff(g, r, u, v);
    ThreeErrorsCancelIff(g, u, v, i, j, k);
  }

  lemma SameLeftIff(g: Bits, r: Bits, u: Bits, v: Bits)
    requires |r| == |g| > 0 && |u| == |v|
    ensures Run(g, r, u) == Run(g, r, v) <==> IsZero(Left(g, Xor(u, v)))
  {
    SameRegisterIff(g, r, u, v);
  }

  lemma ThreeErrorsCancelIff(g: Bits, u: Bits, v: Bits, i: nat, j: nat, k: nat)
    requires HasConstantTerm(g) && |u| == |v| && i < j < k < |u| && DifferAtThree(u, v, i, j, k)
    ensures IsZero(Left(g, Xor(u, v))) <==> OneApart(g, k - i, k - j)
  {
    var z := ThreeErrorsLeave(g, u, v, i, j, k);
    PowersCancelIff(g, k - i, k - j, z, Left(g, Xor(u, v)));
  }

  lemma WeightOfNext(zeros: nat, rest: Bits)
    ensures Weight(Zeros(zeros) + ([true] + rest)) == 1 + Weight(rest)
  {
    WeightConcat(Zeros(zeros), [true] + rest);
    assert ([true] + rest)[1..] == rest;
  }

  lemma ThreeWeight(u: Bits, v: Bits, i: nat, j: nat, k: nat)
    requires |u| == |v| && i < j < k < |u| && DifferAtThree(u, v, i, j, k)
    ensures Weight(Xor(u, v)) == 3
  {
    var last := [true] + Zeros(|u| - k - 1);
    var second := [true] + (Zeros(k - j - 1) + last);
    assert Xor(u, v) == Zeros(i) + ([true] + (Zeros(j - i - 1) + second));
    WeightOfNext(i, Zeros(j - i - 1) + second);
    WeightOfNext(j - i - 1, Zeros(k - j - 1) + last);
    WeightOfNext(k - j - 1, Zeros(|u| - k - 1));
  }
}
