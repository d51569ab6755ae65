/** When splitting a sale through a pair yields no more, in spite of the clamp to 128 bits. */
module SplitLaw {
  import opened UniswapMath
  import opened UniswapPaths

  /** Selling `a` and then `b` through `p` never yields more than `a + b` at once, whatever the reserves. */
  ghost predicate Holds(p: Pair, a: nat, b: nat) {
    forall r: (nat, nat) :: SplitYield(p, a, b, r) <= PairOut(p, a + b, r).amount
  }

  function SplitYield(p: Pair, a: nat, b: nat, r: (nat, nat)): nat {
    var first := PairOut(p, a, r);
    first.amount + PairOut(p, b, Oriented(p, first)).amount
  }

  /** The clamp cuts the whole sale, but not each part as much. */
  predicate Clamped(p: Pair, a: nat, b: nat) {
    p.fee < SCALE && a > 0 && b > 0 && a + b > U128_MAX
  }

  // ---- where the law holds ----

  lemma NothingSold(fee: Fee, x: nat, reserveIn: nat, reserveOut: nat)
    requires x == 0 || fee == SCALE
    ensures var r := CalculateAmountsOut(fee, x, reserveIn, reserveOut);
            r.amount == 0 && r.newReserveOut == reserveOut && (x == 0 ==> r.newReserveIn == reserveIn)
  {
    assert x * Kept(fee) * reserveOut == 0;
  }

  lemma UnclampedHolds(p: Pair, a: nat, b: nat)
    requires !Clamped(p, a, b)
    ensures Holds(p, a, b)
  {
    forall r: (nat, nat) ensures SplitYield(p, a, b, r) <= PairOut(p, a + b, r).amount {
      if p.fee == SCALE || a == 0 || b == 0 {
        var s := Oriented(p, PairOut(p, a, r));
        NothingSold(p.fee, if p.fee == SCALE then Clamp(a) else 0, SellSide(p, r), BuySide(p, r));
        NothingSold(p.fee, if p.fee == SCALE then Clamp(b) else 0, SellSide(p, s), BuySide(p, s));
      } else {
        SplitSaleYieldsNoMore(p.fee, a, b, SellSide(p, r), BuySide(p, r));
      }
    }
  }

  // ---- where it fails ----

  lemma ExactDivision(q: nat, d: nat)
    requires d > 0
    ensures q * d / d == q
  {
    DivAtLeast(q * d, d, q);
    DivAtMost(q * d, d, q);
  }

  function Triple(a: nat, b: nat, c: nat): nat { a * b * c }

  /** A sale against a reserve that its denominator divides. */
  lemma ExactSale(fee: Fee, x: nat, reserveIn: nat, d: nat, q: nat)
    requires d == SaleBase(fee, x, reserveIn) > 0
    ensures var r := CalculateAmountsOut(fee, x, reserveIn, q * d);
            r.amount == x * Kept(fee) * q && r.newReserveIn == reserveIn + x
  {
    assert x * Kept(fee) * (q * d) == x * Kept(fee) * q * d;
    ExactDivision(x * Kept(fee) * q, d);
  }

  /** What is left after a sale that takes the share `x` of `n + x`. */
  lemma Left(n: nat, x: nat, q: nat)
    ensures q * (n + x) - x * q == q * n
  {}

  /**
   * With `n` the scaled reserve, `m` what the second sale adds to it and `x`, `y` the kept parts of
   * the first and of the whole sale: the two sales pay more as soon as `n` is large.
   */
  lemma PartsBeatWhole(n: nat, a: nat, b: nat, u: nat, m: nat, x: nat, y: nat)
    requires a <= u < a + b && u * x == a * y && n > m * (u - a)
    ensures a * ((n + m) * (n + y)) + b * ((n + y) * n) > u * ((n + x) * (n + m))
  {
    var k := n + m;
    TakeOut(a, k, n, y);
    TakeOut(u, k, n, x);
    assert (n + x) * k == k * (n + x);
    Rotate(b, n + y, n);
    BracketPositive(n, a, b, u, m, y);
    Scale(n, u * k, a * k + b * (n + y));
    Spread(n, a * k, b * (n + y));
  }

  lemma TakeOut(a: nat, k: nat, n: nat, y: nat)
    ensures a * (k * (n + y)) == n * (a * k) + a * y * k
  {
    assert k * (n + y) == k * n + k * y;
    assert a * (k * n + k * y) == a * (k * n) + a * (k * y);
    Rotate(a, k, n);
    assert a * (k * y) == a * y * k;
  }

  lemma Rotate(a: nat, b: nat, n: nat)
    ensures a * (b * n) == n * (a * b)
  {}

  lemma Spread(n: nat, a: nat, b: nat)
    ensures n * (a + b) == n * a + n * b
  {}

  lemma BracketPositive(n: nat, a: nat, b: nat, u: nat, m: nat, y: nat)
    requires a <= u < a + b && n > m * (u - a)
    ensures u * (n + m) < a * (n + m) + b * (n + y)
  {
    var c := u - a;
    assert u * (n + m) == a * (n + m) + c * n + c * m;
    MulMono(c + 1, b, n);
    assert (c + 1) * n == c * n + n && b * (n + y) == b * n + b * y;
    assert m * c == c * m;
  }

  lemma Scale(n: nat, lower: nat, upper: nat)
    requires n > 0 && lower < upper
    ensures n * lower < n * upper
  {}

  /** The payments of the three sales, without the kept part. */
  lemma DenominatorsBeat(g: nat, a: nat, b: nat, u: nat, n: nat, d1: nat, d2: nat, d3: nat)
    requires a <= u < a + b && n > (a * SCALE + b * g) * (u - a)
    requires d1 == n * SCALE + a * g && d2 == (n + a) * SCALE + b * g && d3 == n * SCALE + u * g
    ensures a * (d2 * d3) + b * (d3 * (n * SCALE)) > u * (d1 * d2)
  {
    var s, m := n * SCALE, a * SCALE + b * g;
    assert d2 == s + m;
    assert u * (a * g) == a * (u * g);
    MulMono(1, SCALE, n);
    PartsBeatWhole(s, a, b, u, m, a * g, u * g);
  }

  /** The reserves that betray the clamp: large on the side sold, and divisible by all three denominators. */
  lemma {:induction false} LargeReservesBeat(fee: Fee, a: nat, b: nat, u: nat, n: nat, d1: nat, d2: nat, d3: nat)
    requires fee < SCALE && a <= u < a + b && n > (a * SCALE + b * Kept(fee)) * (u - a)
    requires d1 == SaleBase(fee, a, n) && d2 == SaleBase(fee, b, n + a) && d3 == SaleBase(fee, u, n)
    ensures PartsPay(fee, a, b, n, Triple(d1, d2, d3)) > CalculateAmountsOut(fee, u, n, Triple(d1, d2, d3)).amount
  {
    BasePositive(fee, a, n);
    BasePositive(fee, b, n + a);
    BasePositive(fee, u, n);
    PartsPayIs(fee, a, b, n, d1, d2, d3);
    WholeSale(fee, u, n, d1, d2, d3);
    KeptBeat(fee, a, b, u, n, d1, d2, d3);
  }

  lemma PartsPayIs(fee: Fee, a: nat, b: nat, n: nat, d1: nat, d2: nat, d3: nat)
    requires d1 == SaleBase(fee, a, n) > 0 && d2 == SaleBase(fee, b, n + a) > 0
    ensures PartsPay(fee, a, b, n, Triple(d1, d2, d3)) ==
            a * Kept(fee) * (d2 * d3) + b * Kept(fee) * (d3 * (n * SCALE))
  {
    FirstSale(fee, a, n, d1, d2, d3);
    SecondSale(fee, b, n + a, n * SCALE, d2, d3);
  }

  lemma KeptBeat(fee: Fee, a: nat, b: nat, u: nat, n: nat, d1: nat, d2: nat, d3: nat)
    requires fee < SCALE && a <= u < a + b && n > (a * SCALE + b * Kept(fee)) * (u - a)
    requires d1 == SaleBase(fee, a, n) && d2 == SaleBase(fee, b, n + a) && d3 == SaleBase(fee, u, n)
    ensures a * Kept(fee) * (d2 * d3) + b * Kept(fee) * (d3 * (n * SCALE)) > u * Kept(fee) * (d1 * d2)
  {
    DenominatorsBeat(Kept(fee), a, b, u, n, d1, d2, d3);
    KeptParts(Kept(fee), a, b, u, d2 * d3, d3 * (n * SCALE), d1 * d2);
  }

  function PartsPay(fee: Fee, a: nat, b: nat, reserveIn: nat, reserveOut: nat): nat {
    var first := CalculateAmountsOut(fee, a, reserveIn, reserveOut);
    first.amount + CalculateAmountsOut(fee, b, first.newReserveIn, first.newReserveOut).amount
  }

  lemma BasePositive(fee: Fee, x: nat, n: nat)
    requires n > 0
    ensures SaleBase(fee, x, n) > 0
  {}

  lemma FirstSale(fee: Fee, a: nat, n: nat, d1: nat, d2: nat, d3: nat)
    requires d1 == SaleBase(fee, a, n) > 0
    ensures var r := CalculateAmountsOut(fee, a, n, Triple(d1, d2, d3));
            && r.amount == a * Kept(fee) * (d2 * d3)
            && r.newReserveIn == n + a && r.newReserveOut == d3 * (n * SCALE) * d2
  {
    Reorder(d1, d2, d3);
    ExactSale(fee, a, n, d1, d2 * d3);
    Left(n * SCALE, a * Kept(fee), d2 * d3);
    Reorder(d2, d3, n * SCALE);
  }

  lemma Reorder(a: nat, b: nat, c: nat)
    ensures a * b * c == b * c * a
  {}

  lemma SecondSale(fee: Fee, b: nat, n: nat, s: nat, d2: nat, d3: nat)
    requires d2 == SaleBase(fee, b, n) > 0
    ensures CalculateAmountsOut(fee, b, n, d3 * s * d2).amount == b * Kept(fee) * (d3 * s)
  {
    ExactSale(fee, b, n, d2, d3 * s);
  }

  lemma WholeSale(fee: Fee, u: nat, n: nat, d1: nat, d2: nat, d3: nat)
    requires d3 == SaleBase(fee, u, n) > 0
    ensures CalculateAmountsOut(fee, u, n, Triple(d1, d2, d3)).amount == u * Kept(fee) * (d1 * d2)
  {
    ExactSale(fee, u, n, d3, d1 * d2);
  }

  /** The kept part multiplies all three payments. */
  lemma KeptParts(g: nat, a: nat, b: nat, u: nat, p: nat, q: nat, r: nat)
    requires g > 0 && a * p + b * q > u * r
    ensures a * g * p + b * g * q > u * g * r
  {
    Scale(g, u * r, a * p + b * q);
    Spread(g, a * p, b * q);
    assert a * g * p == g * (a * p) && b * g * q == g * (b * q) && u * g * r == g * (u * r);
  }

  /** When the whole is cut to `u`, less than the two sales together, some reserves make the two pay more. */
  lemma BetrayingReserves(fee: Fee, a: nat, b: nat, u: nat) returns (reserveIn: nat, reserveOut: nat)
    requires fee < SCALE && a <= u < a + b
    ensures PartsPay(fee, a, b, reserveIn, reserveOut) > CalculateAmountsOut(fee, u, reserveIn, reserveOut).amount
  {
    var n := Triple(a * SCALE + b * Kept(fee), u - a, 1) + 1;
    var d1, d2, d3 := SaleBase(fee, a, n), SaleBase(fee, b, n + a), SaleBase(fee, u, n);
    LargeReservesBeat(fee, a, b, u, n, d1, d2, d3);
    reserveIn, reserveOut := n, Triple(d1, d2, d3);
  }

  lemma ClampedFails(p: Pair, a: nat, b: nat)
    requires Clamped(p, a, b)
    ensures !Holds(p, a, b)
  {
    var n, m := BetrayingReserves(p.fee, Clamp(a), Clamp(b), Clamp(a + b));
    var r := if p.side == 0 then (n, m) else (m, n);
    assert SplitYield(p, a, b, r) == PartsPay(p.fee, Clamp(a), Clamp(b), n, m);
  }

  /** The law holds for a pair and two sales if and only if the clamp does not cut their sum. */
  lemma HoldsIff(p: Pair, a: nat, b: nat)
    ensures Holds(p, a, b) <==> p.fee == SCALE || a == 0 || b == 0 || a + b <= U128_MAX
  {
    if Clamped(p, a, b) {
      ClampedFails(p, a, b);
    } else {
      UnclampedHolds(p, a, b);
    }
  }
}
