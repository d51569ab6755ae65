/** Constant-product swap arithmetic of one pair, over unbounded numbers. */
module UniswapMath {
  const SCALE := 10000
  const U128_MAX := 0xFFFF_FFFF_FFFF_FFFF_FFFF_FFFF_FFFF_FFFF

  datatype SwapResult = SwapResult(amount: nat, newReserveIn: nat, newReserveOut: nat)

  /** `pool_fee` in hundredths of a percent; `10000 - pool_fee` would underflow above 10000. */
  type Fee = f: nat | f <= SCALE

  function Kept(fee: Fee): nat { SCALE - fee }

  /** The denominator of a sale of `x`. */
  function SaleBase(fee: Fee, x: nat, reserveIn: nat): nat { reserveIn * SCALE + x * Kept(fee) }

  /** `calculate_amounts_out`. */
  function CalculateAmountsOut(fee: Fee, x: nat, reserveIn: nat, reserveOut: nat): (r: SwapResult)
    ensures r.newReserveOut + r.amount == reserveOut
    ensures r.newReserveIn == reserveIn || r.newReserveIn == reserveIn + x
  {
    var denominator := SaleBase(fee, x, reserveIn);
    if denominator == 0 then SwapResult(0, reserveIn, reserveOut)
    else
      var amount := x * Kept(fee) * reserveOut / denominator;
      assert amount <= reserveOut by { ShareOfReserve(x * Kept(fee), denominator, reserveOut); }
      SwapResult(amount, reserveIn + x, reserveOut - amount)
  }

  lemma DivBound(n: nat, d: nat)
    requires d > 0
    ensures n / d * d <= n < (n / d + 1) * d
  {}

  lemma DivAtLeast(n: nat, d: nat, q: nat)
    requires d > 0 && q * d <= n
    ensures q <= n / d
  {
    DivBound(n, d);
    var p := n / d;
    if p < q {
      MulMono(p + 1, q, d);
    }
  }

  lemma DivAtMost(n: nat, d: nat, q: nat)
    requires d > 0 && n <= q * d
    ensures n / d <= q
  {
    var p := n / d;
    assert p * d <= n by { DivBound(n, d); }
    assert (q + 1) * d == q * d + d;
    if q < p {
      MulMono(q + 1, p, d);
    }
  }

  lemma MulMono(a: nat, b: nat, c: nat)
    requires a <= b
    ensures a * c <= b * c
  {}

  lemma NatProduct(a: nat, b: nat)
    ensures a * b >= 0
  {}

  lemma MulCancel(a: nat, b: nat, c: nat)
    requires c > 0 && a * c <= b * c
    ensures a <= b
  {
    if b < a {
      MulMono(b + 1, a, c);
    }
  }

  lemma ShareOfReserve(a: nat, d: nat, r: nat)
    requires d > 0 && a <= d
    ensures a * r / d <= r
  {
    MulMono(a, d, r);
    DivAtMost(a * r, d, r);
  }

  /** The floor-division inequality that every later argument rests on. */
  lemma OutBound(fee: Fee, x: nat, reserveIn: nat, reserveOut: nat)
    ensures var r := CalculateAmountsOut(fee, x, reserveIn, reserveOut);
            r.amount * SaleBase(fee, x, reserveIn) <= x * Kept(fee) * reserveOut
  {
    if SaleBase(fee, x, reserveIn) > 0 {
      DivBound(x * Kept(fee) * reserveOut, SaleBase(fee, x, reserveIn));
    }
  }

  /** `q` is `n / d`, rounded down. */
  predicate IsFloor(q: int, n: int, d: int) { q * d <= n < (q + 1) * d }

  /**
   * `r` is a swap of `x`, in the numbers of the pool: it pays the share `x * (10000 - fee)` of
   * `reserveIn * 10000 + x * (10000 - fee)`, applied to the other reserve and rounded down. Only with
   * nothing on either side is nothing paid and nothing moved.
   */
  predicate IsSwap(fee: Fee, x: nat, reserveIn: nat, reserveOut: nat, r: SwapResult) {
    var kept := x * (10000 - fee);
    var whole := reserveIn * 10000 + kept;
    if whole == 0 then r == SwapResult(0, reserveIn, reserveOut)
    else
      && IsFloor(r.amount, kept * reserveOut, whole)
      && r.newReserveIn == reserveIn + x && r.newReserveOut == reserveOut - r.amount
  }

  /** The program computes the one swap there is. */
  lemma SwapIff(fee: Fee, x: nat, reserveIn: nat, reserveOut: nat, r: SwapResult)
    ensures r == CalculateAmountsOut(fee, x, reserveIn, reserveOut) <==> IsSwap(fee, x, reserveIn, reserveOut, r)
  {
    NatProduct(x, 10000 - fee);
    OutIs(x * (10000 - fee), reserveIn * 10000, fee, x, reserveIn, reserveOut, r);
  }

  /** With the products named. */
  lemma OutIs(kept: nat, scaled: nat, fee: Fee, x: nat, reserveIn: nat, reserveOut: nat, r: SwapResult)
    requires kept == x * Kept(fee) && scaled == reserveIn * SCALE
    ensures r == CalculateAmountsOut(fee, x, reserveIn, reserveOut) <==>
            if scaled + kept == 0 then r == SwapResult(0, reserveIn, reserveOut)
            else IsFloor(r.amount, kept * reserveOut, scaled + kept)
                 && r.newReserveIn == reserveIn + x && r.newReserveOut == reserveOut - r.amount
  {
    if scaled + kept > 0 {
      NatProduct(kept, reserveOut);
      FloorIff(kept * reserveOut, scaled + kept, r.amount);
    }
  }

  lemma FloorIff(n: nat, d: nat, q: nat)
    requires d > 0
    ensures q == n / d <==> IsFloor(q, n, d)
  {
    DivBound(n, d);
    if IsFloor(q, n, d) {
      DivAtLeast(n, d, q);
      SmallerFloor(n, d, q);
    }
  }

  lemma SmallerFloor(n: nat, d: nat, q: nat)
    requires d > 0 && n < (q + 1) * d
    ensures n / d <= q
  {
    DivBound(n, d);
    if n / d >= q + 1 {
      MulMono(q + 1, n / d, d);
    }
  }

  /** The sale yields `y` or more as soon as `y` satisfies the inequality. */
  lemma OutAtLeast(fee: Fee, x: nat, reserveIn: nat, reserveOut: nat, y: nat)
    requires SaleBase(fee, x, reserveIn) > 0
    requires y * SaleBase(fee, x, reserveIn) <= x * Kept(fee) * reserveOut
    ensures y <= CalculateAmountsOut(fee, x, reserveIn, reserveOut).amount
  {
    DivAtLeast(x * Kept(fee) * reserveOut, SaleBase(fee, x, reserveIn), y);
  }

  // ---- splitting a sale ----

  lemma SplitAlgebra(x: nat, a: nat, b: nat, r: nat, y1: nat, y2: nat)
    requires y1 <= r
    requires y1 * (x + a) <= a * r
    requires y2 * (x + a + b) <= b * (r - y1)
    ensures (y1 + y2) * (x + a + b) <= (a + b) * r
  {
    calc <= {
      (y1 + y2) * (x + a + b);
    ==
      y1 * (x + a) + y1 * b + y2 * (x + a + b);
      a * r + y1 * b + b * (r - y1);
    ==
      (a + b) * r;
    }
  }

  lemma SplitBound(g: nat, a: nat, b: nat, rin: nat, rout: nat, y1: nat, y2: nat)
    requires g <= SCALE && y1 <= rout
    requires y1 * (rin * SCALE + a * g) <= a * g * rout
    requires y2 * ((rin + a) * SCALE + b * g) <= b * g * (rout - y1)
    ensures (y1 + y2) * (rin * SCALE + (a + b) * g) <= (a + b) * g * rout
  {
    Distribute(a, b, g);
    MulMono(g, SCALE, a);
    SplitProducts(rin * SCALE, a * g, b * g, a * SCALE, rout, y1, y2);
  }

  /** With the products named: `x` the scaled reserve, `a` and `b` the kept parts, `s` the scaled first sale. */
  lemma SplitProducts(x: nat, a: nat, b: nat, s: nat, r: nat, y1: nat, y2: nat)
    requires y1 <= r && a <= s
    requires y1 * (x + a) <= a * r && y2 * (x + s + b) <= b * (r - y1)
    ensures (y1 + y2) * (x + (a + b)) <= (a + b) * r
  {
    MulMono(x + a + b, x + s + b, y2);
    SplitAlgebra(x, a, b, r, y1, y2);
  }

  lemma Distribute(a: nat, b: nat, c: nat)
    ensures (a + b) * c == a * c + b * c
  {}

  /** With a zero reserve and no kept input nothing is sold: the pair is left alone. */
  lemma EmptyFirstSale(fee: Fee, a: nat, b: nat, reserveIn: nat, reserveOut: nat)
    requires SaleBase(fee, a, reserveIn) == 0
    ensures CalculateAmountsOut(fee, b, reserveIn, reserveOut).amount
         <= CalculateAmountsOut(fee, a + b, reserveIn, reserveOut).amount
  {
    assert (a + b) * Kept(fee) == a * Kept(fee) + b * Kept(fee) == b * Kept(fee);
  }

  /** Selling `a` and then `b` into a pair never yields more than selling `a + b` at once. */
  lemma SplitSaleYieldsNoMore(fee: Fee, a: nat, b: nat, reserveIn: nat, reserveOut: nat)
    ensures var first := CalculateAmountsOut(fee, a, reserveIn, reserveOut);
            var second := CalculateAmountsOut(fee, b, first.newReserveIn, first.newReserveOut);
            first.amount + second.amount <= CalculateAmountsOut(fee, a + b, reserveIn, reserveOut).amount
  {
    var first := CalculateAmountsOut(fee, a, reserveIn, reserveOut);
    var second := CalculateAmountsOut(fee, b, first.newReserveIn, first.newReserveOut);
    if SaleBase(fee, a, reserveIn) == 0 {
      EmptyFirstSale(fee, a, b, reserveIn, reserveOut);
    } else {
      OutBound(fee, a, reserveIn, reserveOut);
      OutBound(fee, b, first.newReserveIn, first.newReserveOut);
      SplitBound(Kept(fee), a, b, reserveIn, reserveOut, first.amount, second.amount);
      BaseGrows(fee, a, b, reserveIn);
      OutAtLeast(fee, a + b, reserveIn, reserveOut, first.amount + second.amount);
    }
  }

  lemma BaseGrows(fee: Fee, a: nat, b: nat, reserveIn: nat)
    ensures SaleBase(fee, a, reserveIn) <= SaleBase(fee, a + b, reserveIn)
  {
    MulMono(a, a + b, Kept(fee));
  }

  function Total(xs: seq<nat>): nat { if xs == [] then 0 else xs[0] + Total(xs[1..]) }

  /** The total received when the amounts are sold one after the other. */
  function SellAll(fee: Fee, xs: seq<nat>, reserveIn: nat, reserveOut: nat): nat {
    if xs == [] then 0
    else
      var r := CalculateAmountsOut(fee, xs[0], reserveIn, reserveOut);
      r.amount + SellAll(fee, xs[1..], r.newReserveIn, r.newReserveOut)
  }

  /** However a sale is split, it never yields more than the whole at once. */
  lemma {:induction false} AnySplitYieldsNoMore(fee: Fee, xs: seq<nat>, reserveIn: nat, reserveOut: nat)
    ensures SellAll(fee, xs, reserveIn, reserveOut)
         <= CalculateAmountsOut(fee, Total(xs), reserveIn, reserveOut).amount
  {
    if xs != [] {
      var r := CalculateAmountsOut(fee, xs[0], reserveIn, reserveOut);
      AnySplitYieldsNoMore(fee, xs[1..], r.newReserveIn, r.newReserveOut);
      SplitSaleYieldsNoMore(fee, xs[0], Total(xs[1..]), reserveIn, reserveOut);
    }
  }

  // ---- the product ----

  lemma TakenBelowShare(rin: nat, rout: nat, x: nat, y: nat, g: nat)
    requires 0 < g <= SCALE && y * (rin * SCALE + x * g) <= x * g * rout
    ensures y * (rin + x) <= x * rout
  {
    var scaled, base := rin * g + x * g, rin * SCALE + x * g;
    assert scaled <= base by { MulMono(g, SCALE, rin); }
    MulMono(scaled, base, y);
    assert y * (rin + x) * g == scaled * y by { Regroup(y, rin, x, g); }
    assert x * g * rout == x * rout * g by { Commute(x, g, rout); }
    MulCancel(y * (rin + x), x * rout, g);
  }

  lemma Regroup(y: nat, a: nat, b: nat, g: nat)
    ensures y * (a + b) * g == (a * g + b * g) * y
  {}

  lemma Commute(a: nat, b: nat, c: nat)
    ensures a * b * c == a * c * b
  {}

  lemma ProductAlgebra(rin: nat, rout: nat, x: nat, y: nat)
    requires y <= rout && y * (rin + x) <= x * rout
    ensures rin * rout <= (rin + x) * (rout - y)
  {
    assert (rin + x) * (rout - y) == rin * rout + x * rout - y * (rin + x);
  }

  /** A sale never lowers the product of the reserves, pays at most the reserve. */
  lemma ProductNeverShrinks(fee: Fee, x: nat, reserveIn: nat, reserveOut: nat)
    ensures var r := CalculateAmountsOut(fee, x, reserveIn, reserveOut);
            && reserveIn * reserveOut <= r.newReserveIn * r.newReserveOut
            && reserveIn <= r.newReserveIn <= reserveIn + x && r.newReserveOut <= reserveOut
  {
    var r := CalculateAmountsOut(fee, x, reserveIn, reserveOut);
    if SaleBase(fee, x, reserveIn) > 0 {
      OutBound(fee, x, reserveIn, reserveOut);
      if Kept(fee) > 0 {
        TakenBelowShare(reserveIn, reserveOut, x, r.amount, Kept(fee));
        ProductAlgebra(reserveIn, reserveOut, x, r.amount);
      } else {
        assert x * Kept(fee) * reserveOut == 0;
        assert r.amount == 0;
        MulMono(reserveIn, reserveIn + x, reserveOut);
      }
    }
  }

  /** A larger sale never yields less. */
  lemma OutMonotone(fee: Fee, x: nat, x': nat, reserveIn: nat, reserveOut: nat)
    requires x <= x'
    ensures CalculateAmountsOut(fee, x, reserveIn, reserveOut).amount
         <= CalculateAmountsOut(fee, x', reserveIn, reserveOut).amount
  {
    SplitSaleYieldsNoMore(fee, x, x' - x, reserveIn, reserveOut);
  }

  // ---- buying quotes ----

  /** The amount `calculate_amounts_in` prices: a request above the reserve is cut to one below it. */
  function AdjustedRequest(y: nat, reserveOut: nat): nat
    requires reserveOut > 0 || y == 0
  {
    if y > reserveOut then reserveOut - 1 else y
  }

  /** `calculate_amounts_in`; asking anything of an empty reserve would underflow. */
  function CalculateAmountsIn(fee: Fee, y: nat, reserveIn: nat, reserveOut: nat): SwapResult
    requires reserveOut > 0 || y == 0
  {
    var adjusted := AdjustedRequest(y, reserveOut);
    var numerator := reserveIn * adjusted * SCALE;
    var denominator := (reserveOut - adjusted) * Kept(fee);
    if denominator == 0 then SwapResult(0, reserveIn, reserveOut)
    else
      var x := numerator / denominator + 1;
      SwapResult(x, reserveIn + x, reserveOut - adjusted)
  }

  /**
   * `q` is the price of `y`, in the numbers of the pool: one more than
   * `reserveIn * y * 10000 / ((reserveOut - y) * (10000 - fee))` rounded down, where a request above
   * the reserve is cut to the reserve less one. A request of the whole reserve, or a fee of 10000,
   * costs nothing and moves nothing.
   */
  predicate IsPrice(fee: Fee, y: nat, reserveIn: nat, reserveOut: nat, q: SwapResult)
    requires reserveOut > 0 || y == 0
  {
    var bought := if y > reserveOut then reserveOut - 1 else y;
    var d := (reserveOut - bought) * (10000 - fee);
    if d == 0 then q == SwapResult(0, reserveIn, reserveOut)
    else
      && q.amount >= 1 && IsFloor(q.amount - 1, reserveIn * bought * 10000, d)
      && q.newReserveIn == reserveIn + q.amount && q.newReserveOut == reserveOut - bought
  }

  lemma PriceIff(fee: Fee, y: nat, reserveIn: nat, reserveOut: nat, q: SwapResult)
    requires reserveOut > 0 || y == 0
    ensures q == CalculateAmountsIn(fee, y, reserveIn, reserveOut) <==> IsPrice(fee, y, reserveIn, reserveOut, q)
  {
    var bought := AdjustedRequest(y, reserveOut);
    NatProduct(reserveIn, bought);
    NatProduct(reserveOut - bought, 10000 - fee);
    InIs(reserveIn * bought * 10000, (reserveOut - bought) * (10000 - fee), fee, y, reserveIn, reserveOut, q);
  }

  lemma InIs(n: nat, d: nat, fee: Fee, y: nat, reserveIn: nat, reserveOut: nat, q: SwapResult)
    requires reserveOut > 0 || y == 0
    requires var bought := AdjustedRequest(y, reserveOut);
             n == reserveIn * bought * SCALE && d == (reserveOut - bought) * Kept(fee)
    ensures q == CalculateAmountsIn(fee, y, reserveIn, reserveOut) <==>
            if d == 0 then q == SwapResult(0, reserveIn, reserveOut)
            else q.amount >= 1 && IsFloor(q.amount - 1, n, d) && q.newReserveIn == reserveIn + q.amount
                 && q.newReserveOut == reserveOut - AdjustedRequest(y, reserveOut)
  {
    if d > 0 && q.amount >= 1 {
      FloorIff(n, d, q.amount - 1);
    }
  }

  /** Paying `x` yields at least `y`. */
  ghost predicate Sufficient(fee: Fee, x: nat, y: nat, reserveIn: nat, reserveOut: nat) {
    y <= CalculateAmountsOut(fee, x, reserveIn, reserveOut).amount
  }

  lemma SufficientAlgebra(fee: Fee, x: nat, y: nat, reserveIn: nat, reserveOut: nat)
    requires y <= reserveOut
    ensures y * SaleBase(fee, x, reserveIn) <= x * Kept(fee) * reserveOut
       <==> reserveIn * y * SCALE <= x * ((reserveOut - y) * Kept(fee))
  {
    var g := Kept(fee);
    assert y * SaleBase(fee, x, reserveIn) == reserveIn * y * SCALE + x * g * y;
    assert x * g * reserveOut == x * ((reserveOut - y) * g) + x * g * y;
  }

  lemma EnoughPaid(fee: Fee, x: nat, y: nat, reserveIn: nat, reserveOut: nat)
    requires fee < SCALE && y < reserveOut && x > 0
    requires reserveIn * y * SCALE <= x * ((reserveOut - y) * Kept(fee))
    ensures Sufficient(fee, x, y, reserveIn, reserveOut)
  {
    SufficientAlgebra(fee, x, y, reserveIn, reserveOut);
    MulMono(1, x, Kept(fee));
    OutAtLeast(fee, x, reserveIn, reserveOut, y);
  }

  /** The quoted input buys the request. */
  lemma QuoteSuffices(fee: Fee, y: nat, reserveIn: nat, reserveOut: nat)
    requires fee < SCALE && y < reserveOut
    ensures var q := CalculateAmountsIn(fee, y, reserveIn, reserveOut).amount;
            q > 0 && Sufficient(fee, q, y, reserveIn, reserveOut)
  {
    var n, d := reserveIn * y * SCALE, (reserveOut - y) * Kept(fee);
    MulMono(1, reserveOut - y, Kept(fee));
    DivBound(n, d);
    EnoughPaid(fee, n / d + 1, y, reserveIn, reserveOut);
  }

  lemma MustPay(fee: Fee, x: nat, y: nat, reserveIn: nat, reserveOut: nat)
    requires y <= reserveOut && Sufficient(fee, x, y, reserveIn, reserveOut)
    ensures reserveIn * y * SCALE <= x * ((reserveOut - y) * Kept(fee))
  {
    OutBound(fee, x, reserveIn, reserveOut);
    MulMono(y, CalculateAmountsOut(fee, x, reserveIn, reserveOut).amount, SaleBase(fee, x, reserveIn));
    SufficientAlgebra(fee, x, y, reserveIn, reserveOut);
  }

  /** The quote is at most one unit above any input that would do. */
  lemma QuoteIsTight(fee: Fee, x: nat, y: nat, reserveIn: nat, reserveOut: nat)
    requires fee < SCALE && y < reserveOut && Sufficient(fee, x, y, reserveIn, reserveOut)
    ensures CalculateAmountsIn(fee, y, reserveIn, reserveOut).amount <= x + 1
  {
    MustPay(fee, x, y, reserveIn, reserveOut);
    MulMono(1, reserveOut - y, Kept(fee));
    DivAtMost(reserveIn * y * SCALE, (reserveOut - y) * Kept(fee), x);
  }
}
