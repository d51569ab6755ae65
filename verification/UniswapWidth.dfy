/** The same swaps in 256-bit arithmetic, and when the two agree. */
module UniswapWidth {
  import opened Words
  import opened UniswapMath
  import opened UniswapPaths

  const TWO32 := 0x1_0000_0000
  const TWO112 := 0x1_0000_0000_0000_0000_0000_0000_0000
  const TWO128 := U128_MAX + 1
  const TWO256 := TWO128 * TWO128

  /** What a register of `size` values keeps of `x`. */
  function Wrap(x: int, size: nat): nat
    requires size > 0
  {
    x % size
  }

  function WrappedNumerator(size: nat, fee: Fee, x: nat, reserveOut: nat): nat
    requires size > 0
  {
    Wrap(Wrap(x * Kept(fee), size) * reserveOut, size)
  }

  function WrappedDenominator(size: nat, fee: Fee, x: nat, reserveIn: nat): nat
    requires size > 0
  {
    Wrap(Wrap(reserveIn * SCALE, size) + Wrap(x * Kept(fee), size), size)
  }

  /** The swap from its numerator and denominator on. */
  function Settle(size: nat, numerator: nat, denominator: nat, x: nat, reserveIn: nat, reserveOut: nat): SwapResult
    requires size > 0
  {
    if denominator == 0 then SwapResult(0, reserveIn, reserveOut)
    else
      SwapResult(numerator / denominator, Wrap(reserveIn + x, size), Wrap(reserveOut - numerator / denominator, size))
  }

  /** `calculate_amounts_out` with every intermediate result in a register of `size` values. */
  function WrappedAmountsOut(size: nat, fee: Fee, x: nat, reserveIn: nat, reserveOut: nat): SwapResult
    requires size > 0
  {
    Settle(size, WrappedNumerator(size, fee, x, reserveOut), WrappedDenominator(size, fee, x, reserveIn), x,
        reserveIn, reserveOut)
  }

  function PairOut256(p: Pair, x: nat, r: (nat, nat)): SwapResult {
    WrappedAmountsOut(TWO256, p.fee, Clamp(x), SellSide(p, r), BuySide(p, r))
  }

  function RouteOut256(route: seq<Pair>, x: nat, m: Reserves): (nat, Reserves) {
    if route == [] then (x, m)
    else
      var s := PairOut256(route[0], x, ReservesOf(route[0], m));
      RouteOut256(route[1..], s.amount, m[route[0].address := Oriented(route[0], s)])
  }

  function PathOut256(path: Path, x: nat, m: Reserves): (nat, Reserves) {
    var (amount, m') := RouteOut256(path.route, x, m);
    (Wrap(amount * path.finalRatio, TWO256), m')
  }

  /** The payouts of a run in 256 bits, and the reserves it leaves. */
  function Run256(sales: seq<Sale>, m: Reserves): (seq<nat>, Reserves) {
    if sales == [] then ([], m)
    else
      var (payout, m') := PathOut256(sales[0].path, sales[0].amount, m);
      var (rest, last) := Run256(sales[1..], m');
      ([payout] + rest, last)
  }

  function Hops(sales: seq<Sale>): nat {
    if sales == [] then 0 else |sales[0].path.route| + Hops(sales[1..])
  }

  // ---- one swap ----

  /** No intermediate result of `calculate_amounts_out` reaches `size`. */
  ghost predicate SwapFits(size: nat, fee: Fee, x: nat, reserveIn: nat, reserveOut: nat) {
    && x * Kept(fee) < size && x * Kept(fee) * reserveOut < size
    && reserveIn * SCALE < size && SaleBase(fee, x, reserveIn) < size
    && reserveIn + x < size && reserveOut < size
  }

  /** The same for every hop of a route. */
  ghost predicate RouteFits(route: seq<Pair>, x: nat, m: Reserves) {
    route != [] ==>
      var r := ReservesOf(route[0], m);
      && SwapFits(TWO256, route[0].fee, Clamp(x), SellSide(route[0], r), BuySide(route[0], r))
      && RouteFits(route[1..], PairOut(route[0], x, r).amount, Hop(route[0], x, m))
  }

  /** The same for every route of a run, and for its final multiplications. */
  ghost predicate RunFits(sales: seq<Sale>, m: Reserves) {
    sales != [] ==>
      var path, x := sales[0].path, sales[0].amount;
      && RouteFits(path.route, x, m) && PathOut(path, x, m).0 < TWO256
      && RunFits(sales[1..], PathOut(path, x, m).1)
  }

  lemma WrapId(x: nat, size: nat)
    requires x < size
    ensures Wrap(x, size) == x
  {}

  lemma NumeratorExact(size: nat, fee: Fee, x: nat, reserveOut: nat)
    requires x * Kept(fee) < size && x * Kept(fee) * reserveOut < size
    ensures WrappedNumerator(size, fee, x, reserveOut) == x * Kept(fee) * reserveOut
  {
    WrapId(x * Kept(fee), size);
    WrapId(x * Kept(fee) * reserveOut, size);
  }

  lemma DenominatorExact(size: nat, fee: Fee, x: nat, reserveIn: nat)
    requires SaleBase(fee, x, reserveIn) < size
    ensures WrappedDenominator(size, fee, x, reserveIn) == SaleBase(fee, x, reserveIn)
  {
    WrapId(x * Kept(fee), size);
    WrapId(reserveIn * SCALE, size);
    WrapId(reserveIn * SCALE + x * Kept(fee), size);
  }

  lemma SettleExact(size: nat, numerator: nat, denominator: nat, fee: Fee, x: nat, reserveIn: nat, reserveOut: nat)
    requires numerator == x * Kept(fee) * reserveOut && denominator == SaleBase(fee, x, reserveIn)
    requires reserveOut < size && reserveIn + x < size
    ensures Settle(size, numerator, denominator, x, reserveIn, reserveOut)
         == CalculateAmountsOut(fee, x, reserveIn, reserveOut)
  {
    WrapId(reserveIn + x, size);
    WrapId(CalculateAmountsOut(fee, x, reserveIn, reserveOut).newReserveOut, size);
  }

  lemma ModShift(x: int, k: int, size: nat)
    requires size > 0
    ensures (x + k * size) % size == x % size
  {
    var y := x + k * size;
    var d := y / size - x / size - k;
    assert y == y / size * size + y % size && x == x / size * size + x % size;
    assert d * size == x % size - y % size;
    MultipleGrows(size, d);
  }

  lemma ModTimes(a: nat, b: nat, size: nat)
    requires size > 0
    ensures Wrap(a, size) * b % size == a * b % size
  {
    var q, r := a / size, a % size;
    assert a == q * size + r;
    assert a * b == r * b + q * b * size;
    ModShift(r * b, q * b, size);
  }

  lemma ModPlus(a: nat, b: nat, size: nat)
    requires size > 0
    ensures (Wrap(a, size) + Wrap(b, size)) % size == (a + b) % size
  {
    var p, q := a / size, b / size;
    assert a == p * size + a % size && b == q * size + b % size;
    assert a + b == a % size + b % size + (p + q) * size;
    ModShift(a % size + b % size, p + q, size);
  }

  /** In the registers are the exact numerator and denominator, up to wrap-around. */
  lemma WrappedParts(size: nat, fee: Fee, x: nat, reserveIn: nat, reserveOut: nat)
    requires size > 0
    ensures WrappedNumerator(size, fee, x, reserveOut) == x * (10000 - fee) * reserveOut % size
    ensures WrappedDenominator(size, fee, x, reserveIn) == (reserveIn * 10000 + x * (10000 - fee)) % size
  {
    NatProduct(x, Kept(fee));
    ModTimes(x * Kept(fee), reserveOut, size);
    ModPlus(reserveIn * SCALE, x * Kept(fee), size);
  }

  /** The swap in registers: their quotient is paid, and the reserves move by it, up to wrap-around. */
  lemma WrappedIs(size: nat, fee: Fee, x: nat, reserveIn: nat, reserveOut: nat, n: nat, d: nat)
    requires size > 0 && n == x * (10000 - fee) * reserveOut % size
    requires d == (reserveIn * 10000 + x * (10000 - fee)) % size
    ensures WrappedAmountsOut(size, fee, x, reserveIn, reserveOut) ==
            if d == 0 then SwapResult(0, reserveIn, reserveOut)
            else SwapResult(n / d, (reserveIn + x) % size, (reserveOut - n / d) % size)
  {
    WrappedParts(size, fee, x, reserveIn, reserveOut);
  }

  /** If no intermediate result reaches the register size, the wrapped swap is the exact one. */
  lemma NoWrapIfSmall(size: nat, fee: Fee, x: nat, reserveIn: nat, reserveOut: nat)
    requires SwapFits(size, fee, x, reserveIn, reserveOut)
    ensures WrappedAmountsOut(size, fee, x, reserveIn, reserveOut) == CalculateAmountsOut(fee, x, reserveIn, reserveOut)
  {
    NumeratorExact(size, fee, x, reserveOut);
    DenominatorExact(size, fee, x, reserveIn);
    SettleExact(size, WrappedNumerator(size, fee, x, reserveOut), WrappedDenominator(size, fee, x, reserveIn),
                fee, x, reserveIn, reserveOut);
  }

  lemma ProductBound(a: nat, b: nat, aMax: nat, bMax: nat)
    requires a <= aMax && b <= bMax
    ensures a * b <= aMax * bMax
  {
    MulMono(a, aMax, b);
    MulMono(b, bMax, aMax);
  }

  /** What a reserve can have grown to after `n` sales of at most 128 bits. */
  function Grown(n: nat): nat { TWO112 + n * TWO128 }

  /** A register that holds the products of a swap below these bounds. */
  predicate Roomy(size: nat) {
    U128_MAX * SCALE * TWO112 < size && TWO112 * TWO128 * SCALE + U128_MAX * SCALE < size
  }

  lemma FactorBound(fee: Fee, x: nat, reserveOut: nat)
    requires x <= U128_MAX && reserveOut < TWO112
    ensures x * Kept(fee) <= U128_MAX * SCALE
    ensures x * Kept(fee) * reserveOut <= U128_MAX * SCALE * TWO112
  {
    ProductBound(x, Kept(fee), U128_MAX, SCALE);
    ProductBound(x * Kept(fee), reserveOut, U128_MAX * SCALE, TWO112);
  }

  lemma GrownBelow(n: nat)
    requires n < TWO112
    ensures Grown(n) <= TWO112 * TWO128
  {
    MulMono(n, TWO112 - 1, TWO128);
  }

  lemma {:induction false} NoWrap(size: nat, fee: Fee, x: nat, reserveIn: nat, reserveOut: nat, n: nat)
    requires Roomy(size) && x <= U128_MAX && reserveOut < TWO112 && n < TWO112 && reserveIn <= Grown(n)
    ensures SwapFits(size, fee, x, reserveIn, reserveOut)
    ensures WrappedAmountsOut(size, fee, x, reserveIn, reserveOut) == CalculateAmountsOut(fee, x, reserveIn, reserveOut)
  {
    GrownBelow(n);
    FactorBound(fee, x, reserveOut);
    NoWrapIfSmall(size, fee, x, reserveIn, reserveOut);
  }

  // ---- whole runs ----

  /** Every pair is only ever sold from one side: `sellsZero` tells which. */
  ghost predicate OneWay(route: seq<Pair>, sellsZero: Address -> bool) {
    forall i :: 0 <= i < |route| ==> (route[i].side == 0 <==> sellsZero(route[i].address))
  }

  ghost predicate Within(r: (nat, nat), zero: bool, n: nat) {
    if zero then r.0 <= Grown(n) && r.1 < TWO112 else r.1 <= Grown(n) && r.0 < TWO112
  }

  /** After `n` hops: the side sold into has grown at most so far, the other is still below 2^112. */
  ghost predicate WithinAll(m: Reserves, start: Address -> (nat, nat), sellsZero: Address -> bool, n: nat) {
    forall a :: Within(Current(m, start, a), sellsZero(a), n)
  }

  lemma HopWithin(p: Pair, x: nat, m: Reserves, start: Address -> (nat, nat), sellsZero: Address -> bool, n: nat)
    requires p.initial == start(p.address) && (p.side == 0 <==> sellsZero(p.address))
    requires WithinAll(m, start, sellsZero, n) && n + 1 < TWO112
    ensures PairOut256(p, x, ReservesOf(p, m)) == PairOut(p, x, ReservesOf(p, m))
    ensures var r := ReservesOf(p, m); SwapFits(TWO256, p.fee, Clamp(x), SellSide(p, r), BuySide(p, r))
    ensures PairOut(p, x, ReservesOf(p, m)).amount < TWO112
    ensures WithinAll(Hop(p, x, m), start, sellsZero, n + 1)
  {
    var r := ReservesOf(p, m);
    assert r == Current(m, start, p.address) && Within(r, sellsZero(p.address), n);
    NoWrap(TWO256, p.fee, Clamp(x), SellSide(p, r), BuySide(p, r), n);
    ProductNeverShrinks(p.fee, Clamp(x), SellSide(p, r), BuySide(p, r));
    assert Grown(n + 1) == Grown(n) + TWO128;
    forall a ensures Within(Current(Hop(p, x, m), start, a), sellsZero(a), n + 1) {
      assert Within(Current(m, start, a), sellsZero(a), n);
    }
  }

  lemma {:induction false} RouteWithin(route: seq<Pair>, x: nat, m: Reserves, start: Address -> (nat, nat),
      sellsZero: Address -> bool, n: nat)
    requires Consistent(route, start) && OneWay(route, sellsZero)
    requires WithinAll(m, start, sellsZero, n) && n + |route| < TWO112
    ensures RouteOut256(route, x, m) == RouteOut(route, x, m) && RouteFits(route, x, m)
    ensures route != [] ==> RouteOut(route, x, m).0 < TWO112
    ensures WithinAll(RouteOut(route, x, m).1, start, sellsZero, n + |route|)
  {
    if route != [] {
      HopWithin(route[0], x, m, start, sellsZero, n);
      var y, m' := PairOut(route[0], x, ReservesOf(route[0], m)).amount, Hop(route[0], x, m);
      RouteWithin(route[1..], y, m', start, sellsZero, n + 1);
      RouteNext(route, x, m, y, m');
    }
  }

  lemma {:induction false} RouteNext(route: seq<Pair>, x: nat, m: Reserves, y: nat, m': Reserves)
    requires route != [] && y == PairOut(route[0], x, ReservesOf(route[0], m)).amount && m' == Hop(route[0], x, m)
    requires PairOut256(route[0], x, ReservesOf(route[0], m)) == PairOut(route[0], x, ReservesOf(route[0], m))
    requires var r := ReservesOf(route[0], m);
             SwapFits(TWO256, route[0].fee, Clamp(x), SellSide(route[0], r), BuySide(route[0], r))
    requires RouteOut256(route[1..], y, m') == RouteOut(route[1..], y, m') && RouteFits(route[1..], y, m')
    ensures RouteOut256(route, x, m) == RouteOut(route, x, m) == RouteOut(route[1..], y, m') && RouteFits(route, x, m)
    ensures route[1..] == [] ==> RouteOut(route, x, m).0 == y
  {}

  lemma PayoutFits(amount: nat, ratio: nat)
    requires amount < TWO112 && ratio < TWO32
    ensures Wrap(amount * ratio, TWO256) == amount * ratio < TWO256
  {
    ProductBound(amount, ratio, TWO112, TWO32);
    WrapId(amount * ratio, TWO256);
  }

  /**
   * Over every run of fewer than 2^112 swaps in which no pair is traversed in both directions,
   * starting below 2^112, with non-empty routes and 32-bit final ratios, no intermediate result
   * reaches 2^256, and the 256-bit computation is the exact one.
   */
  lemma {:induction false} RunNeverOverflows(sales: seq<Sale>, m: Reserves, start: Address -> (nat, nat),
      sellsZero: Address -> bool, n: nat)
    requires ConsistentRun(sales, start)
    requires forall i :: 0 <= i < |sales| ==> OneWay(sales[i].path.route, sellsZero)
    requires forall i :: 0 <= i < |sales| ==> sales[i].path.route != [] && sales[i].path.finalRatio < TWO32
    requires WithinAll(m, start, sellsZero, n) && n + Hops(sales) < TWO112
    ensures RunFits(sales, m) && Run256(sales, m) == (Payouts(sales, m), Run(sales, m))
  {
    if sales != [] {
      var path, x := sales[0].path, sales[0].amount;
      RouteWithin(path.route, x, m, start, sellsZero, n);
      var amount := RouteOut(path.route, x, m).0;
      PayoutFits(amount, path.finalRatio);
      RunNeverOverflows(sales[1..], PathOut(path, x, m).1, start, sellsZero, n + |path.route|);
    }
  }

  /** `reserve_parser`: two 112-bit numbers from bytes 4..18 and 18..32 of the storage slot. */
  function ReserveParser(slot: nat): (r: (nat, nat))
    requires slot < TWO256
    ensures r.0 < TWO112 && r.1 < TWO112
    ensures slot % (TWO112 * TWO112) == r.0 * TWO112 + r.1
  {
    (slot / TWO112 % TWO112, slot % TWO112)
  }
}
