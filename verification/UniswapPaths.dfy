/** Multi-hop swaps that thread a map of pair reserves. */
module UniswapPaths {
  import opened Words
  import opened UniswapMath

  type Address = nat
  type Reserves = map<Address, (nat, nat)>

  /** `PairContext`: `side` 0 sells token 0 of the pair, any other side token 1. */
  datatype Pair = Pair(address: Address, side: nat, fee: Fee, initial: (nat, nat))

  datatype Path = Path(route: seq<Pair>, finalRatio: nat, finalPair: Option<Pair>)

  function Clamp(x: nat): nat { if x > U128_MAX then U128_MAX else x }

  function ReservesOf(p: Pair, m: Reserves): (nat, nat) {
    if p.address in m then m[p.address] else p.initial
  }

  function SellSide(p: Pair, r: (nat, nat)): nat { if p.side == 0 then r.0 else r.1 }

  function BuySide(p: Pair, r: (nat, nat)): nat { if p.side == 0 then r.1 else r.0 }

  /** `PairContext::get_amount_out`. */
  function PairOut(p: Pair, x: nat, r: (nat, nat)): SwapResult {
    CalculateAmountsOut(p.fee, Clamp(x), SellSide(p, r), BuySide(p, r))
  }

  function Oriented(p: Pair, s: SwapResult): (nat, nat) {
    if p.side == 0 then (s.newReserveIn, s.newReserveOut) else (s.newReserveOut, s.newReserveIn)
  }

  /** One hop: the reserves afterwards. */
  function Hop(p: Pair, x: nat, m: Reserves): Reserves {
    m[p.address := Oriented(p, PairOut(p, x, ReservesOf(p, m)))]
  }

  /** The amount that leaves the route and the reserves afterwards. */
  function RouteOut(route: seq<Pair>, x: nat, m: Reserves): (nat, Reserves) {
    if route == [] then (x, m)
    else RouteOut(route[1..], PairOut(route[0], x, ReservesOf(route[0], m)).amount, Hop(route[0], x, m))
  }

  /** `PathContext::get_amount_out`, as a function of the reserve map. */
  function PathOut(path: Path, x: nat, m: Reserves): (nat, Reserves) {
    var (amount, m') := RouteOut(path.route, x, m);
    (amount * path.finalRatio, m')
  }

  /** `PathContext::get_amount_out`: the loop that updates the map hop by hop. */
  method GetAmountOut(path: Path, amountIn: nat, reserves: Reserves) returns (amount: nat, after: Reserves)
    ensures (amount, after) == PathOut(path, amountIn, reserves)
  {
    amount, after := amountIn, reserves;
    assert path.route[0..] == path.route;
    for i := 0 to |path.route|
      invariant RouteOut(path.route[i..], amount, after) == RouteOut(path.route, amountIn, reserves)
    {
      var p := path.route[i];
      var r := if p.address in after then after[p.address] else p.initial;
      var swap := PairOut(p, amount, r);
      assert path.route[i..][1..] == path.route[i + 1..];
      after := after[p.address := (
        if p.side == 0 then swap.newReserveIn else swap.newReserveOut,
        if p.side == 0 then swap.newReserveOut else swap.newReserveIn)];
      amount := swap.amount;
    }
    amount := amount * path.finalRatio;
  }

  // ---- the hops of a route, one by one ----

  /**
   * A sale of `x` through `p`, of at most 128 bits, pays `y` and leaves `m'`: it is a swap between the
   * reserves on the map or the pair's own, in the direction of its side, and touches nothing else.
   */
  ghost predicate IsHop(p: Pair, x: nat, m: Reserves, y: nat, m': Reserves) {
    && p.address in m' && m' == m[p.address := m'[p.address]]
    && var r, r' := if p.address in m then m[p.address] else p.initial, m'[p.address];
       var sold := if x > 0xFFFF_FFFF_FFFF_FFFF_FFFF_FFFF_FFFF_FFFF then 0xFFFF_FFFF_FFFF_FFFF_FFFF_FFFF_FFFF_FFFF
                   else x;
       if p.side == 0 then IsSwap(p.fee, sold, r.0, r.1, SwapResult(y, r'.0, r'.1))
       else IsSwap(p.fee, sold, r.1, r.0, SwapResult(y, r'.1, r'.0))
  }

  /** The amounts `xs` and the maps `ms` of a whole route, before the first hop and after each. */
  ghost predicate AreHops(route: seq<Pair>, xs: seq<nat>, ms: seq<Reserves>) {
    && |xs| == |ms| == |route| + 1
    && forall i :: 0 <= i < |route| ==> IsHop(route[i], xs[i], ms[i], xs[i + 1], ms[i + 1])
  }

  lemma HopIff(p: Pair, x: nat, m: Reserves, y: nat, m': Reserves)
    ensures IsHop(p, x, m, y, m') <==> y == PairOut(p, x, ReservesOf(p, m)).amount && m' == Hop(p, x, m)
  {
    if p.address in m' {
      var r, r' := ReservesOf(p, m), m'[p.address];
      var s := if p.side == 0 then SwapResult(y, r'.0, r'.1) else SwapResult(y, r'.1, r'.0);
      SwapIff(p.fee, Clamp(x), SellSide(p, r), BuySide(p, r), s);
    }
  }

  /** A route's outcome is the end of its hops. */
  lemma {:induction false} RouteIff(route: seq<Pair>, x: nat, m: Reserves, xs: seq<nat>, ms: seq<Reserves>)
    requires AreHops(route, xs, ms) && xs[0] == x && ms[0] == m
    ensures RouteOut(route, x, m) == (xs[|route|], ms[|route|])
    decreases |route|
  {
    if route != [] {
      HopIff(route[0], x, m, xs[1], ms[1]);
      forall i | 0 <= i < |route| - 1
        ensures IsHop(route[1..][i], xs[1..][i], ms[1..][i], xs[1..][i + 1], ms[1..][i + 1])
      {
        assert IsHop(route[i + 1], xs[i + 1], ms[i + 1], xs[i + 2], ms[i + 2]);
      }
      RouteIff(route[1..], xs[1], ms[1], xs[1..], ms[1..]);
    }
  }

  lemma {:induction false} HopsExist(route: seq<Pair>, x: nat, m: Reserves) returns (xs: seq<nat>, ms: seq<Reserves>)
    ensures AreHops(route, xs, ms) && xs[0] == x && ms[0] == m
    decreases |route|
  {
    if route == [] {
      xs, ms := [x], [m];
    } else {
      var y, m' := PairOut(route[0], x, ReservesOf(route[0], m)).amount, Hop(route[0], x, m);
      HopIff(route[0], x, m, y, m');
      var ys, ns := HopsExist(route[1..], y, m');
      xs, ms := [x] + ys, [m] + ns;
      forall i | 0 <= i < |route| ensures IsHop(route[i], xs[i], ms[i], xs[i + 1], ms[i + 1]) {
        if i > 0 {
          assert IsHop(route[1..][i - 1], ys[i - 1], ns[i - 1], ys[i - 1 + 1], ns[i - 1 + 1]);
        }
      }
    }
  }

  /** A path pays what its last hop pays times the final ratio, and leaves what its last hop leaves. */
  lemma PathIff(path: Path, x: nat, m: Reserves, payout: nat, after: Reserves)
    ensures (payout, after) == PathOut(path, x, m) <==>
            exists xs, ms :: && AreHops(path.route, xs, ms) && xs[0] == x && ms[0] == m
                             && payout == xs[|path.route|] * path.finalRatio && after == ms[|path.route|]
  {
    var xs, ms := HopsExist(path.route, x, m);
    RouteIff(path.route, x, m, xs, ms);
    if xs', ms' :| && AreHops(path.route, xs', ms') && xs'[0] == x && ms'[0] == m
                   && payout == xs'[|path.route|] * path.finalRatio && after == ms'[|path.route|] {
      RouteIff(path.route, x, m, xs', ms');
    }
  }

  // ---- what every run of sales keeps ----

  datatype Sale = Sale(path: Path, amount: nat)

  /** The reserves after any sequence of sales, in any direction, over one shared map. */
  function Run(sales: seq<Sale>, m: Reserves): Reserves {
    if sales == [] then m else Run(sales[1..], PathOut(sales[0].path, sales[0].amount, m).1)
  }

  /** The exact payouts of a run. */
  function Payouts(sales: seq<Sale>, m: Reserves): seq<nat> {
    if sales == [] then []
    else
      var (payout, m') := PathOut(sales[0].path, sales[0].amount, m);
      [payout] + Payouts(sales[1..], m')
  }

  /** All contexts of the same pair start from the same reserves. */
  ghost predicate Consistent(route: seq<Pair>, start: Address -> (nat, nat)) {
    forall i :: 0 <= i < |route| ==> route[i].initial == start(route[i].address)
  }

  ghost predicate ConsistentRun(sales: seq<Sale>, start: Address -> (nat, nat)) {
    forall i :: 0 <= i < |sales| ==> Consistent(sales[i].path.route, start)
  }

  ghost function Current(m: Reserves, start: Address -> (nat, nat), a: Address): (nat, nat) {
    if a in m then m[a] else start(a)
  }

  ghost predicate ProductKept(r: (nat, nat), r': (nat, nat)) { r.0 * r.1 <= r'.0 * r'.1 }

  lemma HopKeepsProducts(p: Pair, x: nat, m: Reserves, start: Address -> (nat, nat), a: Address)
    requires p.initial == start(p.address)
    ensures ProductKept(Current(m, start, a), Current(Hop(p, x, m), start, a))
  {
    var r := ReservesOf(p, m);
    ProductNeverShrinks(p.fee, Clamp(x), SellSide(p, r), BuySide(p, r));
    if a == p.address && p.side != 0 {
      var s := PairOut(p, x, r);
      assert r.0 * r.1 == r.1 * r.0 && s.newReserveIn * s.newReserveOut == s.newReserveOut * s.newReserveIn;
    }
  }

  lemma {:induction false} RouteKeepsProducts(route: seq<Pair>, x: nat, m: Reserves, start: Address -> (nat, nat),
      a: Address)
    requires Consistent(route, start)
    ensures ProductKept(Current(m, start, a), Current(RouteOut(route, x, m).1, start, a))
  {
    if route != [] {
      var p := route[0];
      HopKeepsProducts(p, x, m, start, a);
      RouteKeepsProducts(route[1..], PairOut(p, x, ReservesOf(p, m)).amount, Hop(p, x, m), start, a);
    }
  }

  /** Over any run, no pair's reserve product ever shrinks. */
  lemma {:induction false} RunKeepsProducts(sales: seq<Sale>, m: Reserves, start: Address -> (nat, nat), a: Address)
    requires ConsistentRun(sales, start)
    ensures ProductKept(Current(m, start, a), Current(Run(sales, m), start, a))
  {
    if sales != [] {
      RouteKeepsProducts(sales[0].path.route, sales[0].amount, m, start, a);
      RunKeepsProducts(sales[1..], PathOut(sales[0].path, sales[0].amount, m).1, start, a);
    }
  }

  /** Nothing is won by going round: when one reserve is back where it was, the other has not shrunk. */
  lemma NoFreeReserve(sales: seq<Sale>, m: Reserves, start: Address -> (nat, nat), a: Address)
    requires ConsistentRun(sales, start)
    ensures var r, r' := Current(m, start, a), Current(Run(sales, m), start, a);
            && (r'.0 == r.0 > 0 ==> r.1 <= r'.1)
            && (r'.1 == r.1 > 0 ==> r.0 <= r'.0)
  {
    RunKeepsProducts(sales, m, start, a);
    var r, r' := Current(m, start, a), Current(Run(sales, m), start, a);
    if r'.0 == r.0 > 0 {
      assert r.1 * r.0 == r.0 * r.1 && r'.1 * r.0 == r'.0 * r'.1;
      MulCancel(r.1, r'.1, r.0);
    }
    if r'.1 == r.1 > 0 {
      MulCancel(r.0, r'.0, r.1);
    }
  }

  // ---- buying quotes along a route ----

  /** The reserve from which a purchase through `p` is served, and the one it is paid into. */
  function Bought(p: Pair, m: Reserves): nat { SellSide(p, ReservesOf(p, m)) }

  function PaidInto(p: Pair, m: Reserves): nat { BuySide(p, ReservesOf(p, m)) }

  /** `PairContext::get_amount_in`. */
  function PairIn(p: Pair, y: nat, m: Reserves): nat
    requires Bought(p, m) > 0 || y == 0
  {
    CalculateAmountsIn(p.fee, Clamp(y), PaidInto(p, m), Bought(p, m)).amount
  }

  /** No hop asks anything of an empty reserve, which would underflow. */
  predicate Priceable(pairs: seq<Pair>, y: nat, m: Reserves) {
    pairs != [] ==>
      && (Bought(pairs[0], m) > 0 || y == 0)
      && Priceable(pairs[1..], PairIn(pairs[0], y, m), m)
  }

  function Quote(pairs: seq<Pair>, y: nat, m: Reserves): nat
    requires Priceable(pairs, y, m)
  {
    if pairs == [] then y else Quote(pairs[1..], PairIn(pairs[0], y, m), m)
  }

  /** The hops a purchase is priced through: the route, then the final pegged pair if there is one. */
  function QuotedPairs(path: Path): seq<Pair> {
    path.route + if path.finalPair.Some? then [path.finalPair.value] else []
  }

  /** The amount a purchase of `percentage` thousandths of the first reserve starts from. */
  function Requested(path: Path, percentage: nat, m: Reserves): nat
    requires path.route != []
  {
    Bought(path.route[0], m) * percentage / 1000
  }

  /** The quote, or `None` where a subtraction underflows. */
  function Priced(pairs: seq<Pair>, y: nat, m: Reserves): Option<nat> {
    if Priceable(pairs, y, m) then Some(Quote(pairs, y, m)) else None
  }

  lemma PricedNext(pairs: seq<Pair>, y: nat, m: Reserves)
    requires pairs != []
    ensures Priced(pairs, y, m) ==
            if Bought(pairs[0], m) > 0 || y == 0 then Priced(pairs[1..], PairIn(pairs[0], y, m), m) else None
  {}

  /** `process_pair!`. */
  method ProcessPair(p: Pair, y: nat, reserves: Reserves) returns (amount: Option<nat>)
    ensures amount == if Bought(p, reserves) > 0 || y == 0 then Some(PairIn(p, y, reserves)) else None
  {
    if Bought(p, reserves) == 0 && y > 0 {
      return None;
    }
    amount := Some(PairIn(p, y, reserves));
  }

  /** `PathContext::get_amount_in`; `None` for an empty route, and where a subtraction underflows. */
  method GetAmountIn(path: Path, percentage: nat, reserves: Reserves) returns (amount: Option<nat>)
    ensures amount == if path.route == [] then None
                      else Priced(QuotedPairs(path), Requested(path, percentage, reserves), reserves)
  {
    if path.route == [] {
      return None;
    }
    ghost var pairs, whole := QuotedPairs(path),
        Priced(QuotedPairs(path), Requested(path, percentage, reserves), reserves);
    var y := Requested(path, percentage, reserves);
    assert pairs[0..] == pairs;
    for i := 0 to |path.route|
      invariant Priced(pairs[i..], y, reserves) == whole
    {
      assert pairs[i..][0] == path.route[i] && pairs[i..][1..] == pairs[i + 1..];
      PricedNext(pairs[i..], y, reserves);
      var next := ProcessPair(path.route[i], y, reserves);
      if next.None? {
        return None;
      }
      y := next.value;
    }
    amount := Some(y);
    ghost var rest := pairs[|path.route|..];
    assert rest == if path.finalPair.Some? then [path.finalPair.value] else [];
    if path.finalPair.Some? {
      PricedNext(rest, y, reserves);
      assert rest[1..] == [];
      amount := ProcessPair(path.finalPair.value, y, reserves);
    }
  }

  // ---- the prices of a route, one by one ----

  /**
   * `z` is what buying `y` through `p` costs: the price in the pool against the direction of its side,
   * for at most 128 bits.
   */
  ghost predicate IsCost(p: Pair, y: nat, m: Reserves, z: nat) {
    var r := if p.address in m then m[p.address] else p.initial;
    var asked := if y > 0xFFFF_FFFF_FFFF_FFFF_FFFF_FFFF_FFFF_FFFF then 0xFFFF_FFFF_FFFF_FFFF_FFFF_FFFF_FFFF_FFFF
                 else y;
    var (paidInto, bought) := if p.side == 0 then (r.1, r.0) else (r.0, r.1);
    && (bought > 0 || asked == 0)
    && exists q :: IsPrice(p.fee, asked, paidInto, bought, q) && q.amount == z
  }

  lemma CostIff(p: Pair, y: nat, m: Reserves, z: nat)
    ensures IsCost(p, y, m, z) <==> (Bought(p, m) > 0 || y == 0) && z == PairIn(p, y, m)
  {
    if Bought(p, m) > 0 || y == 0 {
      var q := CalculateAmountsIn(p.fee, Clamp(y), PaidInto(p, m), Bought(p, m));
      PriceIff(p.fee, Clamp(y), PaidInto(p, m), Bought(p, m), q);
      if q' :| IsPrice(p.fee, Clamp(y), PaidInto(p, m), Bought(p, m), q') && q'.amount == z {
        PriceIff(p.fee, Clamp(y), PaidInto(p, m), Bought(p, m), q');
      }
    }
  }

  /** The requests `ys` along a route: the first, and what each hop costs of the next. */
  ghost predicate AreCosts(pairs: seq<Pair>, ys: seq<nat>, m: Reserves) {
    |ys| == |pairs| + 1 && forall i :: 0 <= i < |pairs| ==> IsCost(pairs[i], ys[i], m, ys[i + 1])
  }

  lemma {:induction false} CostsArePriced(pairs: seq<Pair>, ys: seq<nat>, m: Reserves)
    requires AreCosts(pairs, ys, m)
    ensures Priced(pairs, ys[0], m) == Some(ys[|pairs|])
    decreases |pairs|
  {
    if pairs != [] {
      CostIff(pairs[0], ys[0], m, ys[1]);
      forall i | 0 <= i < |pairs| - 1 ensures IsCost(pairs[1..][i], ys[1..][i], m, ys[1..][i + 1]) {
        assert IsCost(pairs[i + 1], ys[i + 1], m, ys[i + 2]);
      }
      CostsArePriced(pairs[1..], ys[1..], m);
      PricedNext(pairs, ys[0], m);
    }
  }

  lemma {:induction false} CostsExist(pairs: seq<Pair>, y: nat, m: Reserves) returns (ys: seq<nat>)
    requires Priced(pairs, y, m).Some?
    ensures AreCosts(pairs, ys, m) && ys[0] == y
    decreases |pairs|
  {
    ys := [y];
    if pairs != [] {
      PricedNext(pairs, y, m);
      CostIff(pairs[0], y, m, PairIn(pairs[0], y, m));
      var zs := CostsExist(pairs[1..], PairIn(pairs[0], y, m), m);
      ys := [y] + zs;
      forall i | 0 <= i < |pairs| ensures IsCost(pairs[i], ys[i], m, ys[i + 1]) {
        if i > 0 {
          assert IsCost(pairs[1..][i - 1], zs[i - 1], m, zs[i - 1 + 1]);
        }
      }
    }
  }

  /** The request is `percentage` thousandths, rounded down, of the reserve that the first pair sells. */
  lemma RequestedIs(path: Path, percentage: nat, m: Reserves)
    requires path.route != []
    ensures var p := path.route[0];
            var r := if p.address in m then m[p.address] else p.initial;
            IsFloor(Requested(path, percentage, m), (if p.side == 0 then r.0 else r.1) * percentage, 1000)
  {
    NatProduct(Bought(path.route[0], m), percentage);
    DivBound(Bought(path.route[0], m) * percentage, 1000);
  }

  /** The amount a path asks for is the end of its costs, from that request on. */
  lemma AmountInIff(path: Path, percentage: nat, m: Reserves, amount: nat)
    requires path.route != []
    ensures Priced(QuotedPairs(path), Requested(path, percentage, m), m) == Some(amount) <==>
            exists ys :: AreCosts(path.route + if path.finalPair.Some? then [path.finalPair.value] else [], ys, m)
                         && ys[0] == Requested(path, percentage, m) && ys[|ys| - 1] == amount
  {
    var pairs, y := QuotedPairs(path), Requested(path, percentage, m);
    if Priced(pairs, y, m).Some? {
      var ys := CostsExist(pairs, y, m);
      CostsArePriced(pairs, ys, m);
    }
    if ys :| AreCosts(pairs, ys, m) && ys[0] == y && ys[|ys| - 1] == amount {
      CostsArePriced(pairs, ys, m);
    }
  }

  function Flip(p: Pair): Pair { p.(side := if p.side == 0 then 1 else 0) }

  /** The way back: reversed order, opposite sides. */
  function WayBack(pairs: seq<Pair>): seq<Pair> {
    if pairs == [] then [] else WayBack(pairs[1..]) + [Flip(pairs[0])]
  }

  ghost predicate DistinctPairs(pairs: seq<Pair>) {
    forall i, j :: 0 <= i < j < |pairs| ==> pairs[i].address != pairs[j].address
  }

  /** Each requested amount is below the reserve bought, and every amount fits in 128 bits. */
  ghost predicate Coverable(pairs: seq<Pair>, y: nat, m: Reserves) {
    && y <= U128_MAX
    && (pairs != [] ==>
          && pairs[0].fee < SCALE && y < Bought(pairs[0], m)
          && Coverable(pairs[1..], PairIn(pairs[0], y, m), m))
  }

  lemma {:induction false} CoverablePriceable(pairs: seq<Pair>, y: nat, m: Reserves)
    requires Coverable(pairs, y, m)
    ensures Priceable(pairs, y, m)
  {
    if pairs != [] {
      CoverablePriceable(pairs[1..], PairIn(pairs[0], y, m), m);
    }
  }

  lemma {:induction false} RouteAppend(a: seq<Pair>, p: Pair, x: nat, m: Reserves)
    ensures RouteOut(a + [p], x, m) ==
            var (z, m') := RouteOut(a, x, m);
            (PairOut(p, z, ReservesOf(p, m')).amount, Hop(p, z, m'))
  {
    if a == [] {
      assert (a + [p])[1..] == [];
    } else {
      assert (a + [p])[1..] == a[1..] + [p];
      RouteAppend(a[1..], p, PairOut(a[0], x, ReservesOf(a[0], m)).amount, Hop(a[0], x, m));
    }
  }

  /** A route leaves every other pair alone. */
  lemma {:induction false} RouteFrame(route: seq<Pair>, x: nat, m: Reserves, p: Pair)
    requires forall i :: 0 <= i < |route| ==> route[i].address != p.address
    ensures ReservesOf(p, RouteOut(route, x, m).1) == ReservesOf(p, m)
  {
    if route != [] {
      RouteFrame(route[1..], PairOut(route[0], x, ReservesOf(route[0], m)).amount, Hop(route[0], x, m), p);
    }
  }

  lemma {:induction false} WayBackAddresses(pairs: seq<Pair>, a: Address)
    requires forall i :: 0 <= i < |pairs| ==> pairs[i].address != a
    ensures forall i :: 0 <= i < |WayBack(pairs)| ==> WayBack(pairs)[i].address != a
  {
    if pairs != [] {
      WayBackAddresses(pairs[1..], a);
    }
  }

  /** Paying the quoted amount into the flipped pair buys the request. */
  lemma HopBack(p: Pair, y: nat, z: nat, m: Reserves)
    requires p.fee < SCALE && y < Bought(p, m) && y <= U128_MAX
    requires PairIn(p, y, m) <= U128_MAX && PairIn(p, y, m) <= z
    ensures y <= PairOut(Flip(p), z, ReservesOf(Flip(p), m)).amount
  {
    var q := PairIn(p, y, m);
    QuoteSuffices(p.fee, y, PaidInto(p, m), Bought(p, m));
    OutMonotone(p.fee, q, Clamp(z), PaidInto(p, m), Bought(p, m));
  }

  /** The quote for a whole route, sent back through the reversed and flipped route, returns at least the request. */
  lemma {:induction false} RouteQuoteSuffices(pairs: seq<Pair>, y: nat, m: Reserves)
    requires DistinctPairs(pairs) && Coverable(pairs, y, m)
    ensures Priceable(pairs, y, m)
    ensures y <= RouteOut(WayBack(pairs), Quote(pairs, y, m), m).0
  {
    CoverablePriceable(pairs, y, m);
    if pairs != [] {
      var p, rest := pairs[0], pairs[1..];
      var q := PairIn(p, y, m);
      RouteQuoteSuffices(rest, q, m);
      var x := Quote(pairs, y, m);
      WayBackAddresses(rest, p.address);
      RouteFrame(WayBack(rest), x, m, Flip(p));
      RouteAppend(WayBack(rest), Flip(p), x, m);
      HopBack(p, y, RouteOut(WayBack(rest), x, m).0, m);
    }
  }
}
