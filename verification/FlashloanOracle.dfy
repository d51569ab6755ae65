/** The flashloan oracle's accounting of gained, liquidated and unliquidated tokens, in wrapping arithmetic. */
module FlashloanOracle {
  import Words
  import opened UniswapPaths
  import opened Liquidation
  import opened UniswapWidth

  type TokenId = nat

  /** How many values a register has: `TWO256` in the program. What follows holds for any size. */
  type Size = n: nat | n > 0 witness TWO256

  /** The tenths of an amount that are liquidated, computed in registers of `size` values. */
  datatype Rate = Rate(tenths: nat, size: Size)

  /** One entry of the balance producer: a caller's balance of a token before and after. */
  datatype Balance = Balance(token: TokenId, before: nat, after: nat)

  type Amounts = map<TokenId, nat>

  function AmountOf(m: Amounts, t: TokenId): nat { if t in m then m[t] else 0 }

  /** The part of `x` that is liquidated. */
  function Part(x: nat, r: Rate): nat { Wrap(x * r.tenths, r.size) / 10 }

  function Rest(x: nat, r: Rate): nat { Wrap(x - Part(x, r), r.size) }

  function Gain(b: Balance): nat { if b.before < b.after then b.after - b.before else 0 }

  /** What one entry leaves unliquidated. */
  function Kept(b: Balance, r: Rate): nat { Rest(Gain(b), r) }

  // ---- equality up to wrap-around ----

  predicate Same(size: Size, x: int, y: int) { Wrap(x, size) == Wrap(y, size) }

  lemma Distance(size: Size, x: int, y: int) returns (k: int)
    requires Same(size, x, y)
    ensures x == y + k * size
  {
    k := x / size - y / size;
    assert x == x / size * size + x % size && y == y / size * size + y % size;
  }

  lemma Apart(size: Size, x: int, y: int, k: int)
    requires x == y + k * size
    ensures Same(size, x, y)
  {
    var d := x / size - y / size - k;
    assert x == x / size * size + x % size && y == y / size * size + y % size;
    assert d * size == y % size - x % size;
    Words.MultipleGrows(size, d);
  }

  lemma SameSum(size: Size, a: int, b: int, c: int, d: int)
    requires Same(size, a, b) && Same(size, c, d)
    ensures Same(size, a + c, b + d)
  {
    var j := Distance(size, a, b);
    var k := Distance(size, c, d);
    Apart(size, a + c, b + d, j + k);
  }

  lemma SameCancel(size: Size, a: int, b: int, c: int)
    requires Same(size, a, b + c)
    ensures Same(size, a, b) <==> Same(size, c, 0)
  {
    if Same(size, c, 0) {
      SameSum(size, b, b, c, 0);
    }
    if Same(size, a, b) {
      SameSum(size, b + c, b, -b, -b);
    }
  }

  lemma WrapSame(size: Size, x: int)
    ensures Same(size, Wrap(x, size), x)
  {
    Apart(size, Wrap(x, size), x, -(x / size));
  }

  /** As many tenths of `x` as the percentage says, rounded down, of what the register keeps of the product. */
  lemma PartIsFloor(x: nat, r: Rate)
    ensures 10 * Part(x, r) <= x * r.tenths % r.size < 10 * Part(x, r) + 10
  {}

  lemma RestSame(x: nat, r: Rate)
    ensures Same(r.size, Part(x, r) + Rest(x, r), x)
  {
    var p := Part(x, r);
    WrapSame(r.size, x - p);
    SameSum(r.size, Wrap(x - p, r.size), x - p, p, p);
  }

  // ---- totals per token over a list of balances ----

  function Gained(bs: seq<Balance>, t: TokenId): nat {
    if bs == [] then 0
    else Gained(bs[..|bs| - 1], t) + if bs[|bs| - 1].token == t then Gain(bs[|bs| - 1]) else 0
  }

  /** What the balances have lost of `t`. */
  function Debt(bs: seq<Balance>, t: TokenId): nat {
    if bs == [] then 0
    else
      var b := bs[|bs| - 1];
      Debt(bs[..|bs| - 1], t) + if b.token == t && b.before > b.after then b.before - b.after else 0
  }

  /** What happened to the balances of `t` altogether. */
  function Net(bs: seq<Balance>, t: TokenId): int {
    if bs == [] then 0
    else Net(bs[1..], t) + if bs[0].token == t then bs[0].after - bs[0].before else 0
  }

  lemma {:induction false} NetAppend(a: seq<Balance>, b: seq<Balance>, t: TokenId)
    ensures Net(a + b, t) == Net(a, t) + Net(b, t)
  {
    if a == [] {
      assert a + b == b;
    } else {
      assert (a + b)[1..] == a[1..] + b;
      NetAppend(a[1..], b, t);
    }
  }

  lemma NetOne(b: Balance, t: TokenId)
    ensures Net([b], t) == if b.token == t then b.after - b.before else 0
  {
    assert [b][1..] == [];
  }

  /** Gains and debts are what the balances rose and fell by; no entry is both. */
  lemma {:induction false} GainsLessDebts(bs: seq<Balance>, t: TokenId)
    ensures Gained(bs, t) - Debt(bs, t) == Net(bs, t)
  {
    if bs != [] {
      var init, last := bs[..|bs| - 1], bs[|bs| - 1];
      GainsLessDebts(init, t);
      assert bs == init + [last];
      NetAppend(init, [last], t);
      NetOne(last, t);
    }
  }

  lemma EntryGainsOrOwes(b: Balance)
    ensures Gained([b], b.token) == (if b.before < b.after then b.after - b.before else 0)
    ensures Debt([b], b.token) == (if b.before > b.after then b.before - b.after else 0)
  {
    assert [b][..0] == [];
  }

  function KeptOf(bs: seq<Balance>, r: Rate, t: TokenId): nat {
    if bs == [] then 0
    else KeptOf(bs[..|bs| - 1], r, t) + if bs[|bs| - 1].token == t then Kept(bs[|bs| - 1], r) else 0
  }

  function SentGains(bs: seq<Balance>, r: Rate, t: TokenId): nat {
    if bs == [] then 0
    else SentGains(bs[..|bs| - 1], r, t) + if bs[|bs| - 1].token == t then Part(Gain(bs[|bs| - 1]), r) else 0
  }

  /** The amount of `t` in a list handed to the liquidation. */
  function Listed(xs: seq<(TokenId, nat)>, t: TokenId): nat {
    if xs == [] then 0
    else Listed(xs[..|xs| - 1], t) + if xs[|xs| - 1].0 == t then xs[|xs| - 1].1 else 0
  }

  lemma ListedSnoc(xs: seq<(TokenId, nat)>, id: TokenId, x: nat, t: TokenId)
    ensures Listed(xs + [(id, x)], t) == Listed(xs, t) + if id == t then x else 0
  {
    assert (xs + [(id, x)])[..|xs|] == xs;
  }

  // ---- what one call does to the unliquidated amounts ----

  /** `m` with `x` more of `t`. */
  function Plus(m: Amounts, t: TokenId, x: nat, size: Size): Amounts {
    if x > 0 then m[t := Wrap(AmountOf(m, t) + x, size)] else m
  }

  /** The map after the gains have been added. */
  function AfterGains(m: Amounts, bs: seq<Balance>, r: Rate): Amounts {
    if bs == [] then m
    else Plus(AfterGains(m, bs[..|bs| - 1], r), bs[|bs| - 1].token, Kept(bs[|bs| - 1], r), r.size)
  }

  /** Then each token held at the start is written back without its liquidated part, if that part is not zero. */
  function AfterCall(m: Amounts, bs: seq<Balance>, r: Rate): Amounts {
    var g := AfterGains(m, bs, r);
    map t | t in g.Keys + m.Keys :: if t in m && Part(m[t], r) > 0 then Rest(m[t], r) else AmountOf(g, t)
  }

  /** The write-back ignores what the same call has just added: that much of `t` is lost. */
  function Lost(m: Amounts, bs: seq<Balance>, r: Rate, t: TokenId): nat {
    if Part(AmountOf(m, t), r) > 0 then KeptOf(bs, r, t) else 0
  }

  /** All of `t` that the call hands to the liquidation. */
  function Sent(m: Amounts, bs: seq<Balance>, r: Rate, t: TokenId): nat {
    SentGains(bs, r, t) + Part(AmountOf(m, t), r)
  }

  lemma {:induction false} GainsSplit(bs: seq<Balance>, r: Rate, t: TokenId)
    ensures Same(r.size, SentGains(bs, r, t) + KeptOf(bs, r, t), Gained(bs, t))
  {
    if bs != [] {
      var init, x := bs[..|bs| - 1], Gain(bs[|bs| - 1]);
      GainsSplit(init, r, t);
      RestSame(x, r);
      SameSum(r.size, SentGains(init, r, t) + KeptOf(init, r, t), Gained(init, t), Part(x, r) + Rest(x, r), x);
    }
  }

  lemma PlusAdds(m: Amounts, id: TokenId, x: nat, size: Size, t: TokenId)
    ensures Same(size, AmountOf(Plus(m, id, x, size), t), AmountOf(m, t) + if id == t then x else 0)
  {
    WrapSame(size, AmountOf(m, t) + x);
  }

  lemma {:induction false} GainsAdded(m: Amounts, bs: seq<Balance>, r: Rate, t: TokenId)
    ensures Same(r.size, AmountOf(AfterGains(m, bs, r), t), AmountOf(m, t) + KeptOf(bs, r, t))
  {
    if bs != [] {
      var init, b := bs[..|bs| - 1], bs[|bs| - 1];
      var more := if b.token == t then Kept(b, r) else 0;
      GainsAdded(m, init, r, t);
      PlusAdds(AfterGains(m, init, r), b.token, Kept(b, r), r.size, t);
      SameSum(r.size, AmountOf(AfterGains(m, init, r), t), AmountOf(m, t) + KeptOf(init, r, t), more, more);
    }
  }

  lemma {:induction false} GainsKeepKeys(m: Amounts, bs: seq<Balance>, r: Rate)
    ensures m.Keys <= AfterGains(m, bs, r).Keys
  {
    if bs != [] {
      GainsKeepKeys(m, bs[..|bs| - 1], r);
    }
  }

  /** What is left of `t` after a call. */
  lemma AfterCallAt(m: Amounts, bs: seq<Balance>, r: Rate, t: TokenId)
    ensures AmountOf(AfterCall(m, bs, r), t) ==
            if Part(AmountOf(m, t), r) > 0 then Rest(AmountOf(m, t), r) else AmountOf(AfterGains(m, bs, r), t)
  {
    NoneOfNothing(r);
  }

  lemma NoneOfNothing(r: Rate)
    ensures Part(0, r) == 0 && Rest(0, r) == 0
  {}

  /** The balance of one call, for every percentage: gains are sent, kept, or lost by the write-back. */
  lemma CallBalance(m: Amounts, bs: seq<Balance>, r: Rate, t: TokenId)
    ensures Same(r.size, AmountOf(m, t) + Gained(bs, t),
              Sent(m, bs, r, t) + AmountOf(AfterCall(m, bs, r), t) + Lost(m, bs, r, t))
  {
    var held := AmountOf(m, t);
    var sent, kept := SentGains(bs, r, t), KeptOf(bs, r, t);
    GainsSplit(bs, r, t);
    AfterCallAt(m, bs, r, t);
    if Part(held, r) > 0 {
      RestSame(held, r);
      SameSum(r.size, sent + kept, Gained(bs, t), Part(held, r) + Rest(held, r), held);
    } else {
      GainsAdded(m, bs, r, t);
      SameSum(r.size, AmountOf(AfterGains(m, bs, r), t), held + kept, sent, sent);
      SameSum(r.size, sent + kept, Gained(bs, t), held, held);
    }
  }

  /** A call conserves `t` iff it does not both write `t` back and keep a new gain of it. */
  lemma ConservedIff(m: Amounts, bs: seq<Balance>, r: Rate, t: TokenId)
    ensures Same(r.size, AmountOf(m, t) + Gained(bs, t), Sent(m, bs, r, t) + AmountOf(AfterCall(m, bs, r), t))
       <==> Part(AmountOf(m, t), r) == 0 || Same(r.size, KeptOf(bs, r, t), 0)
  {
    CallBalance(m, bs, r, t);
    SameCancel(r.size, AmountOf(m, t) + Gained(bs, t), Sent(m, bs, r, t) + AmountOf(AfterCall(m, bs, r), t),
      Lost(m, bs, r, t));
  }

  // ---- small amounts ----

  lemma PartExact(x: nat, r: Rate)
    requires r.tenths <= 10 && 10 * x < r.size
    ensures Part(x, r) == x * r.tenths / 10 <= x && Rest(x, r) == x - x * r.tenths / 10
  {
    assert x * r.tenths <= x * 10;
    WrapId(x * r.tenths, r.size);
    WrapId(x - x * r.tenths / 10, r.size);
  }

  lemma {:induction false} GainsExact(m: Amounts, bs: seq<Balance>, r: Rate, t: TokenId)
    requires r.tenths <= 10 && 10 * (AmountOf(m, t) + Gained(bs, t)) < r.size
    ensures SentGains(bs, r, t) + KeptOf(bs, r, t) == Gained(bs, t)
    ensures AmountOf(AfterGains(m, bs, r), t) == AmountOf(m, t) + KeptOf(bs, r, t)
  {
    if bs != [] {
      var b, prev := bs[|bs| - 1], AfterGains(m, bs[..|bs| - 1], r);
      GainsExact(m, bs[..|bs| - 1], r, t);
      if b.token == t {
        PartExact(Gain(b), r);
        WrapId(AmountOf(prev, t) + Kept(b, r), r.size);
      }
    }
  }

  /** Nothing wraps as long as ten times what is held and gained fits: the balance is one of plain numbers. */
  lemma ExactBalance(m: Amounts, bs: seq<Balance>, r: Rate, t: TokenId)
    requires r.tenths <= 10 && 10 * (AmountOf(m, t) + Gained(bs, t)) < r.size
    ensures AmountOf(m, t) + Gained(bs, t) == Sent(m, bs, r, t) + AmountOf(AfterCall(m, bs, r), t) + Lost(m, bs, r, t)
  {
    GainsExact(m, bs, r, t);
    AfterCallAt(m, bs, r, t);
    PartExact(AmountOf(m, t), r);
  }

  lemma {:induction false} NothingKeptAtTen(bs: seq<Balance>, r: Rate, t: TokenId)
    requires r.tenths == 10 && 10 * Gained(bs, t) < r.size
    ensures KeptOf(bs, r, t) == 0
  {
    if bs != [] {
      NothingKeptAtTen(bs[..|bs| - 1], r, t);
      if bs[|bs| - 1].token == t {
        PartExact(Gain(bs[|bs| - 1]), r);
      }
    }
  }

  // ---- two calls ----

  lemma OneBalance(b: Balance, r: Rate)
    ensures KeptOf([b], r, b.token) == Kept(b, r) && SentGains([b], r, b.token) == Part(Gain(b), r)
    ensures AfterGains(map[], [b], r) == Plus(map[], b.token, Kept(b, r), r.size)
  {
    assert [b][..0] == [];
  }

  /** At five tenths, ten tokens held and ten gained: five of the gain vanish. */
  lemma HalfwayLoses(size: Size)
    requires size > 100
    ensures var m, bs, r := map[7 := 10], [Balance(7, 0, 10)], Rate(5, size);
            Lost(m, bs, r, 7) == 5 && AfterCall(m, bs, r)[7] == 5
  {
    PartExact(10, Rate(5, size));
    OneBalance(Balance(7, 0, 10), Rate(5, size));
  }

  /** At twenty tenths a gain of ten sends twenty, and what is held wraps below zero. */
  lemma DoubleSent(size: Size)
    requires size > 200
    ensures var bs, r := [Balance(7, 0, 10)], Rate(20, size);
            Sent(map[], bs, r, 7) == 20 && AfterCall(map[], bs, r) == map[7 := size - 10]
  {
    var r := Rate(20, size);
    WrapId(200, size);
    NoneOfNothing(r);
    OneBalance(Balance(7, 0, 10), r);
    Apart(size, -10, size - 10, -1);
    WrapId(size - 10, size);
  }

  // ---- runs of calls ----

  datatype Call = Call(balances: seq<Balance>, rate: Rate)

  /** What a run gains, owes, sends and loses of one token, and the amounts it leaves. */
  datatype Ledger = Ledger(gained: nat, due: nat, sent: nat, lost: nat, left: Amounts)

  function Run(m: Amounts, calls: seq<Call>, t: TokenId): Ledger
    decreases |calls|
  {
    if calls == [] then Ledger(0, 0, 0, 0, m)
    else
      var c := calls[0];
      var l := Run(AfterCall(m, c.balances, c.rate), calls[1..], t);
      Ledger(Gained(c.balances, t) + l.gained, Debt(c.balances, t) + l.due, Sent(m, c.balances, c.rate, t) + l.sent,
             Lost(m, c.balances, c.rate, t) + l.lost, l.left)
  }

  /** All balance entries of a run. */
  function Entries(calls: seq<Call>): seq<Balance> {
    if calls == [] then [] else calls[0].balances + Entries(calls[1..])
  }

  lemma {:induction false} RunGainsLessDebts(m: Amounts, calls: seq<Call>, t: TokenId)
    ensures var l := Run(m, calls, t); l.gained - l.due == Net(Entries(calls), t)
    decreases |calls|
  {
    if calls != [] {
      var c := calls[0];
      RunGainsLessDebts(AfterCall(m, c.balances, c.rate), calls[1..], t);
      GainsLessDebts(c.balances, t);
      NetAppend(c.balances, Entries(calls[1..]), t);
    }
  }

  /**
   * Over any run, whatever the percentages, up to wrap-around: what is still held is what was held, and
   * what the balances changed by, and what is owed for them, less what was sent and what was lost.
   */
  lemma RunBalance(m: Amounts, calls: seq<Call>, size: Size, t: TokenId)
    requires forall i :: 0 <= i < |calls| ==> calls[i].rate.size == size
    ensures var l := Run(m, calls, t);
            Same(size, AmountOf(m, t) + Net(Entries(calls), t) + l.due, l.sent + AmountOf(l.left, t) + l.lost)
  {
    var l := Run(m, calls, t);
    var k := RunDistance(m, calls, size, t);
    RunGainsLessDebts(m, calls, t);
    Apart(size, AmountOf(m, t) + Net(Entries(calls), t) + l.due, l.sent + AmountOf(l.left, t) + l.lost, k);
  }

  /** All that was gained was sent, is still held, or was lost. */
  lemma {:induction false} RunDistance(m: Amounts, calls: seq<Call>, size: Size, t: TokenId) returns (k: int)
    requires forall i :: 0 <= i < |calls| ==> calls[i].rate.size == size
    ensures var l := Run(m, calls, t); AmountOf(m, t) + l.gained == l.sent + AmountOf(l.left, t) + l.lost + k * size
    decreases |calls|
  {
    k := 0;
    if calls != [] {
      var c := calls[0];
      var j := CallDistance(m, c.balances, c.rate, t);
      k := RunDistance(AfterCall(m, c.balances, c.rate), calls[1..], size, t);
      assert (j + k) * size == j * size + k * size;
      k := j + k;
    }
  }

  lemma CallDistance(m: Amounts, bs: seq<Balance>, r: Rate, t: TokenId) returns (k: int)
    ensures AmountOf(m, t) + Gained(bs, t)
         == Sent(m, bs, r, t) + AmountOf(AfterCall(m, bs, r), t) + Lost(m, bs, r, t) + k * r.size
  {
    CallBalance(m, bs, r, t);
    k := Distance(r.size, AmountOf(m, t) + Gained(bs, t),
      Sent(m, bs, r, t) + AmountOf(AfterCall(m, bs, r), t) + Lost(m, bs, r, t));
  }

  /**
   * Over any run with the percentages the mutator sets, as long as ten times all that is held and
   * gained fits: what was held and what the balances changed by is what was sent, less what is owed,
   * and what is still held.
   */
  lemma RunConserves(m: Amounts, calls: seq<Call>, size: Size, t: TokenId)
    requires forall i :: 0 <= i < |calls| ==> calls[i].rate == Rate(0, size) || calls[i].rate == Rate(10, size)
    requires 10 * (AmountOf(m, t) + Run(m, calls, t).gained) < size
    ensures var l := Run(m, calls, t);
            AmountOf(m, t) + Net(Entries(calls), t) == l.sent - l.due + AmountOf(l.left, t)
  {
    RunGainsLessDebts(m, calls, t);
    RunSendsGains(m, calls, size, t);
  }

  lemma {:induction false} RunSendsGains(m: Amounts, calls: seq<Call>, size: Size, t: TokenId)
    requires forall i :: 0 <= i < |calls| ==> calls[i].rate == Rate(0, size) || calls[i].rate == Rate(10, size)
    requires 10 * (AmountOf(m, t) + Run(m, calls, t).gained) < size
    ensures var l := Run(m, calls, t); AmountOf(m, t) + l.gained == l.sent + AmountOf(l.left, t)
    decreases |calls|
  {
    if calls != [] {
      var c := calls[0];
      CallConserves(m, c.balances, c.rate, t);
      RunSendsGains(AfterCall(m, c.balances, c.rate), calls[1..], size, t);
    }
  }

  lemma CallConserves(m: Amounts, bs: seq<Balance>, r: Rate, t: TokenId)
    requires (r.tenths == 0 || r.tenths == 10) && 10 * (AmountOf(m, t) + Gained(bs, t)) < r.size
    ensures AmountOf(m, t) + Gained(bs, t) == Sent(m, bs, r, t) + AmountOf(AfterCall(m, bs, r), t)
  {
    ExactBalance(m, bs, r, t);
    if r.tenths == 10 {
      NothingKeptAtTen(bs, r, t);
    } else {
      PartExact(AmountOf(m, t), r);
    }
  }

  /** A map with these keys and entries is the one after the call. */
  lemma WrittenBack(m: Amounts, bs: seq<Balance>, r: Rate, u: Amounts)
    requires WrittenUpTo(u, AfterGains(m, bs, r), m, {}, r)
    ensures u == AfterCall(m, bs, r)
  {
    GainsKeepKeys(m, bs, r);
  }

  /** What entry `i` adds to the totals and to the map. */
  lemma OneMore(m: Amounts, bs: seq<Balance>, r: Rate, i: nat)
    requires i < |bs|
    ensures AfterGains(m, bs[..i + 1], r) == Plus(AfterGains(m, bs[..i], r), bs[i].token, Kept(bs[i], r), r.size)
    ensures forall t :: SentGains(bs[..i + 1], r, t) ==
                        SentGains(bs[..i], r, t) + if bs[i].token == t then Part(Gain(bs[i]), r) else 0
    ensures forall t :: Debt(bs[..i + 1], t) ==
                        Debt(bs[..i], t) +
                        if bs[i].token == t && bs[i].before > bs[i].after then bs[i].before - bs[i].after else 0
  {
    assert bs[..i + 1][..i] == bs[..i];
  }

  // ---- the oracle itself ----

  function Holdings(xs: seq<(TokenId, nat)>, known: map<TokenId, Token>): seq<Holding>
    requires forall i :: 0 <= i < |xs| ==> xs[i].0 in known
  {
    seq(|xs|, i requires 0 <= i < |xs| => Holding(known[xs[i].0], xs[i].1))
  }

  ghost predicate AllKnown(xs: seq<(TokenId, nat)>, known: map<TokenId, Token>) {
    forall i :: 0 <= i < |xs| ==> xs[i].0 in known
  }

  /** `m` is `before` with what remains of each held amount, except the `todo`, written over it. */
  ghost predicate WrittenUpTo(m: Amounts, before: Amounts, held: Amounts, todo: set<TokenId>, r: Rate) {
    && (forall t :: t in m <==> t in before || (t in held && t !in todo && Part(held[t], r) > 0))
    && (forall t :: t in m ==>
          m[t] == if t in held && t !in todo && Part(held[t], r) > 0 then Rest(held[t], r) else before[t])
  }

  lemma WrittenNext(m: Amounts, before: Amounts, held: Amounts, todo: set<TokenId>, r: Rate, id: TokenId)
    requires WrittenUpTo(m, before, held, todo, r) && id in todo && id in held
    ensures var m' := if Part(held[id], r) == 0 then m else m[id := Rest(held[id], r)];
            WrittenUpTo(m', before, held, todo - {id}, r)
  {}

  /** `flashloan_data` of the execution result, updated in place by the oracle. */
  class FlashloanData {
    var prevReserves: Reserves
    var unliquidated: Amounts
    var earned: nat
    var owed: nat

    constructor ()
      ensures prevReserves == map[] && unliquidated == map[] && earned == 0 && owed == 0
    {
      prevReserves, unliquidated, earned, owed := map[], map[], 0, 0;
    }

    /** The loop over the balances: losses become debts, gains are split by the percentage. */
    method SettleBalances(balances: seq<Balance>, r: Rate, known: map<TokenId, Token>)
      returns (due: seq<(TokenId, nat)>, sent: seq<(TokenId, nat)>)
      requires forall i :: 0 <= i < |balances| ==> balances[i].token in known
      modifies this`unliquidated
      ensures unliquidated == AfterGains(old(unliquidated), balances, r)
      ensures AllKnown(due, known) && AllKnown(sent, known)
      ensures forall t :: Listed(sent, t) == SentGains(balances, r, t)
      ensures forall t :: Listed(due, t) == Debt(balances, t)
    {
      due, sent := [], [];
      for i := 0 to |balances|
        invariant unliquidated == AfterGains(old(unliquidated), balances[..i], r)
        invariant AllKnown(due, known) && AllKnown(sent, known)
        invariant forall t :: Listed(sent, t) == SentGains(balances[..i], r, t)
        invariant forall t :: Listed(due, t) == Debt(balances[..i], t)
      {
        var b := balances[i];
        OneMore(old(unliquidated), balances, r, i);
        NoneOfNothing(r);
        if b.before > b.after {
          forall t { ListedSnoc(due, b.token, b.before - b.after, t); }
          due := due + [(b.token, b.before - b.after)];
        } else if b.before < b.after {
          var gain := b.after - b.before;
          var toLiquidate, kept := Part(gain, r), Rest(gain, r);
          forall t { ListedSnoc(sent, b.token, toLiquidate, t); }
          if toLiquidate > 0 {
            sent := sent + [(b.token, toLiquidate)];
          }
          unliquidated := Plus(unliquidated, b.token, kept, r.size);
        }
      }
      assert balances[..|balances|] == balances;
    }

    /** The loop over the amounts held at the start: each writes its own entry back. */
    method LiquidateHeld(held: Amounts, r: Rate, known: map<TokenId, Token>, listed: seq<(TokenId, nat)>)
      returns (sent: seq<(TokenId, nat)>)
      requires held.Keys <= known.Keys && AllKnown(listed, known)
      modifies this`unliquidated
      ensures WrittenUpTo(unliquidated, old(unliquidated), held, {}, r)
      ensures AllKnown(sent, known)
      ensures forall t :: Listed(sent, t) == Listed(listed, t) + Part(AmountOf(held, t), r)
    {
      sent := listed;
      var todo := held.Keys;
      while todo != {}
        invariant todo <= held.Keys && AllKnown(sent, known)
        invariant WrittenUpTo(unliquidated, old(unliquidated), held, todo, r)
        invariant forall t :: Listed(sent, t) ==
                              Listed(listed, t) + if t in held && t !in todo then Part(held[t], r) else 0
        decreases |todo|
      {
        var id :| id in todo;
        WrittenNext(unliquidated, old(unliquidated), held, todo, r, id);
        todo := todo - {id};
        var liq := Part(held[id], r);
        forall t { ListedSnoc(sent, id, liq, t); }
        if liq != 0 {
          sent := sent + [(id, liq)];
          unliquidated := unliquidated[id := Rest(held[id], r)];
        }
      }
      NoneOfNothing(r);
    }

    /**
     * The whole oracle call. `due` and `sent` are the lists it hands to the liquidation search
     * and `valueDue`, `valueSent` what the search finds.
     */
    method Oracle(balances: seq<Balance>, r: Rate, known: map<TokenId, Token>, pairReserves: Reserves)
      returns (bug: bool, due: seq<(TokenId, nat)>, sent: seq<(TokenId, nat)>, valueDue: nat, valueSent: nat)
      requires unliquidated.Keys <= known.Keys
      requires forall i :: 0 <= i < |balances| ==> balances[i].token in known
      modifies this
      ensures AllKnown(due, known) && AllKnown(sent, known)
      ensures exists after :: IsBest(Holdings(due, known), old(prevReserves), valueDue, after)
      ensures IsBest(Holdings(sent, known), old(prevReserves) + pairReserves, valueSent, prevReserves)
      ensures unliquidated == AfterCall(old(unliquidated), balances, r)
      ensures forall t :: Listed(due, t) == Debt(balances, t)
      ensures forall t :: Listed(sent, t) == Sent(old(unliquidated), balances, r, t)
      ensures earned - owed == old(earned) - old(owed) + valueSent - valueDue
      ensures bug <==> earned > owed
    {
      var held := unliquidated;
      var newReserves := prevReserves + pairReserves;
      var fromGains;
      due, fromGains := SettleBalances(balances, r, known);
      var after;
      valueDue, after := LiquidateAllToken(Holdings(due, known), prevReserves);
      sent := LiquidateHeld(held, r, known, fromGains);
      WrittenBack(held, balances, r, unliquidated);
      valueSent, prevReserves := LiquidateAllToken(Holdings(sent, known), newReserves);
      if valueSent > valueDue {
        earned := earned + (valueSent - valueDue);
      } else {
        owed := owed + (valueDue - valueSent);
      }
      bug := earned > owed;
    }
  }
}
