/** The exhaustive search for the best way to liquidate a set of holdings. */
module Liquidation {
  import opened UniswapMath
  import opened UniswapPaths

  /** `TokenContext`: the swap paths known for a token. */
  datatype Token = Token(swaps: seq<Path>)

  datatype Holding = Holding(token: Token, amount: nat)

  /** One list of candidate sales per holding that has a path; the others are dropped. */
  function Candidates(holdings: seq<Holding>): seq<seq<Sale>> {
    if holdings == [] then []
    else (if SalesOf(holdings[0]) == [] then [] else [SalesOf(holdings[0])]) + Candidates(holdings[1..])
  }

  /** The holding, whole, through each of its paths. */
  function SalesOf(h: Holding): seq<Sale> {
    seq(|h.token.swaps|, i requires 0 <= i < |h.token.swaps| => Sale(h.token.swaps[i], h.amount))
  }

  /** A choice of one sale from each list. */
  ghost predicate IsChoice(choice: seq<Sale>, lists: seq<seq<Sale>>) {
    |choice| == |lists| && forall i :: 0 <= i < |choice| ==> choice[i] in lists[i]
  }

  /** What a choice pays in total, its sales threading the reserves in order. */
  function Value(choice: seq<Sale>, m: Reserves): nat { Total(Payouts(choice, m)) }

  /** Every way to put one of `xs` in front of one of `tails`. */
  function Prepend(xs: seq<Sale>, tails: seq<seq<Sale>>): seq<seq<Sale>> {
    if xs == [] then []
    else seq(|tails|, i requires 0 <= i < |tails| => [xs[0]] + tails[i]) + Prepend(xs[1..], tails)
  }

  /** The Cartesian product of the lists. */
  function Product(lists: seq<seq<Sale>>): seq<seq<Sale>> {
    if lists == [] then [[]] else Prepend(lists[0], Product(lists[1..]))
  }

  lemma {:induction false} PrependMember(xs: seq<Sale>, tails: seq<seq<Sale>>, c: seq<Sale>)
    ensures c in Prepend(xs, tails) <==> |c| > 0 && c[0] in xs && c[1..] in tails
  {
    if xs != [] {
      PrependMember(xs[1..], tails, c);
      var firsts := seq(|tails|, i requires 0 <= i < |tails| => [xs[0]] + tails[i]);
      if c in firsts {
        var i :| 0 <= i < |firsts| && firsts[i] == c;
        assert c[1..] == tails[i];
      }
      if |c| > 0 && c[0] == xs[0] && c[1..] in tails {
        var i :| 0 <= i < |tails| && tails[i] == c[1..];
        assert firsts[i] == c;
      }
    }
  }

  /** The product enumerates exactly the choices. */
  lemma {:induction false} ProductExact(lists: seq<seq<Sale>>, c: seq<Sale>)
    ensures c in Product(lists) <==> IsChoice(c, lists)
  {
    if lists != [] {
      PrependMember(lists[0], Product(lists[1..]), c);
      if |c| > 0 {
        ProductExact(lists[1..], c[1..]);
        if IsChoice(c, lists) {
          assert forall i :: 0 <= i < |c| - 1 ==> c[1..][i] == c[i + 1] && lists[1..][i] == lists[i + 1];
        }
        if IsChoice(c[1..], lists[1..]) && c[0] in lists[0] {
          assert forall i :: 1 <= i < |c| ==> c[i] == c[1..][i - 1] && lists[i] == lists[1..][i - 1];
        }
      }
    }
  }

  /** The loop that collects `swap_combos`. */
  method CollectCandidates(holdings: seq<Holding>) returns (combos: seq<seq<Sale>>)
    ensures combos == Candidates(holdings)
  {
    combos := [];
    assert holdings[0..] == holdings;
    for i := 0 to |holdings|
      invariant combos + Candidates(holdings[i..]) == Candidates(holdings)
    {
      assert holdings[i..][1..] == holdings[i + 1..];
      var sales := SalesOf(holdings[i]);
      if |sales| > 0 {
        assert combos + ([sales] + Candidates(holdings[i + 1..])) == combos + [sales] + Candidates(holdings[i + 1..]);
        combos := combos + [sales];
      } else {
        assert [] + Candidates(holdings[i + 1..]) == Candidates(holdings[i + 1..]);
      }
    }
    assert combos + [] == combos;
  }

  /** One combination: its sales against a private copy of the reserves. */
  method SellChoice(choice: seq<Sale>, reserves: Reserves) returns (total: nat, after: Reserves)
    ensures total == Value(choice, reserves) && after == Run(choice, reserves)
  {
    total, after := 0, reserves;
    assert choice[0..] == choice;
    for i := 0 to |choice|
      invariant total + Total(Payouts(choice[i..], after)) == Value(choice, reserves)
      invariant Run(choice[i..], after) == Run(choice, reserves)
    {
      assert choice[i..][1..] == choice[i + 1..];
      var amount;
      ghost var before := after;
      amount, after := GetAmountOut(choice[i].path, choice[i].amount, after);
      assert Payouts(choice[i..], before)[1..] == Payouts(choice[i + 1..], after);
      total := total + amount;
    }
  }

  method SellChoices(choices: seq<seq<Sale>>, reserves: Reserves) returns (outcomes: seq<(nat, Reserves)>)
    ensures |outcomes| == |choices|
    ensures forall j :: 0 <= j < |choices| ==> outcomes[j] == (Value(choices[j], reserves), Run(choices[j], reserves))
  {
    outcomes := [];
    for i := 0 to |choices|
      invariant |outcomes| == i
      invariant forall j :: 0 <= j < i ==> outcomes[j] == (Value(choices[j], reserves), Run(choices[j], reserves))
    {
      var total, left := SellChoice(choices[i], reserves);
      outcomes := outcomes + [(total, left)];
    }
  }

  /** The running best: the first outcome that is strictly above all before it. */
  method PickBest(outcomes: seq<(nat, Reserves)>, reserves: Reserves) returns (best: nat, after: Reserves)
    ensures forall j :: 0 <= j < |outcomes| ==> outcomes[j].0 <= best
    ensures if best == 0 then after == reserves else (best, after) in outcomes
  {
    best, after := 0, reserves;
    for i := 0 to |outcomes|
      invariant forall j :: 0 <= j < i ==> outcomes[j].0 <= best
      invariant if best == 0 then after == reserves else (best, after) in outcomes
    {
      if outcomes[i].0 > best {
        best, after := outcomes[i].0, outcomes[i].1;
      }
    }
  }

  // ---- the choices, from the holdings alone ----

  /** `ks` takes one path of each holding that has paths; for the others it says nothing. */
  ghost predicate IsPick(holdings: seq<Holding>, ks: seq<nat>) {
    && |ks| == |holdings|
    && forall i :: 0 <= i < |ks| && holdings[i].token.swaps != [] ==> ks[i] < |holdings[i].token.swaps|
  }

  /** The sales of a pick: each holding that has paths, whole, through the path taken, in order. */
  function Picked(holdings: seq<Holding>, ks: seq<nat>): seq<Sale>
    requires IsPick(holdings, ks)
  {
    if holdings == [] then []
    else
      var h := holdings[0];
      (if h.token.swaps == [] then [] else [Sale(h.token.swaps[ks[0]], h.amount)]) + Picked(holdings[1..], ks[1..])
  }

  lemma {:induction false} PickIsChoice(holdings: seq<Holding>, ks: seq<nat>)
    requires IsPick(holdings, ks)
    ensures IsChoice(Picked(holdings, ks), Candidates(holdings))
  {
    if holdings != [] {
      PickIsChoice(holdings[1..], ks[1..]);
      var h, rest := holdings[0], Picked(holdings[1..], ks[1..]);
      if h.token.swaps != [] {
        ChoiceCons(SalesOf(h)[ks[0]], SalesOf(h), rest, Candidates(holdings[1..]));
      } else {
        assert [] + rest == rest && [] + Candidates(holdings[1..]) == Candidates(holdings[1..]);
      }
    }
  }

  lemma ChoiceCons(s: Sale, list: seq<Sale>, c: seq<Sale>, lists: seq<seq<Sale>>)
    requires s in list && IsChoice(c, lists)
    ensures IsChoice([s] + c, [list] + lists)
  {}

  lemma {:induction false} ChoiceIsPick(holdings: seq<Holding>, c: seq<Sale>) returns (ks: seq<nat>)
    requires IsChoice(c, Candidates(holdings))
    ensures IsPick(holdings, ks) && Picked(holdings, ks) == c
  {
    ks := [];
    if holdings != [] {
      var h, rest := holdings[0], Candidates(holdings[1..]);
      if h.token.swaps == [] {
        assert [] + rest == rest && [] + c == c;
        ks := ChoiceIsPick(holdings[1..], c);
        ks := [0] + ks;
        PickCons(holdings, ks);
      } else {
        ChoiceTail(c, SalesOf(h), rest);
        var k :| 0 <= k < |SalesOf(h)| && SalesOf(h)[k] == c[0];
        ks := ChoiceIsPick(holdings[1..], c[1..]);
        ks := [k] + ks;
        PickCons(holdings, ks);
      }
    }
  }

  lemma PickCons(holdings: seq<Holding>, ks: seq<nat>)
    requires holdings != [] && ks != [] && IsPick(holdings[1..], ks[1..])
    requires holdings[0].token.swaps == [] || ks[0] < |holdings[0].token.swaps|
    ensures IsPick(holdings, ks)
  {
    forall i | 0 <= i < |ks| && holdings[i].token.swaps != [] ensures ks[i] < |holdings[i].token.swaps| {
      if i > 0 {
        assert ks[1..][i - 1] == ks[i] && holdings[1..][i - 1] == holdings[i];
      }
    }
  }

  lemma ChoiceTail(c: seq<Sale>, list: seq<Sale>, lists: seq<seq<Sale>>)
    requires IsChoice(c, [list] + lists)
    ensures c[0] in list && IsChoice(c[1..], lists) && c == [c[0]] + c[1..]
  {
    assert forall i :: 0 <= i < |lists| ==> ([list] + lists)[i + 1] == lists[i];
  }

  /** The choices the program tries are exactly the picks. */
  lemma ChoiceIffPick(holdings: seq<Holding>, c: seq<Sale>)
    ensures IsChoice(c, Candidates(holdings)) <==> exists ks :: IsPick(holdings, ks) && Picked(holdings, ks) == c
  {
    if IsChoice(c, Candidates(holdings)) {
      var ks := ChoiceIsPick(holdings, c);
    }
    if ks :| IsPick(holdings, ks) && Picked(holdings, ks) == c {
      PickIsChoice(holdings, ks);
    }
  }

  /** A pick with that total leaves those reserves. */
  ghost predicate Reaches(holdings: seq<Holding>, reserves: Reserves, best: nat, after: Reserves) {
    exists ks :: && IsPick(holdings, ks)
                 && Value(Picked(holdings, ks), reserves) == best && Run(Picked(holdings, ks), reserves) == after
  }

  /**
   * `best` is the largest total over every way to take one path per token that has paths;
   * `after` comes from one that reaches it, or is the initial map if nothing is earned.
   */
  ghost predicate IsBest(holdings: seq<Holding>, reserves: Reserves, best: nat, after: Reserves) {
    && (forall ks :: IsPick(holdings, ks) ==> Value(Picked(holdings, ks), reserves) <= best)
    && (best > 0 ==> Reaches(holdings, reserves, best, after))
    && (best == 0 ==> after == reserves)
  }

  ghost predicate IsBestChoice(lists: seq<seq<Sale>>, reserves: Reserves, best: nat, after: Reserves) {
    && (forall c :: IsChoice(c, lists) ==> Value(c, reserves) <= best)
    && (best > 0 ==> exists c :: IsChoice(c, lists) && Value(c, reserves) == best && Run(c, reserves) == after)
    && (best == 0 ==> after == reserves)
  }

  /** Best among the choices is best among the picks. */
  lemma BestIff(holdings: seq<Holding>, reserves: Reserves, best: nat, after: Reserves)
    ensures IsBestChoice(Candidates(holdings), reserves, best, after) <==> IsBest(holdings, reserves, best, after)
  {
    if IsBestChoice(Candidates(holdings), reserves, best, after) {
      forall ks | IsPick(holdings, ks) ensures Value(Picked(holdings, ks), reserves) <= best {
        PickIsChoice(holdings, ks);
      }
      if best > 0 {
        var c :| IsChoice(c, Candidates(holdings)) && Value(c, reserves) == best && Run(c, reserves) == after;
        var ks := ChoiceIsPick(holdings, c);
      }
    }
    if IsBest(holdings, reserves, best, after) {
      forall c | IsChoice(c, Candidates(holdings)) ensures Value(c, reserves) <= best {
        var ks := ChoiceIsPick(holdings, c);
      }
      if best > 0 {
        var ks :| IsPick(holdings, ks)
          && Value(Picked(holdings, ks), reserves) == best && Run(Picked(holdings, ks), reserves) == after;
        PickIsChoice(holdings, ks);
      }
    }
  }

  // ---- what a list of sales pays ----

  lemma OneSale(s: Sale, m: Reserves)
    ensures (Value([s], m), Run([s], m)) == PathOut(s.path, s.amount, m)
  {
    assert [s][1..] == [];
    ValueCons([s], m);
  }

  /** Sales one after the other: the payouts add up, the later ones meet the reserves the earlier ones left. */
  lemma {:induction false} SalesAppend(a: seq<Sale>, b: seq<Sale>, m: Reserves)
    ensures Value(a + b, m) == Value(a, m) + Value(b, Run(a, m))
    ensures Run(a + b, m) == Run(b, Run(a, m))
  {
    if a == [] {
      assert a + b == b;
    } else {
      var (payout, m') := PathOut(a[0].path, a[0].amount, m);
      assert (a + b)[1..] == a[1..] + b;
      SalesAppend(a[1..], b, m');
      ValueCons(a, m);
      ValueCons(a + b, m);
    }
  }

  lemma ValueCons(a: seq<Sale>, m: Reserves)
    requires a != []
    ensures var (payout, m') := PathOut(a[0].path, a[0].amount, m); Value(a, m) == payout + Value(a[1..], m')
  {
    var (payout, m') := PathOut(a[0].path, a[0].amount, m);
    assert Payouts(a, m)[1..] == Payouts(a[1..], m');
  }

  /** `liquidate_all_token`: evaluates the whole product and keeps the best. */
  method LiquidateAllToken(holdings: seq<Holding>, reserves: Reserves) returns (best: nat, after: Reserves)
    ensures IsBest(holdings, reserves, best, after)
  {
    var combos := CollectCandidates(holdings);
    if combos == [] {
      BestIff(holdings, reserves, 0, reserves);
      return 0, reserves;
    }
    var choices := Product(combos);
    var outcomes := SellChoices(choices, reserves);
    best, after := PickBest(outcomes, reserves);
    forall c | IsChoice(c, combos) ensures Value(c, reserves) <= best {
      ProductExact(combos, c);
      var j :| 0 <= j < |choices| && choices[j] == c;
      assert outcomes[j].0 <= best;
    }
    if best > 0 {
      var j :| 0 <= j < |outcomes| && outcomes[j] == (best, after);
      ProductExact(combos, choices[j]);
    }
    BestIff(holdings, reserves, best, after);
  }

  /** Holdings without a path change nothing. */
  lemma PathlessHoldingsIgnored(a: seq<Holding>, h: Holding, b: seq<Holding>, reserves: Reserves, best: nat,
      after: Reserves)
    requires h.token.swaps == []
    ensures IsBest(a + [h] + b, reserves, best, after) <==> IsBest(a + b, reserves, best, after)
  {
    NoCandidate(a, h, b);
    BestIff(a + [h] + b, reserves, best, after);
    BestIff(a + b, reserves, best, after);
  }

  lemma {:induction false} NoCandidate(a: seq<Holding>, h: Holding, b: seq<Holding>)
    requires h.token.swaps == []
    ensures Candidates(a + [h] + b) == Candidates(a + b)
  {
    if a == [] {
      assert (a + [h] + b)[0] == h && (a + [h] + b)[1..] == b == a + b;
      assert [] + Candidates(b) == Candidates(b);
    } else {
      NoCandidate(a[1..], h, b);
      assert (a + [h] + b)[1..] == a[1..] + [h] + b && (a + b)[1..] == a[1..] + b;
    }
  }
}
