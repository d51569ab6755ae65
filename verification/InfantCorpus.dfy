/** The snapshot corpus and the vote-based scheduler that samples and prunes it. */
module InfantCorpus {
  import opened Pieces

  const DROP_THRESHOLD := 500
  const PRUNE_AMT := 250
  /** What one vote is worth, and what a new entry starts with. */
  const INCREMENT := 3

  /** Votes and visits of one entry. */
  datatype Tally = Tally(votes: nat, visits: nat)

  type Tallies = map<nat, Tally>

  // ---- sums over the tallies ----

  ghost function SumOf(m: Tallies, f: Tally -> nat): nat {
    if m == map[] then 0
    else
      var k :| k in m;
      f(m[k]) + SumOf(m - {k}, f)
  }

  /** The sum can be taken apart at any key. */
  lemma {:induction false} SumRemove(m: Tallies, f: Tally -> nat, k: nat)
    requires k in m
    ensures SumOf(m, f) == f(m[k]) + SumOf(m - {k}, f)
    decreases |m|
  {
    var k0 :| k0 in m && SumOf(m, f) == f(m[k0]) + SumOf(m - {k0}, f);
    if k != k0 {
      SumRemove(m - {k0}, f, k);
      SumRemove(m - {k}, f, k0);
      assert m - {k0} - {k} == m - {k} - {k0};
    }
  }

  lemma SumUpdate(m: Tallies, f: Tally -> nat, k: nat, t: Tally)
    ensures SumOf(m[k := t], f) == f(t) + SumOf(m - {k}, f)
  {
    SumRemove(m[k := t], f, k);
    assert m[k := t] - {k} == m - {k};
  }

  function Votes(t: Tally): nat { t.votes }

  function Visits(t: Tally): nat { t.visits }

  // ---- sorting ----

  ghost predicate SortedBy(s: seq<nat>, key: nat -> real) {
    forall i, j :: 0 <= i < j < |s| ==> key(s[i]) <= key(s[j])
  }

  /** Puts `x` after every entry whose key is not larger. */
  function Insert(s: seq<nat>, x: nat, key: nat -> real): (t: seq<nat>)
    ensures multiset(t) == multiset(s) + multiset{x}
  {
    if s == [] || key(s[|s| - 1]) <= key(x) then s + [x]
    else
      assert s == s[..|s| - 1] + [s[|s| - 1]];
      Insert(s[..|s| - 1], x, key) + [s[|s| - 1]]
  }

  lemma {:induction false} InsertSorted(s: seq<nat>, x: nat, key: nat -> real)
    requires SortedBy(s, key)
    ensures SortedBy(Insert(s, x, key), key)
  {
    if !(s == [] || key(s[|s| - 1]) <= key(x)) {
      var init, last := s[..|s| - 1], s[|s| - 1];
      InsertSorted(init, x, key);
      var t := Insert(init, x, key);
      forall i | 0 <= i < |t| ensures key(t[i]) <= key(last) {
        assert t[i] in multiset(t);
        assert t[i] in init || t[i] == x;
      }
    }
  }

  /** Library sort, as an insertion sort. */
  method SortBy(s: seq<nat>, key: nat -> real) returns (t: seq<nat>)
    ensures multiset(t) == multiset(s) && SortedBy(t, key)
  {
    t := [];
    for i := 0 to |s|
      invariant multiset(t) == multiset(s[..i]) && SortedBy(t, key)
    {
      InsertSorted(t, s[i], key);
      t := Insert(t, s[i], key);
      assert s[..i + 1] == s[..i] + [s[i]];
    }
    assert s[..|s|] == s;
  }

  lemma {:induction false} NoRepeatsMultiset(s: seq<nat>)
    ensures NoRepeats(s) <==> forall x :: multiset(s)[x] <= 1
  {
    if s != [] {
      var init, last := s[..|s| - 1], s[|s| - 1];
      assert s == init + [last];
      NoRepeatsMultiset(init);
      if NoRepeats(s) {
        assert NoRepeats(init);
        assert last !in init;
        forall x ensures multiset(s)[x] <= 1 {
        }
      }
      if forall x :: multiset(s)[x] <= 1 {
        forall x ensures multiset(init)[x] <= 1 {
          assert multiset(s)[x] <= 1;
        }
        assert multiset(s)[last] <= 1;
        assert last !in multiset(init);
      }
    }
  }

  /** A permutation has the same members and as few repeats. */
  lemma Permuted(s: seq<nat>, t: seq<nat>)
    requires multiset(s) == multiset(t)
    ensures forall x :: x in s <==> x in t
    ensures NoRepeats(s) ==> NoRepeats(t)
    ensures |s| == |t|
  {
    NoRepeatsMultiset(s);
    NoRepeatsMultiset(t);
    assert forall x :: x in s <==> x in multiset(s);
    assert forall x :: x in t <==> x in multiset(t);
    assert |multiset(s)| == |s| && |multiset(t)| == |t|;
  }

  // ---- the scheduler's invariant ----

  /** `data.sorted_votes` ranks by votes, the most voted first. */
  ghost predicate Descending(s: seq<nat>, m: Tallies) {
    forall i, j :: 0 <= i < j < |s| && s[i] in m && s[j] in m ==> m[s[i]].votes >= m[s[j]].votes
  }

  /** The ranking lists each key exactly once, the most voted first. */
  ghost predicate Ranked(s: seq<nat>, m: Tallies) {
    NoRepeats(s) && (forall x :: x in s <==> x in m) && Descending(s, m)
  }

  /** Every entry has its starting votes and its first visit. */
  ghost predicate Seeded(m: Tallies) {
    forall k :: k in m ==> m[k].votes >= INCREMENT && m[k].visits >= 1
  }

  /** The cached totals: one more than the sums, plus what was voted for entries that are gone. */
  ghost predicate Counted(m: Tallies, votesTotal: nat, visitsTotal: nat, absent: nat) {
    && votesTotal == 1 + SumOf(m, Votes) + INCREMENT * absent
    && visitsTotal == 1 + SumOf(m, Visits)
  }

  function ByVotes(m: Tallies): nat -> real {
    x => if x in m then -(m[x].votes as real) else 0.0
  }

  /** The pruning score, votes per visit. */
  function Score(m: Tallies, x: nat): real {
    if x in m && m[x].visits > 0 then m[x].votes as real / m[x].visits as real else 0.0
  }

  function ByScore(m: Tallies): nat -> real {
    (x: nat) => Score(m, x)
  }

  /** A new entry goes to the end: nobody has fewer than its three votes. */
  lemma RankedPush(s: seq<nat>, m: Tallies, k: nat)
    requires Ranked(s, m) && Seeded(m) && k !in m
    ensures Ranked(s + [k], m[k := Tally(INCREMENT, 1)]) && Seeded(m[k := Tally(INCREMENT, 1)])
  {
    var t := s + [k];
    assert forall i :: 0 <= i < |s| ==> t[i] == s[i] && s[i] in m;
  }

  /** `retain`: the list without `x`. */
  function Without(s: seq<nat>, x: nat): (t: seq<nat>)
    ensures forall y :: y in t <==> y in s && y != x
  {
    if s == [] then []
    else
      assert s == s[..|s| - 1] + [s[|s| - 1]];
      Without(s[..|s| - 1], x) + if s[|s| - 1] == x then [] else [s[|s| - 1]]
  }

  lemma {:induction false} RankedWithout(s: seq<nat>, m: Tallies, k: nat)
    requires NoRepeats(s) && Descending(s, m) && forall x :: x in s ==> x in m
    ensures NoRepeats(Without(s, k)) && Descending(Without(s, k), m - {k})
  {
    if s != [] {
      var init, last := s[..|s| - 1], s[|s| - 1];
      RankedWithout(init, m, k);
      var t := Without(init, k);
      forall i | 0 <= i < |t| ensures t[i] != last && m[t[i]].votes >= m[last].votes {
        assert t[i] in init;
        var j :| 0 <= j < |init| && init[j] == t[i];
        assert s[j] == t[i];
      }
    }
  }

  // ---- sampling ----

  /** The votes of the first `k` entries of the ranking. */
  function Prefix(s: seq<nat>, m: Tallies, k: nat): nat
    requires k <= |s| && forall x :: x in s ==> x in m
  {
    if k == 0 then 0 else Prefix(s, m, k - 1) + m[s[k - 1]].votes
  }

  /** The entry at which the running sum of votes first exceeds the threshold, or the last one. */
  function Selected(s: seq<nat>, m: Tallies, threshold: real, from: nat): (k: nat)
    requires from < |s| && forall x :: x in s ==> x in m
    ensures from <= k < |s|
    decreases |s| - from
  {
    if Prefix(s, m, from + 1) as real > threshold || from + 1 == |s| then from
    else Selected(s, m, threshold, from + 1)
  }

  lemma {:induction false} PrefixGrows(s: seq<nat>, m: Tallies, j: nat, k: nat)
    requires j <= k <= |s| && forall x :: x in s ==> x in m
    ensures Prefix(s, m, j) <= Prefix(s, m, k)
  {
    if j < k {
      PrefixGrows(s, m, j, k - 1);
    }
  }

  lemma {:induction false} SelectedFrom(s: seq<nat>, m: Tallies, threshold: real, from: nat, k: nat)
    requires from <= k < |s| && forall x :: x in s ==> x in m
    requires Prefix(s, m, from) as real <= threshold
    ensures Selected(s, m, threshold, from) == k <==>
            Prefix(s, m, k) as real <= threshold && (threshold < Prefix(s, m, k + 1) as real || k + 1 == |s|)
    decreases |s| - from
  {
    PrefixGrows(s, m, from + 1, k + 1);
    if Prefix(s, m, from + 1) as real > threshold || from + 1 == |s| {
      if from < k {
        PrefixGrows(s, m, from + 1, k);
      }
    } else {
      if from < k {
        SelectedFrom(s, m, threshold, from + 1, k);
      }
    }
  }

  /**
   * The thresholds that select entry `k` form an interval as wide as its votes; the intervals
   * follow each other from zero, and everything beyond goes to the last entry.
   */
  lemma SelectionTiles(s: seq<nat>, m: Tallies, threshold: real, k: nat)
    requires k < |s| && threshold >= 0.0 && forall x :: x in s ==> x in m
    ensures Prefix(s, m, 0) == 0 && Prefix(s, m, k + 1) - Prefix(s, m, k) == m[s[k]].votes
    ensures Selected(s, m, threshold, 0) == k <==>
            Prefix(s, m, k) as real <= threshold && (threshold < Prefix(s, m, k + 1) as real || k + 1 == |s|)
  {
    SelectedFrom(s, m, threshold, 0, k);
  }

  lemma InitKeys(s: seq<nat>, m: Tallies, init: seq<nat>, last: nat)
    requires s == init + [last] && NoRepeats(s) && forall x :: x in s <==> x in m
    ensures last in m && NoRepeats(init)
    ensures forall x :: x in init <==> x in m - {last}
  {
    assert s[|s| - 1] == last && forall i :: 0 <= i < |init| ==> init[i] == s[i];
    forall i | 0 <= i < |init| ensures init[i] != last {
      assert init[i] == s[i];
    }
  }

  /** The tiles together are as wide as all votes, which is less than the cached total. */
  lemma {:induction false} PrefixTotal(s: seq<nat>, m: Tallies)
    requires NoRepeats(s) && forall x :: x in s <==> x in m
    ensures Prefix(s, m, |s|) == SumOf(m, Votes)
    decreases |s|
  {
    if s == [] {
      assert forall x :: x !in m;
      assert m == map[];
    } else {
      var init, last := s[..|s| - 1], s[|s| - 1];
      InitKeys(s, m, init, last);
      SumRemove(m, Votes, last);
      PrefixTotal(init, m - {last});
      PrefixSame(s, m, init, m - {last}, |init|);
    }
  }

  lemma {:induction false} PrefixSame(s: seq<nat>, m: Tallies, s': seq<nat>, m': Tallies, k: nat)
    requires k <= |s'| <= |s| && s' == s[..|s'|]
    requires forall x :: x in s ==> x in m
    requires forall x :: x in s' ==> x in m' && m'[x] == m[x]
    ensures Prefix(s, m, k) == Prefix(s', m', k)
  {
    if k > 0 {
      PrefixSame(s, m, s', m', k - 1);
      assert s'[k - 1] == s[k - 1] && s'[k - 1] in s';
    }
  }

  // ---- the scheduler's data and its transitions ----

  /** `VoteData`: the tallies, the cached ranking and the cached totals. */
  datatype VoteData = VoteData(tallies: Tallies, sortedVotes: seq<nat>, visitsTotal: nat, votesTotal: nat)

  const NO_DATA := VoteData(map[], [], 1, 1)

  /** Everything the scheduler's data promises, when `absent` votes went to entries that were gone. */
  ghost predicate Sound(d: VoteData, absent: nat) {
    Ranked(d.sortedVotes, d.tallies) && Seeded(d.tallies) && Counted(d.tallies, d.votesTotal, d.visitsTotal, absent)
  }

  function Added(d: VoteData, k: nat): VoteData {
    VoteData(d.tallies[k := Tally(INCREMENT, 1)], d.sortedVotes + [k], d.visitsTotal + 1, d.votesTotal + INCREMENT)
  }

  lemma AddedSound(d: VoteData, absent: nat, k: nat)
    requires Sound(d, absent) && k !in d.tallies
    ensures Sound(Added(d, k), absent)
  {
    RankedPush(d.sortedVotes, d.tallies, k);
    SumUpdate(d.tallies, Votes, k, Tally(INCREMENT, 1));
    SumUpdate(d.tallies, Visits, k, Tally(INCREMENT, 1));
    assert d.tallies - {k} == d.tallies;
  }

  /** What `on_remove` may subtract. */
  lemma TotalsCover(d: VoteData, absent: nat, k: nat)
    requires Sound(d, absent) && k in d.tallies
    ensures d.tallies[k].votes < d.votesTotal && d.tallies[k].visits < d.visitsTotal
  {
    SumRemove(d.tallies, Votes, k);
    SumRemove(d.tallies, Visits, k);
  }

  function Removed(d: VoteData, k: nat): VoteData
    requires k in d.tallies && d.tallies[k].votes < d.votesTotal && d.tallies[k].visits < d.visitsTotal
  {
    VoteData(d.tallies - {k}, Without(d.sortedVotes, k), d.visitsTotal - d.tallies[k].visits,
        d.votesTotal - d.tallies[k].votes)
  }

  lemma RemovedSound(d: VoteData, absent: nat, k: nat)
    requires Sound(d, absent) && k in d.tallies
    ensures d.tallies[k].votes < d.votesTotal && d.tallies[k].visits < d.visitsTotal
    ensures Sound(Removed(d, k), absent)
  {
    TotalsCover(d, absent, k);
    RankedWithout(d.sortedVotes, d.tallies, k);
    SumRemove(d.tallies, Votes, k);
    SumRemove(d.tallies, Visits, k);
  }

  /** The tallies with `votes` and `visits` added to entry `k`. */
  function Bumped(m: Tallies, k: nat, votes: nat, visits: nat): Tallies
    requires k in m
  {
    m[k := Tally(m[k].votes + votes, m[k].visits + visits)]
  }

  lemma BumpedCounted(m: Tallies, votesTotal: nat, visitsTotal: nat, absent: nat, k: nat, votes: nat, visits: nat)
    requires Counted(m, votesTotal, visitsTotal, absent) && k in m
    ensures Counted(Bumped(m, k, votes, visits), votesTotal + votes, visitsTotal + visits, absent)
  {
    var t := Tally(m[k].votes + votes, m[k].visits + visits);
    SumRemove(m, Votes, k);
    SumRemove(m, Visits, k);
    SumUpdate(m, Votes, k, t);
    SumUpdate(m, Visits, k, t);
  }

  function Visited(d: VoteData, k: nat): VoteData
    requires k in d.tallies
  {
    d.(tallies := Bumped(d.tallies, k, 0, 1), visitsTotal := d.visitsTotal + 1)
  }

  lemma VisitedSound(d: VoteData, absent: nat, k: nat)
    requires Sound(d, absent) && k in d.tallies
    ensures Sound(Visited(d, k), absent)
  {
    BumpedCounted(d.tallies, d.votesTotal, d.visitsTotal, absent, k, 0, 1);
  }

  /** The tallies after a vote for `k`. */
  function VotedTallies(m: Tallies, k: nat): Tallies { if k in m then Bumped(m, k, INCREMENT, 0) else m }

  /** After a vote for `k`, with the ranking sorted again. */
  function Voted(d: VoteData, k: nat, ranking: seq<nat>): VoteData {
    VoteData(VotedTallies(d.tallies, k), ranking, d.visitsTotal, d.votesTotal + INCREMENT)
  }

  lemma VotedSound(d: VoteData, absent: nat, k: nat, ranking: seq<nat>)
    requires Sound(d, absent)
    requires multiset(ranking) == multiset(d.sortedVotes) && SortedBy(ranking, ByVotes(VotedTallies(d.tallies, k)))
    ensures Sound(Voted(d, k, ranking), if k in d.tallies then absent else absent + 1)
  {
    var m := VotedTallies(d.tallies, k);
    SortedIsRanked(d.sortedVotes, ranking, m);
    if k in d.tallies {
      BumpedCounted(d.tallies, d.votesTotal, d.visitsTotal, absent, k, INCREMENT, 0);
    }
  }

  /** Sorting any listing of the keys by votes gives a ranking. */
  lemma SortedIsRanked(s: seq<nat>, t: seq<nat>, m: Tallies)
    requires NoRepeats(s) && (forall x :: x in s <==> x in m)
    requires multiset(t) == multiset(s) && SortedBy(t, ByVotes(m))
    ensures Ranked(t, m)
  {
    Permuted(s, t);
    forall i, j | 0 <= i < j < |t| && t[i] in m && t[j] in m ensures m[t[i]].votes >= m[t[j]].votes {
      assert ByVotes(m)(t[i]) <= ByVotes(m)(t[j]);
    }
  }

  // ---- pruning ----

  /** The keys in some order, sorted by score, the lowest first. */
  method RankByScore(m: Tallies) returns (ranked: seq<nat>)
    ensures NoRepeats(ranked) && (forall x :: x in ranked <==> x in m) && |ranked| == |m|
    ensures SortedBy(ranked, ByScore(m))
  {
    var keys := ListKeys(m.Keys);
    ranked := SortBy(keys, ByScore(m));
    Permuted(keys, ranked);
    assert |m| == |m.Keys|;
  }

  method ListKeys(keys: set<nat>) returns (s: seq<nat>)
    ensures NoRepeats(s) && (forall x :: x in s <==> x in keys) && |s| == |keys|
  {
    s := [];
    var todo := keys;
    while todo != {}
      invariant todo <= keys && NoRepeats(s) && |s| + |todo| == |keys|
      invariant forall x :: x in s <==> x in keys && x !in todo
      decreases |todo|
    {
      var k :| k in todo;
      todo := todo - {k};
      s := s + [k];
    }
  }

  /** None of the `n` entries `gone` scores above a survivor. */
  ghost predicate WorstRemoved(m: Tallies, gone: set<nat>, n: nat) {
    && gone <= m.Keys && |gone| == n
    && forall x, y :: x in gone && y in m.Keys - gone ==> Score(m, x) <= Score(m, y)
  }

  lemma {:induction false} ElementsCount(s: seq<nat>)
    requires NoRepeats(s)
    ensures |Elements(s)| == |s|
  {
    if s != [] {
      var init, last := s[..|s| - 1], s[|s| - 1];
      assert s == init + [last];
      ElementsCount(init);
      assert last !in init;
      assert Elements(s) == Elements(init) + {last};
    }
  }

  lemma ElementsNext(s: seq<nat>, i: nat)
    requires NoRepeats(s) && i < |s|
    ensures s[i] !in Elements(s[..i]) && Elements(s[..i + 1]) == Elements(s[..i]) + {s[i]}
  {
    assert s[..i + 1] == s[..i] + [s[i]];
  }

  lemma MinusMinus<T>(m: map<nat, T>, a: set<nat>, k: nat)
    ensures m - a - {k} == m - (a + {k})
  {}

  /** The first `n` of a list in score order score at most what the others score. */
  lemma LowestAreWorst(ranked: seq<nat>, m: Tallies, n: nat)
    requires n <= |ranked| && NoRepeats(ranked) && (forall x :: x in ranked <==> x in m)
    requires SortedBy(ranked, ByScore(m))
    ensures WorstRemoved(m, Elements(ranked[..n]), n)
  {
    var low := ranked[..n];
    var gone := Elements(low);
    ElementsCount(low);
    assert forall j :: 0 <= j < n ==> ranked[j] == low[j] && low[j] in gone;
    forall x, y | x in gone && y in m.Keys - gone ensures Score(m, x) <= Score(m, y) {
      var i :| 0 <= i < n && low[i] == x;
      assert y in ranked;
      var j :| 0 <= j < |ranked| && ranked[j] == y;
      assert ByScore(m)(ranked[i]) <= ByScore(m)(ranked[j]);
    }
    forall x | x in gone ensures x in m {
      assert x in ranked;
    }
  }

  /** The `n` entries with the lowest scores. */
  method Lowest(m: Tallies, n: nat) returns (toRemove: seq<nat>)
    requires n <= |m|
    ensures NoRepeats(toRemove) && (forall x :: x in toRemove ==> x in m) && WorstRemoved(m, Elements(toRemove), n)
  {
    var ranked := RankByScore(m);
    LowestAreWorst(ranked, m, n);
    toRemove := ranked[..n];
    assert forall x :: x in toRemove ==> x in ranked;
  }

  /** What `on_add` prunes from tallies `m`: nothing up to 500 entries, otherwise the 250 worst. */
  ghost predicate Pruned(m: Tallies, gone: set<nat>) {
    if |m| > DROP_THRESHOLD then WorstRemoved(m, gone, PRUNE_AMT) else gone == {}
  }

  /** Never more than 500 live entries, and never none after the first. */
  ghost predicate Bounded(m: Tallies, next: nat) {
    |m| <= DROP_THRESHOLD && (next > 0 ==> |m| >= 1)
  }

  lemma PrunedBounded(m: Tallies, gone: set<nat>, next: nat)
    requires Pruned(m, gone) && 1 <= |m| <= DROP_THRESHOLD + 1
    ensures Bounded(m - gone, next)
    ensures |m - gone| == if |m| > DROP_THRESHOLD then |m| - PRUNE_AMT else |m|
  {
    assert (m - gone).Keys == m.Keys - gone;
    assert |m| == |m.Keys| && |m - gone| == |(m - gone).Keys|;
    assert gone <= m.Keys;
    assert m.Keys == (m.Keys - gone) + gone;
  }

  /** Above 500 entries 250 go, and none of them has more votes per visit than an entry that stays. */
  lemma PrunedMeans(m: Tallies, gone: set<nat>)
    requires Pruned(m, gone) && Seeded(m)
    ensures |m| <= 500 ==> gone == {}
    ensures |m| > 500 ==> |gone| == 250 && gone <= m.Keys
    ensures forall x, y :: x in gone && x in m && y in m.Keys - gone ==>
            m[x].votes * m[y].visits <= m[y].votes * m[x].visits
  {
    forall x, y | x in gone && x in m && y in m.Keys - gone
      ensures m[x].votes * m[y].visits <= m[y].votes * m[x].visits
    {
      assert Score(m, x) <= Score(m, y);
      RatioMeans(m[x].votes, m[x].visits, m[y].votes, m[y].visits);
    }
  }

  lemma RatioMeans(a: nat, b: nat, c: nat, d: nat)
    requires b > 0 && d > 0 && a as real / b as real <= c as real / d as real
    ensures a * d <= c * b
  {
    var p, q := a as real / b as real, c as real / d as real;
    RealMono(p, q, b as real * d as real);
    assert p * (b as real * d as real) == a as real * d as real;
    assert q * (b as real * d as real) == c as real * b as real;
    assert (a * d) as real == a as real * d as real && (c * b) as real == c as real * b as real;
  }

  lemma RealMono(p: real, q: real, r: real)
    requires p <= q && r >= 0.0
    ensures p * r <= q * r
  {}

  /** A new entry starts with three votes and one visit, and a vote is worth three; the total follows. */
  lemma ThreeVotes(d: VoteData, k: nat, ranking: seq<nat>)
    ensures var a := Added(d, k);
            && a.tallies == d.tallies[k := Tally(3, 1)] && a.sortedVotes == d.sortedVotes + [k]
            && a.votesTotal == d.votesTotal + 3 && a.visitsTotal == d.visitsTotal + 1
    ensures var v := Voted(d, k, ranking);
            && v.votesTotal == d.votesTotal + 3 && v.visitsTotal == d.visitsTotal
            && (k !in d.tallies ==> v.tallies == d.tallies)
            && (k in d.tallies ==> v.tallies == d.tallies[k := Tally(d.tallies[k].votes + 3, d.tallies[k].visits)])
    ensures k in d.tallies ==>
            Visited(d, k) == VoteData(d.tallies[k := Tally(d.tallies[k].votes, d.tallies[k].visits + 1)],
                                 d.sortedVotes, d.visitsTotal + 1, d.votesTotal)
  {}

  // ---- corpus and scheduler together ----

  /** The corpus `keys` and the scheduler speak of the same entries, all of them below `next`. */
  ghost predicate Live(keys: set<nat>, next: nat, d: VoteData, absent: nat) {
    keys == d.tallies.Keys && (forall k :: k in keys ==> k < next) && Sound(d, absent)
  }

  lemma AddedLive(keys: set<nat>, next: nat, d: VoteData, absent: nat)
    requires Live(keys, next, d, absent)
    ensures Live(keys + {next}, next + 1, Added(d, next), absent)
  {
    AddedSound(d, absent, next);
    assert Added(d, next).tallies.Keys == keys + {next};
  }

  /** From `d` to `d'` by adding `idx` and pruning `gone`. */
  ghost predicate Grown(d: VoteData, d': VoteData, idx: nat, gone: set<nat>) {
    d'.tallies == Added(d, idx).tallies - gone && Pruned(Added(d, idx).tallies, gone)
  }

  lemma GrownBounded(d: VoteData, d': VoteData, idx: nat, gone: set<nat>, next: nat)
    requires Grown(d, d', idx, gone) && idx !in d.tallies && Bounded(d.tallies, idx)
    ensures Bounded(d'.tallies, next)
  {
    assert Added(d, idx).tallies.Keys == d.tallies.Keys + {idx};
    assert |Added(d, idx).tallies| == |Added(d, idx).tallies.Keys| && |d.tallies| == |d.tallies.Keys|;
    PrunedBounded(Added(d, idx).tallies, gone, next);
  }

  lemma RemovedLive(keys: set<nat>, next: nat, d: VoteData, absent: nat, k: nat)
    requires Live(keys, next, d, absent) && k in keys
    ensures d.tallies[k].votes < d.votesTotal && d.tallies[k].visits < d.visitsTotal
    ensures Live(keys - {k}, next, Removed(d, k), absent)
  {
    RemovedSound(d, absent, k);
    assert Removed(d, k).tallies.Keys == keys - {k};
  }

  lemma VotedLive(keys: set<nat>, next: nat, d: VoteData, absent: nat, k: nat, ranking: seq<nat>)
    requires Live(keys, next, d, absent)
    requires multiset(ranking) == multiset(d.sortedVotes) && SortedBy(ranking, ByVotes(VotedTallies(d.tallies, k)))
    ensures Live(keys, next, Voted(d, k, ranking), if k in keys then absent else absent + 1)
    ensures |Voted(d, k, ranking).tallies| == |d.tallies|
  {
    VotedSound(d, absent, k, ranking);
    var m := Voted(d, k, ranking).tallies;
    assert m.Keys == d.tallies.Keys;
    assert |m| == |m.Keys| && |d.tallies| == |d.tallies.Keys|;
  }

  lemma VisitedLive(keys: set<nat>, next: nat, d: VoteData, absent: nat, k: nat)
    requires Live(keys, next, d, absent) && k in keys
    ensures Live(keys, next, Visited(d, k), absent)
    ensures |Visited(d, k).tallies| == |d.tallies|
  {
    VisitedSound(d, absent, k);
    var m := Visited(d, k).tallies;
    assert m.Keys == d.tallies.Keys;
    assert |m| == |m.Keys| && |d.tallies| == |d.tallies.Keys|;
  }

  lemma FreshKey<S>(entries: map<nat, S>, idx: nat, state: S)
    requires idx !in entries
    ensures entries[idx := state].Keys - {idx} == entries.Keys
  {}

  /** `InfantStateState`: the indexed corpus together with the scheduler's `VoteData`. */
  class InfantStates<S> {
    var entries: map<nat, S>
    var currentIdx: nat
    var data: VoteData
    /** Votes cast for entries that were no longer there. */
    ghost var absent: nat

    ghost predicate Linked()
      reads this
    {
      Live(entries.Keys, currentIdx, data, absent)
    }

    ghost predicate Valid()
      reads this
    {
      Linked() && Bounded(data.tallies, currentIdx)
    }

    constructor ()
      ensures Valid() && entries == map[] && currentIdx == 0 && data == NO_DATA && absent == 0
    {
      entries, currentIdx, data, absent := map[], 0, NO_DATA, 0;
    }

    /** `count` is what the invariant bounds. */
    function Count(): (n: nat)
      requires Linked()
      reads this
      ensures n == |data.tallies|
    {
      assert |entries| == |entries.Keys| && |data.tallies| == |data.tallies.Keys|;
      |entries|
    }

    /** `on_remove`, then `corpus.remove`. */
    method RemoveEntry(idx: nat)
      requires Linked() && idx in entries
      modifies this`entries, this`data
      ensures Linked() && entries == old(entries) - {idx} && data.tallies == old(data).tallies - {idx}
    {
      RemovedLive(entries.Keys, currentIdx, data, absent, idx);
      ghost var keys := entries.Keys;
      data := Removed(data, idx);
      entries := entries - {idx};
      assert entries.Keys == keys - {idx};
    }

    method RemoveAll(doomed: seq<nat>)
      requires Linked() && NoRepeats(doomed) && forall x :: x in doomed ==> x in entries
      modifies this`entries, this`data
      ensures Linked() && entries == old(entries) - Elements(doomed)
      ensures data.tallies == old(data).tallies - Elements(doomed)
    {
      for i := 0 to |doomed|
        invariant Linked()
        invariant entries == old(entries) - Elements(doomed[..i])
        invariant data.tallies == old(data).tallies - Elements(doomed[..i])
      {
        ElementsNext(doomed, i);
        MinusMinus(old(entries), Elements(doomed[..i]), doomed[i]);
        MinusMinus(old(data).tallies, Elements(doomed[..i]), doomed[i]);
        RemoveEntry(doomed[i]);
      }
      assert doomed[..|doomed|] == doomed;
    }

    /** The second half of `on_add`: over the limit, the 250 lowest scores go. */
    method Prune() returns (ghost gone: set<nat>)
      requires Linked()
      modifies this`entries, this`data
      ensures Linked() && entries == old(entries) - gone && data.tallies == old(data).tallies - gone
      ensures Pruned(old(data).tallies, gone)
    {
      gone := {};
      if Count() > DROP_THRESHOLD {
        var toRemove := Lowest(data.tallies, PRUNE_AMT);
        gone := Elements(toRemove);
        RemoveAll(toRemove);
      }
    }

    /** `on_add`: three votes, one visit, the end of the ranking; then prune. */
    method OnAdd(idx: nat) returns (ghost gone: set<nat>)
      requires idx in entries && Live(entries.Keys - {idx}, idx, data, absent) && currentIdx == idx + 1
      modifies this`entries, this`data
      ensures Linked() && entries == old(entries) - gone && Grown(old(data), data, idx, gone)
    {
      AddedLive(entries.Keys - {idx}, idx, data, absent);
      assert entries.Keys - {idx} + {idx} == entries.Keys;
      data := Added(data, idx);
      gone := Prune();
    }

    /** `corpus.add`: the index is one that was never used before. */
    method CorpusAdd(state: S) returns (idx: nat)
      modifies this`entries, this`currentIdx
      ensures idx == old(currentIdx) && currentIdx == idx + 1 && entries == old(entries)[idx := state]
    {
      entries := entries[currentIdx := state];
      currentIdx := currentIdx + 1;
      idx := currentIdx - 1;
    }

    /** `add_infant_state`: a fresh index, even if the entry is pruned at once. */
    method AddInfantState(state: S) returns (idx: nat, ghost gone: set<nat>)
      requires Valid()
      modifies this`entries, this`currentIdx, this`data
      ensures Valid() && idx == old(currentIdx) && currentIdx == idx + 1
      ensures entries == old(entries)[idx := state] - gone
      ensures Grown(old(data), data, idx, gone)
    {
      idx := CorpusAdd(state);
      FreshKey(old(entries), idx, state);
      gone := OnAdd(idx);
      GrownBounded(old(data), data, idx, gone, currentIdx);
    }

    /** `next`: the threshold is `roll` thousandths of the cached vote total. */
    method Next(roll: nat) returns (idx: nat)
      requires Valid() && currentIdx > 0 && roll < 1000
      modifies this`data
      ensures Valid() && idx in entries && data == Visited(old(data), idx)
      ensures idx == Sample(old(data), roll)
    {
      RankingNonEmpty(data, absent);
      idx := Pick(data, roll);
      assert idx in data.sortedVotes;
      VisitedLive(entries.Keys, currentIdx, data, absent, idx);
      data := Visited(data, idx);
    }

    /** `get_infant_state`. */
    method GetInfantState(roll: nat) returns (idx: nat, state: S)
      requires Valid() && currentIdx > 0 && roll < 1000
      modifies this`data
      ensures Valid() && idx in entries && state == entries[idx] && data == Visited(old(data), idx)
    {
      idx := Next(roll);
      state := entries[idx];
    }

    /** `vote`: three votes, counted in the total even if the entry is gone; then sort again. */
    method Vote(idx: nat)
      requires Valid()
      modifies this`data, this`absent
      ensures Valid() && data == Voted(old(data), idx, data.sortedVotes)
      ensures absent == old(absent) + if idx in entries then 0 else 1
    {
      var ranking := SortBy(data.sortedVotes, ByVotes(VotedTallies(data.tallies, idx)));
      VotedLive(entries.Keys, currentIdx, data, absent, idx, ranking);
      absent := if idx in entries.Keys then absent else absent + 1;
      data := Voted(data, idx, ranking);
    }
  }

  lemma RankingNonEmpty(d: VoteData, absent: nat)
    requires Sound(d, absent) && |d.tallies| >= 1
    ensures d.sortedVotes != []
  {
    var k :| k in d.tallies.Keys;
    assert k in d.sortedVotes;
  }

  function Threshold(d: VoteData, roll: nat): real { roll as real / 1000.0 * d.votesTotal as real }

  /** The entry a roll selects. */
  function Sample(d: VoteData, roll: nat): nat
    requires d.sortedVotes != [] && forall x :: x in d.sortedVotes ==> x in d.tallies
  {
    d.sortedVotes[Selected(d.sortedVotes, d.tallies, Threshold(d, roll), 0)]
  }

  /**
   * Roll `roll` of 1000 picks entry `k` of the ranking if and only if `roll` thousandths of the vote
   * total fall into that entry's interval; beyond all intervals it picks the last one.
   */
  lemma SampleIff(d: VoteData, roll: nat, k: nat)
    requires k < |d.sortedVotes| && NoRepeats(d.sortedVotes) && forall x :: x in d.sortedVotes ==> x in d.tallies
    ensures Sample(d, roll) == d.sortedVotes[k] <==>
            && 1000 * Prefix(d.sortedVotes, d.tallies, k) <= roll * d.votesTotal
            && (roll * d.votesTotal < 1000 * Prefix(d.sortedVotes, d.tallies, k + 1) || k + 1 == |d.sortedVotes|)
  {
    var threshold := Threshold(d, roll);
    ThresholdIs(d, roll, Prefix(d.sortedVotes, d.tallies, k));
    ThresholdIs(d, roll, Prefix(d.sortedVotes, d.tallies, k + 1));
    ThresholdIs(d, roll, 0);
    SelectionTiles(d.sortedVotes, d.tallies, threshold, k);
  }

  lemma ThresholdIs(d: VoteData, roll: nat, p: nat)
    ensures Threshold(d, roll) >= 0.0
    ensures p as real <= Threshold(d, roll) <==> 1000 * p <= roll * d.votesTotal
  {
    var total, thousandths := roll * d.votesTotal, (roll * d.votesTotal) as real;
    assert thousandths == roll as real * d.votesTotal as real;
    assert Threshold(d, roll) * 1000.0 == thousandths;
  }

  /** The sampling loop of `next`: a running sum of votes, and the last entry as a fallback. */
  method Pick(d: VoteData, roll: nat) returns (idx: nat)
    requires d.sortedVotes != [] && forall x :: x in d.sortedVotes ==> x in d.tallies
    ensures idx == Sample(d, roll)
  {
    var threshold, sum := Threshold(d, roll), 0;
    for i := 0 to |d.sortedVotes|
      invariant sum == Prefix(d.sortedVotes, d.tallies, i)
      invariant if i < |d.sortedVotes|
                then Sample(d, roll) == d.sortedVotes[Selected(d.sortedVotes, d.tallies, threshold, i)]
                else Sample(d, roll) == d.sortedVotes[|d.sortedVotes| - 1]
    {
      sum := sum + d.tallies[d.sortedVotes[i]].votes;
      if sum as real > threshold {
        return d.sortedVotes[i];
      }
    }
    idx := d.sortedVotes[|d.sortedVotes| - 1];
  }
}
