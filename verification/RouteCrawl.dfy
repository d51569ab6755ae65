/** The crawl that builds the pool graph, with its depth limit, and what it misses. */
module RouteCrawl {
  import opened Pieces
  import opened RouteSearch

  const MAX_HOPS := 5

  /** The pool query, the pegged tokens and the pegged hops, as the node that is asked gives them. */
  datatype Chain = Chain(pools: Token -> seq<PairData>, pegged: set<Token>, pegHop: Token -> PairData) {
    function GraphOf(hops: map<Token, seq<PairData>>): Graph { Graph(hops, pegged, pegHop) }
  }

  // ---- the whole chain ----

  ghost predicate Link(c: Chain, u: Token, w: Token) {
    exists k :: 0 <= k < |c.pools(u)| && c.pools(u)[k].next == w
  }

  /** A walk over pools of the chain through tokens that are not pegged. */
  ghost predicate Trail(c: Chain, ws: seq<Token>) {
    && |ws| > 0
    && (forall i :: 0 <= i < |ws| ==> ws[i] !in c.pegged)
    && (forall i :: 0 <= i < |ws| - 1 ==> Link(c, ws[i], ws[i + 1]))
  }

  ghost predicate OnChain(c: Chain, a: Token, b: Token) {
    exists ws :: Trail(c, ws) && ws[0] == a && ws[|ws| - 1] == b
  }

  // ---- the crawl ----

  /** What a crawl returns: the expanded tokens, all marked tokens, and those refused at the limit. */
  datatype Crawl = Crawl(hops: map<Token, seq<PairData>>, known: set<Token>, cut: set<Token>)

  /** `get_all_hops`. */
  function CrawlToken(c: Chain, token: Token, hop: nat, known: set<Token>): Crawl
    requires hop <= MAX_HOPS + 1
    decreases MAX_HOPS + 1 - hop, 1, 0
  {
    if hop > MAX_HOPS then Crawl(map[], known + {token}, {token})
    else FollowPools(c, token, hop, known, |c.pools(token)|)
  }

  /** Its loop, after the first `i` pools of `token`. */
  function FollowPools(c: Chain, token: Token, hop: nat, known: set<Token>, i: nat): Crawl
    requires hop <= MAX_HOPS && i <= |c.pools(token)|
    decreases MAX_HOPS + 1 - hop, 0, i
  {
    if i == 0 then Crawl(map[token := c.pools(token)], known + {token}, {})
    else
      var r, w := FollowPools(c, token, hop, known, i - 1), c.pools(token)[i - 1].next;
      if w in c.pegged || w in r.known then r else Merge(r, CrawlToken(c, w, hop + 1, r.known))
  }

  function Merge(r: Crawl, sub: Crawl): Crawl { Crawl(r.hops + sub.hops, sub.known, r.cut + sub.cut) }

  /** The program's recursion and loop; a token refused at the limit stays known. */
  method GetAllHops(c: Chain, token: Token, hop: nat, known: set<Token>)
    returns (hops: map<Token, seq<PairData>>, known': set<Token>, ghost cut: set<Token>)
    requires hop <= MAX_HOPS + 1
    ensures hops == CrawlToken(c, token, hop, known).hops && known' == CrawlToken(c, token, hop, known).known
    ensures cut == CrawlToken(c, token, hop, known).cut
    decreases MAX_HOPS + 1 - hop
  {
    known' := known + {token};
    if hop > MAX_HOPS {
      return map[], known', {token};
    }
    var pools := c.pools(token);
    hops, cut := map[token := pools], {};
    for i := 0 to |pools|
      invariant Crawl(hops, known', cut) == FollowPools(c, token, hop, known, i)
    {
      if pools[i].next in c.pegged || pools[i].next in known' {
        continue;
      }
      var sub, known'', subCut := GetAllHops(c, pools[i].next, hop + 1, known');
      hops, known', cut := hops + sub, known'', cut + subCut;
    }
  }

  // ---- what a crawl finds ----

  /** A walk without repeats from `token` to `u`, over tokens this crawl expanded, except perhaps the last. */
  ghost predicate Branch(c: Chain, r: Crawl, token: Token, u: Token, ws: seq<Token>) {
    && Trail(c, ws) && NoRepeats(ws) && ws[0] == token && ws[|ws| - 1] == u
    && (forall i :: 0 <= i < |ws| ==> ws[i] in r.hops.Keys + r.cut)
    && (forall i :: 0 <= i < |ws| - 1 ==> ws[i] in r.hops)
  }

  /** A branch of at least `least` and at most `most` edges leads to `u`. */
  ghost predicate Reached(c: Chain, r: Crawl, token: Token, u: Token, least: int, most: int) {
    exists ws :: Branch(c, r, token, u, ws) && least <= |ws| - 1 <= most
  }

  /** Expanded tokens are within the limit; refused ones are exactly one edge beyond it. */
  ghost predicate Depths(c: Chain, r: Crawl, token: Token, hop: nat) {
    && (forall u :: u in r.hops ==> Reached(c, r, token, u, 0, MAX_HOPS - hop))
    && (forall u :: u in r.cut ==> Reached(c, r, token, u, MAX_HOPS + 1 - hop, MAX_HOPS + 1 - hop))
  }

  /** The crawl's tokens are new, and expanded with their own pools. */
  ghost predicate Fresh(c: Chain, known: set<Token>, r: Crawl) {
    && r.known == known + r.hops.Keys + r.cut && r.hops.Keys !! known && r.cut !! known && r.cut !! r.hops.Keys
    && (forall u :: u in r.hops ==> r.hops[u] == c.pools(u) && u !in c.pegged)
  }

  /** Every successor of an expanded token is pegged or marked, for `except` up to its first `i` pools. */
  ghost predicate Covered(c: Chain, r: Crawl, except: Token, i: nat) {
    forall u, k :: u in r.hops && 0 <= k < |r.hops[u]| && (u == except ==> k < i) ==>
      r.hops[u][k].next in c.pegged || r.hops[u][k].next in r.known
  }

  /** All that a crawl from `token` at depth `hop` achieves. */
  ghost predicate Crawled(c: Chain, token: Token, hop: nat, known: set<Token>, r: Crawl) {
    && Fresh(c, known, r) && Depths(c, r, token, hop) && Covered(c, r, token, |c.pools(token)|)
    && token in r.hops.Keys + r.cut && (token in r.hops <==> hop <= MAX_HOPS)
  }

  ghost predicate Crawling(c: Chain, token: Token, hop: nat, known: set<Token>, r: Crawl, i: nat) {
    Fresh(c, known, r) && Depths(c, r, token, hop) && Covered(c, r, token, i) && token in r.hops
  }

  lemma OwnBranch(c: Chain, r: Crawl, token: Token)
    requires token !in c.pegged && token in r.hops.Keys + r.cut
    ensures Branch(c, r, token, token, [token])
  {}

  /** A branch of a part of the crawl is a branch of the whole. */
  lemma BranchGrows(c: Chain, r: Crawl, r': Crawl, token: Token, u: Token, ws: seq<Token>)
    requires Branch(c, r, token, u, ws) && r.hops.Keys <= r'.hops.Keys && r.cut <= r'.cut
    ensures Branch(c, r', token, u, ws)
  {}

  /** In front of a branch of a crawl from a pool's token. */
  lemma BranchCons(c: Chain, r: Crawl, sub: Crawl, token: Token, w: Token, u: Token, ws: seq<Token>)
    requires Branch(c, sub, w, u, ws) && token in r.hops && token !in c.pegged && Link(c, token, w)
    requires token !in sub.hops.Keys + sub.cut
    ensures Branch(c, Merge(r, sub), token, u, [token] + ws)
  {
    var vs := [token] + ws;
    forall i | 0 <= i < |vs| - 1 ensures Link(c, vs[i], vs[i + 1]) && vs[i] in Merge(r, sub).hops {
      if i > 0 {
        assert vs[i] == ws[i - 1] && vs[i + 1] == ws[i];
        assert Link(c, ws[i - 1], ws[i - 1 + 1]);
      }
    }
    forall i | 0 <= i < |ws| ensures ws[i] != token {
      assert ws[i] in sub.hops.Keys + sub.cut;
    }
  }

  lemma ReachedGrows(c: Chain, r: Crawl, r': Crawl, token: Token, u: Token, least: int, most: int)
    requires Reached(c, r, token, u, least, most) && r.hops.Keys <= r'.hops.Keys && r.cut <= r'.cut
    ensures Reached(c, r', token, u, least, most)
  {
    var ws :| Branch(c, r, token, u, ws) && least <= |ws| - 1 <= most;
    BranchGrows(c, r, r', token, u, ws);
  }

  lemma ReachedCons(c: Chain, r: Crawl, sub: Crawl, token: Token, w: Token, u: Token, least: int, most: int)
    requires Reached(c, sub, w, u, least, most) && token in r.hops && token !in c.pegged && Link(c, token, w)
    requires token !in sub.hops.Keys + sub.cut
    ensures Reached(c, Merge(r, sub), token, u, least + 1, most + 1)
  {
    var ws :| Branch(c, sub, w, u, ws) && least <= |ws| - 1 <= most;
    BranchCons(c, r, sub, token, w, u, ws);
    assert Branch(c, Merge(r, sub), token, u, [token] + ws) && |[token] + ws| == |ws| + 1;
  }

  lemma ReachedLess(c: Chain, r: Crawl, token: Token, u: Token, least: int, most: int)
    requires Reached(c, r, token, u, least, most) && least >= 0
    ensures Reached(c, r, token, u, 0, most)
  {
    var ws :| Branch(c, r, token, u, ws) && least <= |ws| - 1 <= most;
  }

  lemma DepthsMerge(c: Chain, r: Crawl, sub: Crawl, token: Token, w: Token, hop: nat)
    requires Depths(c, r, token, hop) && Depths(c, sub, w, hop + 1) && hop <= MAX_HOPS
    requires token in r.hops && token !in c.pegged && Link(c, token, w) && token !in sub.hops.Keys + sub.cut
    ensures Depths(c, Merge(r, sub), token, hop)
  {
    var m := Merge(r, sub);
    forall u | u in m.hops ensures Reached(c, m, token, u, 0, MAX_HOPS - hop) {
      ExpandedMerge(c, r, sub, token, w, hop, u);
    }
    forall u | u in m.cut ensures Reached(c, m, token, u, MAX_HOPS + 1 - hop, MAX_HOPS + 1 - hop) {
      CutMerge(c, r, sub, token, w, hop, u);
    }
  }

  lemma ExpandedMerge(c: Chain, r: Crawl, sub: Crawl, token: Token, w: Token, hop: nat, u: Token)
    requires Depths(c, r, token, hop) && Depths(c, sub, w, hop + 1) && u in Merge(r, sub).hops
    requires token in r.hops && token !in c.pegged && Link(c, token, w) && token !in sub.hops.Keys + sub.cut
    ensures Reached(c, Merge(r, sub), token, u, 0, MAX_HOPS - hop)
  {
    if u in sub.hops {
      ReachedCons(c, r, sub, token, w, u, 0, MAX_HOPS - hop - 1);
      ReachedLess(c, Merge(r, sub), token, u, 1, MAX_HOPS - hop);
    } else {
      ReachedGrows(c, r, Merge(r, sub), token, u, 0, MAX_HOPS - hop);
    }
  }

  lemma CutMerge(c: Chain, r: Crawl, sub: Crawl, token: Token, w: Token, hop: nat, u: Token)
    requires Depths(c, r, token, hop) && Depths(c, sub, w, hop + 1) && u in Merge(r, sub).cut
    requires token in r.hops && token !in c.pegged && Link(c, token, w) && token !in sub.hops.Keys + sub.cut
    ensures Reached(c, Merge(r, sub), token, u, MAX_HOPS + 1 - hop, MAX_HOPS + 1 - hop)
  {
    if u in sub.cut {
      ReachedCons(c, r, sub, token, w, u, MAX_HOPS - hop, MAX_HOPS - hop);
    } else {
      ReachedGrows(c, r, Merge(r, sub), token, u, MAX_HOPS + 1 - hop, MAX_HOPS + 1 - hop);
    }
  }

  lemma FreshMerge(c: Chain, known: set<Token>, r: Crawl, sub: Crawl)
    requires Fresh(c, known, r) && Fresh(c, r.known, sub)
    ensures Fresh(c, known, Merge(r, sub))
  {}

  lemma CoveredMerge(c: Chain, token: Token, known: set<Token>, r: Crawl, sub: Crawl, w: Token, i: nat)
    requires Fresh(c, known, r) && Fresh(c, r.known, sub) && token in r.hops && i < |c.pools(token)|
    requires Covered(c, r, token, i) && Covered(c, sub, w, |c.pools(w)|)
    requires w == c.pools(token)[i].next && w in sub.known
    ensures Covered(c, Merge(r, sub), token, i + 1)
  {
    var m := Merge(r, sub);
    forall u, k | u in m.hops && 0 <= k < |m.hops[u]| && (u == token ==> k < i + 1)
      ensures m.hops[u][k].next in c.pegged || m.hops[u][k].next in m.known
    {
      if u in sub.hops {
        assert m.hops[u] == sub.hops[u];
      } else if u != token || k < i {
        assert m.hops[u] == r.hops[u];
      }
    }
  }

  lemma CrawlingMerge(c: Chain, token: Token, hop: nat, known: set<Token>, r: Crawl, sub: Crawl, i: nat)
    requires hop <= MAX_HOPS && Crawling(c, token, hop, known, r, i) && i < |c.pools(token)| && token !in c.pegged
    requires Crawled(c, c.pools(token)[i].next, hop + 1, r.known, sub)
    ensures Crawling(c, token, hop, known, Merge(r, sub), i + 1)
  {
    var w := c.pools(token)[i].next;
    assert Link(c, token, w);
    FreshMerge(c, known, r, sub);
    CoveredMerge(c, token, known, r, sub, w, i);
    DepthsMerge(c, r, sub, token, w, hop);
  }

  lemma CrawlingSkip(c: Chain, token: Token, hop: nat, known: set<Token>, r: Crawl, i: nat)
    requires Crawling(c, token, hop, known, r, i) && i < |c.pools(token)|
    requires c.pools(token)[i].next in c.pegged || c.pools(token)[i].next in r.known
    ensures Crawling(c, token, hop, known, r, i + 1)
  {}

  lemma CrawlingStart(c: Chain, token: Token, hop: nat, known: set<Token>)
    requires hop <= MAX_HOPS && token !in c.pegged && token !in known
    ensures Crawling(c, token, hop, known, FollowPools(c, token, hop, known, 0), 0)
  {
    OwnBranch(c, FollowPools(c, token, hop, known, 0), token);
  }

  lemma {:induction false} CrawlTokenDoes(c: Chain, token: Token, hop: nat, known: set<Token>)
    requires hop <= MAX_HOPS + 1 && token !in c.pegged && token !in known
    ensures Crawled(c, token, hop, known, CrawlToken(c, token, hop, known))
    decreases MAX_HOPS + 1 - hop, 1, 0
  {
    if hop > MAX_HOPS {
      var r := CrawlToken(c, token, hop, known);
      OwnBranch(c, r, token);
    } else {
      FollowPoolsDoes(c, token, hop, known, |c.pools(token)|);
    }
  }

  lemma {:induction false} FollowPoolsDoes(c: Chain, token: Token, hop: nat, known: set<Token>, i: nat)
    requires hop <= MAX_HOPS && token !in c.pegged && token !in known && i <= |c.pools(token)|
    ensures Crawling(c, token, hop, known, FollowPools(c, token, hop, known, i), i)
    decreases MAX_HOPS + 1 - hop, 0, i
  {
    if i == 0 {
      CrawlingStart(c, token, hop, known);
    } else {
      FollowPoolsDoes(c, token, hop, known, i - 1);
      var r, w := FollowPools(c, token, hop, known, i - 1), c.pools(token)[i - 1].next;
      if w in c.pegged || w in r.known {
        CrawlingSkip(c, token, hop, known, r, i - 1);
      } else {
        FollowInto(c, token, hop, known, r, i - 1);
      }
    }
  }

  /** One pool more, whose token is crawled. */
  lemma {:induction false} FollowInto(c: Chain, token: Token, hop: nat, known: set<Token>, r: Crawl, i: nat)
    requires hop <= MAX_HOPS && token !in c.pegged && i < |c.pools(token)| && Crawling(c, token, hop, known, r, i)
    requires c.pools(token)[i].next !in c.pegged && c.pools(token)[i].next !in r.known
    ensures Crawling(c, token, hop, known, Merge(r, CrawlToken(c, c.pools(token)[i].next, hop + 1, r.known)), i + 1)
    decreases MAX_HOPS + 1 - hop, 0, 0
  {
    var w := c.pools(token)[i].next;
    CrawlTokenDoes(c, w, hop + 1, r.known);
    CrawlingMerge(c, token, hop, known, r, CrawlToken(c, w, hop + 1, r.known), i);
  }

  // ---- what it misses ----

  /** No walk without repeats from `token` has more edges than the limit. */
  ghost predicate Shallow(c: Chain, token: Token) {
    forall ws: seq<Token> :: Trail(c, ws) && NoRepeats(ws) && ws[0] == token ==> |ws| - 1 <= MAX_HOPS
  }

  lemma BranchOnChain(c: Chain, token: Token, r: Crawl, u: Token, least: int, most: int)
    requires Reached(c, r, token, u, least, most)
    ensures OnChain(c, token, u)
  {
    var ws :| Branch(c, r, token, u, ws) && least <= |ws| - 1 <= most;
  }

  lemma {:induction false} CoveredHoldsTrail(c: Chain, known: set<Token>, r: Crawl, ws: seq<Token>)
    requires Fresh(c, known, r) && r.cut == {} && known == {} && Trail(c, ws) && ws[0] in r.hops
    requires forall u, k :: u in r.hops && 0 <= k < |r.hops[u]| ==>
             r.hops[u][k].next in c.pegged || r.hops[u][k].next in r.known
    ensures ws[|ws| - 1] in r.hops
  {
    if |ws| > 1 {
      assert Link(c, ws[0], ws[1]);
      var k :| 0 <= k < |c.pools(ws[0])| && c.pools(ws[0])[k].next == ws[1];
      assert r.hops[ws[0]][k].next == ws[1];
      var tail := ws[1..];
      forall i | 0 <= i < |tail| - 1 ensures Link(c, tail[i], tail[i + 1]) {
        assert Link(c, ws[i + 1], ws[i + 1 + 1]);
      }
      CoveredHoldsTrail(c, known, r, tail);
    }
  }

  /** The crawl expands every token of the chain that can be reached if and only if it refuses none. */
  lemma NothingMissedIff(c: Chain, token: Token)
    requires token !in c.pegged
    ensures var r := CrawlToken(c, token, 0, {});
            (forall u :: u in r.hops <==> OnChain(c, token, u)) <==> r.cut == {}
  {
    CrawlTokenDoes(c, token, 0, {});
    var r := CrawlToken(c, token, 0, {});
    forall u | u in r.hops ensures OnChain(c, token, u) {
      BranchOnChain(c, token, r, u, 0, MAX_HOPS);
    }
    if r.cut == {} {
      forall u | OnChain(c, token, u) ensures u in r.hops {
        var ws :| Trail(c, ws) && ws[0] == token && ws[|ws| - 1] == u;
        CoveredHoldsTrail(c, {}, r, ws);
      }
    } else {
      var u :| u in r.cut;
      BranchOnChain(c, token, r, u, MAX_HOPS + 1, MAX_HOPS + 1);
    }
  }

  /** On a chain without long walks the crawl misses nothing. */
  lemma ShallowMissesNothing(c: Chain, token: Token)
    requires token !in c.pegged && Shallow(c, token)
    ensures var r := CrawlToken(c, token, 0, {});
            r.cut == {} && forall u :: u in r.hops <==> OnChain(c, token, u)
  {
    CrawlTokenDoes(c, token, 0, {});
    var r := CrawlToken(c, token, 0, {});
    if r.cut != {} {
      CutMeansDeep(c, token, r);
    }
    NothingMissedIff(c, token);
  }

  lemma CutMeansDeep(c: Chain, token: Token, r: Crawl)
    requires Depths(c, r, token, 0) && r.cut != {}
    ensures !Shallow(c, token)
  {
    var u :| u in r.cut;
    assert Reached(c, r, token, u, MAX_HOPS + 1, MAX_HOPS + 1);
    var ws :| Branch(c, r, token, u, ws) && MAX_HOPS + 1 <= |ws| - 1 <= MAX_HOPS + 1;
  }

  // ---- every order of the pools ----

  /** The same chain, with the pools of each token in any order. */
  ghost predicate Reordered(c: Chain, d: Chain) {
    && c.pegged == d.pegged && c.pegHop == d.pegHop
    && forall t :: multiset(c.pools(t)) == multiset(d.pools(t))
  }

  lemma SameLinks(c: Chain, d: Chain, u: Token, w: Token)
    requires Reordered(c, d) && Link(d, u, w)
    ensures Link(c, u, w)
  {
    var k :| 0 <= k < |d.pools(u)| && d.pools(u)[k].next == w;
    var pool := d.pools(u)[k];
    assert pool in multiset(d.pools(u));
    assert pool in c.pools(u);
  }

  lemma ReorderedShallow(c: Chain, d: Chain, token: Token)
    requires Reordered(c, d) && Shallow(c, token)
    ensures Shallow(d, token)
  {
    forall ws: seq<Token> | Trail(d, ws) && NoRepeats(ws) && ws[0] == token ensures |ws| - 1 <= MAX_HOPS {
      forall i | 0 <= i < |ws| - 1 ensures Link(c, ws[i], ws[i + 1]) {
        SameLinks(c, d, ws[i], ws[i + 1]);
      }
    }
  }

  /** Refused tokens stay refused as more pools are followed. */
  lemma {:induction false} CutGrows(c: Chain, token: Token, hop: nat, known: set<Token>, i: nat, j: nat)
    requires hop <= MAX_HOPS && i <= j <= |c.pools(token)|
    ensures FollowPools(c, token, hop, known, i).cut <= FollowPools(c, token, hop, known, j).cut
  {
    if i < j {
      CutGrows(c, token, hop, known, i, j - 1);
    }
  }

  /** The first pools of the tokens on `ws` follow it. */
  ghost predicate Leads(c: Chain, ws: seq<Token>) {
    forall i :: 0 <= i < |ws| - 1 ==> |c.pools(ws[i])| > 0 && c.pools(ws[i])[0].next == ws[i + 1]
  }

  /** A crawl that is led along a long walk refuses its last token. */
  lemma {:induction false} LedAstray(c: Chain, ws: seq<Token>, i: nat)
    requires Leads(c, ws) && NoRepeats(ws) && |ws| == MAX_HOPS + 2 && i < |ws|
    requires forall k :: 0 <= k < |ws| ==> ws[k] !in c.pegged
    ensures ws[MAX_HOPS + 1] in CrawlToken(c, ws[i], i, Elements(ws[..i])).cut
    decreases |ws| - i
  {
    if i <= MAX_HOPS {
      LedAstray(c, ws, i + 1);
      var known, w := Elements(ws[..i]), ws[i + 1];
      assert ws[..i + 1] == ws[..i] + [ws[i]];
      assert Elements(ws[..i + 1]) == known + {ws[i]};
      NotBefore(ws, i + 1);
      FirstPool(c, ws[i], i, known, w);
      CutGrows(c, ws[i], i, known, 1, |c.pools(ws[i])|);
    }
  }

  lemma NotBefore(ws: seq<Token>, i: nat)
    requires NoRepeats(ws) && i < |ws|
    ensures ws[i] !in Elements(ws[..i])
  {
    assert forall k :: 0 <= k < i ==> ws[..i][k] == ws[k];
  }

  lemma FirstPool(c: Chain, token: Token, hop: nat, known: set<Token>, w: Token)
    requires hop <= MAX_HOPS && |c.pools(token)| > 0 && c.pools(token)[0].next == w
    requires w !in c.pegged && w !in known + {token}
    ensures CrawlToken(c, w, hop + 1, known + {token}).cut <= FollowPools(c, token, hop, known, 1).cut
  {
    assert FollowPools(c, token, hop, known, 0) == Crawl(map[token := c.pools(token)], known + {token}, {});
  }

  // ---- putting a walk in front ----

  function Front(s: seq<PairData>, k: nat): (t: seq<PairData>)
    requires k < |s|
    ensures multiset(t) == multiset(s) && |t| > 0 && t[0] == s[k]
  {
    assert s == s[..k] + [s[k]] + s[k + 1..];
    [s[k]] + s[..k] + s[k + 1..]
  }

  /** A pool that leads to `w`, in front of the others. */
  ghost function Favour(s: seq<PairData>, w: Token): (t: seq<PairData>)
    ensures multiset(t) == multiset(s)
    ensures (exists k :: 0 <= k < |s| && s[k].next == w) ==> |t| > 0 && t[0].next == w
  {
    if k :| 0 <= k < |s| && s[k].next == w then Front(s, k) else s
  }

  /** The token after `t` on `ws`, and `t` itself at the end and elsewhere. */
  function After(ws: seq<Token>, t: Token): (w: Token)
    ensures NoRepeats(ws) ==> forall i :: 0 <= i < |ws| - 1 && ws[i] == t ==> w == ws[i + 1]
  {
    if |ws| < 2 then t
    else if ws[0] == t then ws[1]
    else
      assert forall i :: 1 <= i < |ws| ==> ws[i] == ws[1..][i - 1];
      After(ws[1..], t)
  }

  ghost function Guided(c: Chain, ws: seq<Token>): (d: Chain)
    ensures Reordered(c, d) && forall t :: d.pools(t) == Favour(c.pools(t), After(ws, t))
  {
    Chain((t: Token) => Favour(c.pools(t), After(ws, t)), c.pegged, c.pegHop)
  }

  lemma GuidedLeads(c: Chain, ws: seq<Token>)
    requires Trail(c, ws) && NoRepeats(ws)
    ensures Leads(Guided(c, ws), ws)
  {
    forall i | 0 <= i < |ws| - 1
      ensures |Guided(c, ws).pools(ws[i])| > 0 && Guided(c, ws).pools(ws[i])[0].next == ws[i + 1]
    {
      assert Link(c, ws[i], ws[i + 1]) && After(ws, ws[i]) == ws[i + 1];
    }
  }

  /** Along a walk that is too long some order of the pools makes the crawl refuse a token. */
  lemma DeepMisses(c: Chain, token: Token) returns (d: Chain)
    requires !Shallow(c, token)
    ensures Reordered(c, d) && CrawlToken(d, token, 0, {}).cut != {}
  {
    var long: seq<Token> :| Trail(c, long) && NoRepeats(long) && long[0] == token && |long| - 1 > MAX_HOPS;
    var ws := long[..MAX_HOPS + 2];
    forall i | 0 <= i < |ws| - 1 ensures Link(c, ws[i], ws[i + 1]) {
      assert Link(c, long[i], long[i + 1]);
    }
    assert Trail(c, ws) && NoRepeats(ws);
    d := Guided(c, ws);
    GuidedLeads(c, ws);
    LedAstray(d, ws, 0);
    assert ws[..0] == [] && Elements<Token>([]) == {};
  }

  /**
   * No walk without repeats from `token` is longer than the limit if and only if the crawl refuses
   * nothing, whatever the order in which the node lists the pools.
   */
  lemma ShallowIff(c: Chain, token: Token)
    requires token !in c.pegged
    ensures Shallow(c, token) <==> forall d :: Reordered(c, d) ==> CrawlToken(d, token, 0, {}).cut == {}
  {
    if Shallow(c, token) {
      forall d | Reordered(c, d) ensures CrawlToken(d, token, 0, {}).cut == {} {
        ReorderedShallow(c, d, token);
        ShallowMissesNothing(d, token);
      }
    } else {
      var d := DeepMisses(c, token);
    }
  }

  // ---- a token one hop away that is never expanded ----

  function PoolTo(t: Token): PairData { PairData(0, 0, t) }

  /** 0, 1, ..., 6 in a line, a second pool from 0 straight to 6, and a pool from 6 to the pegged token 9. */
  function LinePools(t: Token): seq<PairData> {
    if t == 0 then [PoolTo(1), PoolTo(6)] else if t < 6 then [PoolTo(t + 1)] else [PoolTo(9)]
  }

  const LINE := Chain(LinePools, {9}, PoolTo)

  function Below(k: nat): (s: set<nat>)
    ensures forall i :: i in s <==> 0 <= i < k
  {
    if k == 0 then {} else Below(k - 1) + {k - 1}
  }

  ghost predicate IsLine(c: Chain) {
    && c.pegged == {9}
    && |c.pools(0)| == 2 && c.pools(0)[0].next == 1 && c.pools(0)[1].next == 6
    && forall t :: 1 <= t < 6 ==> |c.pools(t)| == 1 && c.pools(t)[0].next == t + 1
  }

  function LineHops(c: Chain, k: nat, n: nat): map<Token, seq<PairData>> { map i | k <= i < n :: c.pools(i) }

  lemma {:induction false} LineCrawl(c: Chain, k: nat, n: nat)
    requires IsLine(c) && 1 <= k <= n == MAX_HOPS + 1
    ensures CrawlToken(c, k, k, Below(k)) == Crawl(LineHops(c, k, n), Below(n + 1), {n})
    decreases n - k
  {
    if k == n {
      assert LineHops(c, n, n) == map[];
    } else {
      LineCrawl(c, k + 1, n);
      LineStep(c, k, n);
    }
  }

  lemma LineStep(c: Chain, k: nat, n: nat)
    requires IsLine(c) && 1 <= k < n == MAX_HOPS + 1
    requires CrawlToken(c, k + 1, k + 1, Below(k + 1)) == Crawl(LineHops(c, k + 1, n), Below(n + 1), {n})
    ensures CrawlToken(c, k, k, Below(k)) == Crawl(LineHops(c, k, n), Below(n + 1), {n})
  {
    assert Below(k) + {k} == Below(k + 1);
    OnePool(c, k, k, Below(k), k + 1);
    MergeLine(c, k, n, Below(k + 1), Below(n + 1), {n});
  }

  lemma MergeLine(c: Chain, k: nat, n: nat, known: set<Token>, known': set<Token>, cut: set<Token>)
    requires k < n
    ensures Merge(Crawl(map[k := c.pools(k)], known, {}), Crawl(LineHops(c, k + 1, n), known', cut)) ==
            Crawl(LineHops(c, k, n), known', cut)
  {
    assert map[k := c.pools(k)] + LineHops(c, k + 1, n) == LineHops(c, k, n);
  }

  lemma OnePool(c: Chain, token: Token, hop: nat, known: set<Token>, w: Token)
    requires hop <= MAX_HOPS && |c.pools(token)| == 1 && c.pools(token)[0].next == w && w !in c.pegged
             && w !in known + {token}
    ensures CrawlToken(c, token, hop, known) ==
            Merge(Crawl(map[token := c.pools(token)], known + {token}, {}), CrawlToken(c, w, hop + 1, known + {token}))
  {
    assert FollowPools(c, token, hop, known, 0) == Crawl(map[token := c.pools(token)], known + {token}, {});
  }

  /**
   * From 0 the crawl meets 6 at the end of the line, six edges deep, refuses it and keeps it marked;
   * so it is never expanded, although a pool leads to it directly, and its way out to 9 is lost.
   */
  lemma NearTokenMissed()
    ensures var r := CrawlToken(LINE, 0, 0, {});
            && r.cut == {6} && 6 !in r.hops
            && Link(LINE, 0, 6) && LINE.pools(6)[0].next in LINE.pegged
  {
    assert IsLine(LINE);
    LineMissesSix(LINE);
    assert LINE.pools(0)[1].next == 6;
  }

  lemma LineMissesSix(c: Chain)
    requires IsLine(c)
    ensures CrawlToken(c, 0, 0, {}).cut == {6} && 6 !in CrawlToken(c, 0, 0, {}).hops
  {
    LineCrawl(c, 1, 6);
    assert {} + {0} == Below(1);
    var r := FollowPools(c, 0, 0, {}, 1);
    assert r == Merge(FollowPools(c, 0, 0, {}, 0), CrawlToken(c, 1, 1, Below(1)));
    assert FollowPools(c, 0, 0, {}, 2) == r;
  }

  // ---- the routes of the chain ----

  /** Routes and ways out of the whole chain correspond one to one. */
  ghost predicate CompleteOnChain(c: Chain, token: Token, routes: seq<seq<PairData>>, exits: seq<Exit>) {
    && |routes| == |exits| && NoRepeats(exits)
    && forall e: Exit :: e in Elements(exits) <==>
         OnChain(c, token, e.token) && e.index < |c.pools(e.token)| && c.pools(e.token)[e.index].next in c.pegged
  }

  /** Without refused tokens, complete for the crawled graph means complete for the chain. */
  lemma CompleteWhenNothingCut(c: Chain, token: Token, r: Crawl, routes: seq<seq<PairData>>, exits: seq<Exit>)
    requires token !in c.pegged && r == CrawlToken(c, token, 0, {}) && r.cut == {}
    requires Complete(c.GraphOf(r.hops), token, routes, exits)
    ensures CompleteOnChain(c, token, routes, exits)
  {
    NothingMissedIff(c, token);
    CrawlTokenDoes(c, token, 0, {});
    var g := c.GraphOf(r.hops);
    forall e: Exit ensures IsExit(g, e) && Reachable(g, token, e.token) <==>
                     OnChain(c, token, e.token) && e.index < |c.pools(e.token)|
                         && c.pools(e.token)[e.index].next in c.pegged {
      if e.token in r.hops {
        ExpandedReachable(c, token, r, e.token);
      }
    }
  }

  /** Every expanded token is reachable in the crawled graph. */
  lemma ExpandedReachable(c: Chain, token: Token, r: Crawl, u: Token)
    requires Fresh(c, {}, r) && Depths(c, r, token, 0) && u in r.hops
    ensures Reachable(c.GraphOf(r.hops), token, u)
  {
    assert Reached(c, r, token, u, 0, MAX_HOPS);
    var ws :| Branch(c, r, token, u, ws) && 0 <= |ws| - 1 <= MAX_HOPS;
    var g := c.GraphOf(r.hops);
    forall i | 0 <= i < |ws| - 1 ensures Edge(g, ws[i], ws[i + 1]) {
      assert Link(c, ws[i], ws[i + 1]);
      var k :| 0 <= k < |c.pools(ws[i])| && c.pools(ws[i])[k].next == ws[i + 1];
      assert g.hops[ws[i]][k].next == ws[i + 1];
    }
    assert Walk(g, ws);
  }

  /**
   * `find_path_subgraph`, without the reserves it attaches afterwards: the routes are complete for the
   * crawled graph, and for the whole chain when it has no long walks.
   */
  method FindPathSubgraph(c: Chain, token: Token)
    returns (routes: seq<seq<PairData>>, ghost r: Crawl, ghost exits: seq<Exit>)
    ensures token in c.pegged ==> routes == [[c.pegHop(token)]]
    ensures token !in c.pegged ==> r == CrawlToken(c, token, 0, {}) && Complete(c.GraphOf(r.hops), token, routes, exits)
    ensures token !in c.pegged && Shallow(c, token) ==> CompleteOnChain(c, token, routes, exits)
  {
    if token in c.pegged {
      return [[c.pegHop(token)]], Crawl(map[], {}, {}), [];
    }
    var hops, known, cut := GetAllHops(c, token, 0, {});
    r := Crawl(hops, known, cut);
    var visited;
    routes, visited, exits := FindRoutes(c.GraphOf(hops), token);
    if Shallow(c, token) {
      ShallowMissesNothing(c, token);
      CompleteWhenNothingCut(c, token, r, routes, exits);
    }
  }
}
