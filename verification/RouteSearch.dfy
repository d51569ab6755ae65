/** Discovery of swap routes from a token to the pegged tokens. */
module RouteSearch {
  import opened Pieces

  type Token = nat

  /** One pool as seen from `token`: the pool leads to `next`. */
  datatype PairData = PairData(pair: nat, token: Token, next: Token)

  /** The explored graph: the pools of each expanded token, and the pegged tokens. */
  datatype Graph = Graph(hops: map<Token, seq<PairData>>, pegged: set<Token>, pegHop: Token -> PairData)

  ghost predicate Edge(g: Graph, u: Token, w: Token) {
    u in g.hops && exists k :: 0 <= k < |g.hops[u]| && g.hops[u][k].next == w
  }

  /** A walk through non-pegged tokens. */
  ghost predicate Walk(g: Graph, ws: seq<Token>) {
    && |ws| > 0
    && (forall i :: 0 <= i < |ws| ==> ws[i] !in g.pegged)
    && (forall i :: 0 <= i < |ws| - 1 ==> Edge(g, ws[i], ws[i + 1]))
  }

  ghost predicate Reachable(g: Graph, a: Token, b: Token) {
    exists ws :: Walk(g, ws) && ws[0] == a && ws[|ws| - 1] == b
  }

  /** All tokens that occur in the graph, and the start. */
  ghost function Universe(g: Graph, start: Token): set<Token> {
    {start} + g.hops.Keys + set u, k | u in g.hops && 0 <= k < |g.hops[u]| :: g.hops[u][k].next
  }

  /** Every non-pegged successor of a token of `s` is in `v`. */
  ghost predicate Closed(g: Graph, s: set<Token>, v: set<Token>) {
    forall u, k :: u in s && u in g.hops && 0 <= k < |g.hops[u]| ==>
        g.hops[u][k].next in g.pegged || g.hops[u][k].next in v
  }

  /** A closed set that contains the start contains everything reachable. */
  lemma {:induction false} ClosedHoldsWalk(g: Graph, v: set<Token>, ws: seq<Token>)
    requires Closed(g, v, v) && Walk(g, ws) && ws[0] in v
    ensures ws[|ws| - 1] in v
  {
    if |ws| > 1 {
      assert Edge(g, ws[0], ws[1]);
      var tail := ws[1..];
      forall i | 0 <= i < |tail| - 1 ensures Edge(g, tail[i], tail[i + 1]) {
        assert Edge(g, ws[i + 1], ws[i + 2]);
      }
      ClosedHoldsWalk(g, v, tail);
    }
  }

  // ---- routes ----

  /** The tokens a path passes, from `start` on. */
  function Tokens(start: Token, path: seq<PairData>): (ts: seq<Token>)
    ensures |ts| == |path| + 1
  {
    [start] + seq(|path|, i requires 0 <= i < |path| => path[i].next)
  }

  lemma TokensSnoc(start: Token, path: seq<PairData>, hop: PairData)
    ensures Tokens(start, path + [hop]) == Tokens(start, path) + [hop.next]
  {}

  /** Consecutive hops start where the one before ended. */
  ghost predicate Connected(g: Graph, ts: seq<Token>, path: seq<PairData>)
    requires |ts| == |path| + 1
  {
    forall i :: 0 <= i < |path| ==> ts[i] in g.hops && path[i] in g.hops[ts[i]]
  }

  /** An occurrence of an edge from an expanded token to a pegged one. */
  datatype Exit = Exit(token: Token, index: nat)

  ghost predicate IsExit(g: Graph, e: Exit) {
    e.token in g.hops && e.index < |g.hops[e.token]| && g.hops[e.token][e.index].next in g.pegged
  }

  /** A route for exit `e`: a connected chain of distinct tokens over that edge, then the pegged hop. */
  ghost predicate RouteFor(g: Graph, start: Token, r: seq<PairData>, e: Exit) {
    && |r| >= 2 && IsExit(g, e)
    && var path := r[..|r| - 1];
       var ts := Tokens(start, path);
       && Connected(g, ts, path) && NoRepeats(ts)
       && (forall i :: 0 <= i < |path| ==> ts[i] !in g.pegged)
       && e.token == ts[|path| - 1]
       && path[|path| - 1] == g.hops[e.token][e.index]
       && r[|r| - 1] == g.pegHop(path[|path| - 1].next)
  }

  /** The exits of the tokens in `s`. */
  ghost function ExitsOf(g: Graph, s: set<Token>): set<Exit> {
    set u, k | u in s && u in g.hops && 0 <= k < |g.hops[u]| && g.hops[u][k].next in g.pegged :: Exit(u, k)
  }

  /** The exits of `u` among its first `n` pools. */
  ghost function ExitsUpTo(g: Graph, u: Token, n: nat): set<Exit> {
    set k | 0 <= k < n && u in g.hops && k < |g.hops[u]| && g.hops[u][k].next in g.pegged :: Exit(u, k)
  }

  // ---- what a search below one token achieves ----

  /** From `v0` and `x0`, the search below `from` went to the visited set `v` and the used exits `x`. */
  ghost predicate Explored(g: Graph, from: Token, v0: set<Token>, v: set<Token>, x0: set<Exit>, x: set<Exit>) {
    && v0 + {from} <= v && v !! g.pegged
    && Closed(g, v - v0, v)
    && (forall u :: u in v - v0 ==> Reachable(g, from, u))
    && x == x0 + ExitsOf(g, v - v0)
  }

  /** The same, with only the first `i` pools of `from` done. */
  ghost predicate Partial(g: Graph, from: Token, i: nat, v0: set<Token>, v: set<Token>, x0: set<Exit>, x: set<Exit>) {
    && from in g.hops && i <= |g.hops[from]| && from !in v0
    && v0 + {from} <= v && v !! g.pegged
    && Closed(g, v - v0 - {from}, v)
    && (forall k :: 0 <= k < i ==> g.hops[from][k].next in g.pegged || g.hops[from][k].next in v)
    && (forall u :: u in v - v0 ==> Reachable(g, from, u))
    && x == x0 + ExitsOf(g, v - v0 - {from}) + ExitsUpTo(g, from, i)
  }

  lemma ReachesItself(g: Graph, u: Token)
    requires u !in g.pegged
    ensures Reachable(g, u, u)
  {
    assert Walk(g, [u]) && [u][0] == u;
  }

  lemma PartialStart(g: Graph, from: Token, v0: set<Token>, x0: set<Exit>)
    requires from in g.hops && from !in v0 && from !in g.pegged && v0 !! g.pegged
    ensures Partial(g, from, 0, v0, v0 + {from}, x0, x0)
  {
    ReachesItself(g, from);
    assert v0 + {from} - v0 - {from} == {};
    assert ExitsOf(g, {}) == {} && ExitsUpTo(g, from, 0) == {};
  }

  lemma PartialSkip(g: Graph, from: Token, i: nat, v0: set<Token>, v: set<Token>, x0: set<Exit>, x: set<Exit>)
    requires Partial(g, from, i, v0, v, x0, x) && i < |g.hops[from]| && g.hops[from][i].next in v
    ensures Partial(g, from, i + 1, v0, v, x0, x)
  {
    assert ExitsUpTo(g, from, i + 1) == ExitsUpTo(g, from, i);
  }

  lemma PartialExit(g: Graph, from: Token, i: nat, v0: set<Token>, v: set<Token>, x0: set<Exit>, x: set<Exit>)
    requires Partial(g, from, i, v0, v, x0, x) && i < |g.hops[from]| && g.hops[from][i].next in g.pegged
    ensures Partial(g, from, i + 1, v0, v, x0, x + {Exit(from, i)})
  {
    assert ExitsUpTo(g, from, i + 1) == ExitsUpTo(g, from, i) + {Exit(from, i)};
  }

  lemma {:induction false} ReachableThrough(g: Graph, a: Token, b: Token, ws: seq<Token>)
    requires Edge(g, a, b) && a !in g.pegged && Walk(g, ws) && ws[0] == b
    ensures Reachable(g, a, ws[|ws| - 1])
  {
    var vs := [a] + ws;
    forall i | 0 <= i < |vs| - 1 ensures Edge(g, vs[i], vs[i + 1]) {
      if i > 0 {
        assert Edge(g, ws[i - 1], ws[i - 1 + 1]);
      }
    }
    assert Walk(g, vs) && vs[|vs| - 1] == ws[|ws| - 1];
  }

  lemma PartialCall(g: Graph, from: Token, i: nat, v0: set<Token>, v: set<Token>, x0: set<Exit>, x: set<Exit>,
      w: Token, v': set<Token>, x': set<Exit>)
    requires Partial(g, from, i, v0, v, x0, x) && i < |g.hops[from]| && g.hops[from][i].next == w && from !in g.pegged
    requires Explored(g, w, v, v', x, x')
    ensures Partial(g, from, i + 1, v0, v', x0, x')
  {
    assert Edge(g, from, w);
    forall u | u in v' - v0 ensures Reachable(g, from, u) {
      if u !in v {
        assert u in v' - v;
        var ws :| Walk(g, ws) && ws[0] == w && ws[|ws| - 1] == u;
        ReachableThrough(g, from, w, ws);
      }
    }
    assert v' - v0 - {from} == (v - v0 - {from}) + (v' - v);
    ExitsUnion(g, v - v0 - {from}, v' - v);
    assert w in v';
    assert ExitsUpTo(g, from, i + 1) == ExitsUpTo(g, from, i);
  }

  lemma ExitsUnion(g: Graph, a: set<Token>, b: set<Token>)
    ensures ExitsOf(g, a + b) == ExitsOf(g, a) + ExitsOf(g, b)
  {}

  lemma PartialDone(g: Graph, from: Token, v0: set<Token>, v: set<Token>, x0: set<Exit>, x: set<Exit>)
    requires from in g.hops && Partial(g, from, |g.hops[from]|, v0, v, x0, x)
    ensures Explored(g, from, v0, v, x0, x)
  {
    assert v - v0 == (v - v0 - {from}) + {from};
    ExitsUnion(g, v - v0 - {from}, {from});
    assert ExitsOf(g, {from}) == ExitsUpTo(g, from, |g.hops[from]|);
  }

  /** A token without pools is explored by visiting it. */
  lemma ExploredLeaf(g: Graph, from: Token, v0: set<Token>, x0: set<Exit>)
    requires from !in g.hops && from !in v0 && from !in g.pegged && v0 !! g.pegged
    ensures Explored(g, from, v0, v0 + {from}, x0, x0)
  {
    ReachesItself(g, from);
    assert v0 + {from} - v0 == {from};
    assert ExitsOf(g, {from}) == {};
  }

  /** An exit of an unfinished token that has not been used yet. */
  lemma FreshExit(g: Graph, from: Token, i: nat, v0: set<Token>, v: set<Token>, x0: set<Exit>, x: set<Exit>)
    requires Partial(g, from, i, v0, v, x0, x) && forall e :: e in x0 ==> e.token in v0
    ensures Exit(from, i) !in x
    ensures forall e :: e in x ==> e.token in v
  {}

  // ---- the stack ----

  /** The stack is a chain of distinct tokens; all but the last are visited and not pegged. */
  ghost predicate Stack(g: Graph, ts: seq<Token>, path: seq<PairData>, visited: set<Token>) {
    && |ts| == |path| + 1 && Connected(g, ts, path) && NoRepeats(ts)
    && forall i :: 0 <= i < |path| ==> ts[i] in visited && ts[i] !in g.pegged
  }

  lemma StackPush(g: Graph, ts: seq<Token>, path: seq<PairData>, visited: set<Token>, hop: PairData)
    requires Stack(g, ts, path, visited)
    requires ts[|path|] in visited && ts[|path|] !in g.pegged && ts[|path|] in g.hops && hop in g.hops[ts[|path|]]
    requires hop.next !in visited
    ensures Stack(g, ts + [hop.next], path + [hop], visited)
  {}

  lemma StackPop(g: Graph, ts: seq<Token>, path: seq<PairData>, hop: PairData, visited: set<Token>)
    requires |ts| == |path| + 1 && Stack(g, ts + [hop.next], path + [hop], visited)
    ensures Stack(g, ts, path, visited)
  {
    var longer, tokens := path + [hop], ts + [hop.next];
    assert forall i :: 0 <= i < |path| ==> longer[i] == path[i] && tokens[i] == ts[i];
    assert forall i :: 0 <= i < |ts| ==> tokens[i] == ts[i];
  }

  /** Each route is sound for its exit, and no exit is used twice. */
  ghost predicate RoutesOk(g: Graph, start: Token, routes: seq<seq<PairData>>, exits: seq<Exit>) {
    && |routes| == |exits| && NoRepeats(exits)
    && forall i :: 0 <= i < |routes| ==> RouteFor(g, start, routes[i], exits[i])
  }

  lemma RouteFromStack(g: Graph, start: Token, path: seq<PairData>, visited: set<Token>, e: Exit)
    requires path != [] && Stack(g, Tokens(start, path), path, visited) && IsExit(g, e)
    requires e.token == Tokens(start, path)[|path| - 1] && path[|path| - 1] == g.hops[e.token][e.index]
    ensures RouteFor(g, start, path + [g.pegHop(path[|path| - 1].next)], e)
  {
    var r := path + [g.pegHop(path[|path| - 1].next)];
    assert r[..|r| - 1] == path;
  }

  lemma RoutesSnoc(g: Graph, start: Token, routes: seq<seq<PairData>>, exits: seq<Exit>, r: seq<PairData>, e: Exit)
    requires RoutesOk(g, start, routes, exits) && RouteFor(g, start, r, e) && e !in Elements(exits)
    ensures RoutesOk(g, start, routes + [r], exits + [e]) && Elements(exits + [e]) == Elements(exits) + {e}
  {
    ElementsSnoc(exits, e);
    assert forall i :: 0 <= i < |exits| ==> exits[i] in Elements(exits);
  }

  lemma EmitKeepsRoutes(g: Graph, start: Token, path: seq<PairData>, visited: set<Token>, routes: seq<seq<PairData>>,
      exits: seq<Exit>, e: Exit, r: seq<PairData>)
    requires path != [] && Stack(g, Tokens(start, path), path, visited) && RoutesOk(g, start, routes, exits)
    requires IsExit(g, e) && e !in Elements(exits)
    requires e.token == Tokens(start, path)[|path| - 1] && path[|path| - 1] == g.hops[e.token][e.index]
    requires r == path + [g.pegHop(Tokens(start, path)[|path|])]
    ensures RoutesOk(g, start, routes + [r], exits + [e]) && Elements(exits + [e]) == Elements(exits) + {e}
  {
    assert Tokens(start, path)[|path|] == path[|path| - 1].next;
    RouteFromStack(g, start, path, visited, e);
    RoutesSnoc(g, start, routes, exits, r, e);
  }

  /** The depth-first search with its shared path stack, visited set and route list. */
  class Search {
    const g: Graph
    const start: Token
    var path: seq<PairData>
    var visited: set<Token>
    var routes: seq<seq<PairData>>
    /** For each route, the edge occurrence it leaves through. */
    ghost var exits: seq<Exit>

    constructor (g: Graph, start: Token)
      ensures this.g == g && this.start == start
      ensures path == [] && visited == {} && routes == [] && exits == []
    {
      this.g, this.start := g, start;
      path, visited, routes, exits := [], {}, [], [];
    }

    /** The token on top of the stack. */
    function Top(): Token
      reads this
    {
      Tokens(start, path)[|path|]
    }

    ghost predicate Ready()
      reads this
    {
      && RoutesOk(g, start, routes, exits) && Stack(g, Tokens(start, path), path, visited) && visited !! g.pegged
      && forall e :: e in Elements(exits) ==> e.token in visited
    }

    /** The pegged case of `dfs`: the current path, extended by the pegged hop, is a route. */
    method Emit(ghost e: Exit)
      requires path != [] && Stack(g, Tokens(start, path), path, visited) && RoutesOk(g, start, routes, exits)
      requires IsExit(g, e) && e !in Elements(exits)
      requires e.token == Tokens(start, path)[|path| - 1] && path[|path| - 1] == g.hops[e.token][e.index]
      modifies this`routes, this`exits
      ensures RoutesOk(g, start, routes, exits)
      ensures routes == old(routes) + [path + [g.pegHop(Top())]]
      ensures exits == old(exits) + [e] && Elements(exits) == Elements(old(exits)) + {e}
    {
      EmitKeepsRoutes(g, start, path, visited, routes, exits, e, path + [g.pegHop(Top())]);
      routes := routes + [path + [g.pegHop(Top())]];
      exits := exits + [e];
    }

    /** The loop body of `dfs` for a pool that leads somewhere new: push, search, pop. */
    method Follow(i: nat, ghost v0: set<Token>, ghost x0: set<Exit>)
      requires Ready() && Top() in visited && Top() in g.hops && i < |g.hops[Top()]|
      requires g.hops[Top()][i].next !in visited
      requires Partial(g, Top(), i, v0, visited, x0, Elements(exits)) && forall e :: e in x0 ==> e.token in v0
      modifies this`path, this`visited, this`routes, this`exits
      ensures Ready() && path == old(path) && old(visited) <= visited
      ensures Partial(g, Top(), i + 1, v0, visited, x0, Elements(exits))
      ensures old(routes) <= routes && old(exits) <= exits
      decreases Universe(g, start) - visited, 1
    {
      var token, pool := Top(), g.hops[Top()][i];
      ghost var v, x, ts := visited, Elements(exits), Tokens(start, path);
      FreshExit(g, token, i, v0, v, x0, x);
      StackPush(g, ts, path, v, pool);
      TokensSnoc(start, path, pool);
      path := path + [pool];
      if pool.next in g.pegged {
        PartialExit(g, token, i, v0, v, x0, x);
        Emit(Exit(token, i));
      } else {
        Dfs();
        PartialCall(g, token, i, v0, v, x0, x, pool.next, visited, Elements(exits));
      }
      StackPop(g, ts, old(path), pool, visited);
      path := path[..|path| - 1];
    }

    /** The loop of `dfs` over the pools of the token on top of the stack. */
    method FollowAll(ghost v0: set<Token>, ghost x0: set<Exit>)
      requires Ready() && Top() in visited && Top() in g.hops
      requires Partial(g, Top(), 0, v0, visited, x0, Elements(exits)) && forall e :: e in x0 ==> e.token in v0
      modifies this`path, this`visited, this`routes, this`exits
      ensures Ready() && path == old(path)
      ensures Partial(g, Top(), |g.hops[Top()]|, v0, visited, x0, Elements(exits))
      ensures old(routes) <= routes && old(exits) <= exits
      decreases Universe(g, start) - visited, 2
    {
      var token := Top();
      for i := 0 to |g.hops[token]|
        invariant Ready() && path == old(path) && old(visited) <= visited
        invariant Partial(g, token, i, v0, visited, x0, Elements(exits))
        invariant old(routes) <= routes && old(exits) <= exits
      {
        if g.hops[token][i].next in visited {
          PartialSkip(g, token, i, v0, visited, x0, Elements(exits));
        } else {
          Follow(i, v0, x0);
        }
      }
    }

    /** `dfs` below a token that is not pegged. */
    method Dfs()
      requires Ready() && Top() !in g.pegged && Top() !in visited && Top() in Universe(g, start)
      modifies this`path, this`visited, this`routes, this`exits
      ensures Ready() && path == old(path)
      ensures Explored(g, Top(), old(visited), visited, Elements(old(exits)), Elements(exits))
      ensures old(routes) <= routes && old(exits) <= exits
      decreases Universe(g, start) - visited, 0
    {
      ghost var v0, x0 := visited, Elements(exits);
      var token := Top();
      visited := visited + {token};
      if token !in g.hops {
        ExploredLeaf(g, token, v0, x0);
        return;
      }
      PartialStart(g, token, v0, x0);
      FollowAll(v0, x0);
      PartialDone(g, token, v0, visited, x0, Elements(exits));
    }
  }

  /** The tokens a search from `start` visits: exactly those reachable through non-pegged tokens. */
  lemma ExploredExactly(g: Graph, start: Token, v: set<Token>, x: set<Exit>)
    requires start !in g.pegged && Explored(g, start, {}, v, {}, x)
    ensures forall u :: u in v <==> Reachable(g, start, u)
    ensures x == ExitsOf(g, v)
  {
    assert v - {} == v;
    forall u ensures u in v <==> Reachable(g, start, u) {
      if u in v {
        assert u in v - {};
      }
      if Reachable(g, start, u) {
        var ws :| Walk(g, ws) && ws[0] == start && ws[|ws| - 1] == u;
        ClosedHoldsWalk(g, v, ws);
      }
    }
  }

  /**
   * The routes of a search are exactly right: `exits` pairs each route with the edge occurrence
   * it leaves through, without repeats, and covers every edge from a reachable token to a pegged one.
   */
  ghost predicate Complete(g: Graph, start: Token, routes: seq<seq<PairData>>, exits: seq<Exit>) {
    && RoutesOk(g, start, routes, exits)
    && (forall e :: e in Elements(exits) <==> IsExit(g, e) && Reachable(g, start, e.token))
  }

  /** The search half of `find_path_subgraph`. */
  method FindRoutes(g: Graph, token: Token)
      returns (routes: seq<seq<PairData>>, visited: set<Token>, ghost exits: seq<Exit>)
    ensures token in g.pegged ==> routes == [[g.pegHop(token)]] && visited == {}
    ensures token !in g.pegged ==> Complete(g, token, routes, exits)
    ensures token !in g.pegged ==> forall u :: u in visited <==> Reachable(g, token, u)
  {
    if token in g.pegged {
      return [[g.pegHop(token)]], {}, [];
    }
    var search := new Search(g, token);
    assert Tokens(token, []) == [token];
    search.Dfs();
    routes, visited, exits := search.routes, search.visited, search.exits;
    ExploredExactly(g, token, visited, Elements(exits));
    forall e ensures e in Elements(exits) <==> IsExit(g, e) && Reachable(g, token, e.token) {
      assert e == Exit(e.token, e.index);
    }
  }
}
