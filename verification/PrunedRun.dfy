/** A campaign whose first snapshot is pruned, so that the run of an input bound to it cannot be printed. */
module PrunedRun {
  import opened Words
  import opened InfantCorpus
  import opened SnapshotTrace

  /** `n` snapshots of which only the first was visited again. */
  function Tallied(n: nat): (m: Tallies)
    ensures forall k :: k in m <==> 0 <= k < n
    ensures forall k :: k in m ==> m[k] == Tally(INCREMENT, if k == 0 then 2 else 1)
    ensures |m| == n
  {
    if n == 0 then map[]
    else
      assert n - 1 !in Tallied(n - 1);
      Tallied(n - 1)[n - 1 := Tally(INCREMENT, if n == 1 then 2 else 1)]
  }

  /** While there is room nothing is pruned. */
  lemma NothingGoes(d: VoteData, d': VoteData, n: nat, gone: set<nat>)
    requires d.tallies == Tallied(n) && 0 < n < DROP_THRESHOLD && Grown(d, d', n, gone)
    ensures d'.tallies == Tallied(n + 1)
  {
    assert Added(d, n).tallies == Tallied(n + 1);
  }

  /** The first snapshot has the lowest score of all, so it is among those that go. */
  lemma FirstGoes(d: VoteData, d': VoteData, n: nat, gone: set<nat>)
    requires d.tallies == Tallied(n) && n == DROP_THRESHOLD && Grown(d, d', n, gone)
    ensures 0 !in d'.tallies
  {
    var m := Tallied(n + 1);
    assert Added(d, n).tallies == m;
    var x :| x in gone;
    assert 0 in m && Score(m, 0) == 1.5;
    assert x in m && (x != 0 ==> Score(m, x) == 3.0);
  }

  /** Interesting runs of an input bound to the first snapshot, as long as there is room. */
  method Fill<V, T>(c: Campaign<V, T>, input: Input<V, T>, vm: V) returns (n: nat)
    requires c.Valid() && |c.history| == 1 && c.infants.data.tallies == Tallied(1)
    requires Bound(c.history, input) && input.initialized && c.step(input.vm, input.txn, vm)
    modifies c`history, c.infants
    ensures c.Valid() && n == |c.history| == DROP_THRESHOLD && c.infants.data.tallies == Tallied(n)
    ensures old(c.history) <= c.history
  {
    n := 1;
    while n < DROP_THRESHOLD
      invariant c.Valid() && n == |c.history| <= DROP_THRESHOLD && old(c.history) <= c.history
      invariant n > 0 && c.infants.data.tallies == Tallied(n)
    {
      ghost var before := c.infants.data;
      var _, gone := c.Evaluate(input, vm, true, false);
      NothingGoes(before, c.infants.data, n, gone);
      n := n + 1;
    }
  }

  /**
   * On any machine: a seed is bound to the only snapshot, five hundred interesting runs follow, and
   * of the next run of the stored input nothing is printed but the error line.
   */
  method FirstSnapshotLost<V, T>(initial: V, txn: T, vm: V, ghost step: (V, T, V) -> bool, begin: string,
      show: T -> Option<string>) returns (text: Option<string>)
    requires step(initial, txn, vm)
    ensures text == Some(LOST)
  {
    var c, bound := Begin(initial, txn, vm, step);
    var n := Fill(c, bound, vm);
    PruneFirst(c, bound, vm, n);
    var again := c.Mutate(1, 0, [], txn);
    var trace, _ := c.Evaluate(again, vm, false, false);
    text := PrintOrphan(c, trace, begin, show);
  }

  /** One run more prunes the first snapshot. */
  method PruneFirst<V, T>(c: Campaign<V, T>, input: Input<V, T>, vm: V, n: nat)
    requires c.Valid() && n == |c.history| == DROP_THRESHOLD && c.infants.data.tallies == Tallied(n)
    requires Bound(c.history, input) && input.initialized && c.step(input.vm, input.txn, vm)
    modifies c`history, c.infants
    ensures c.Valid() && old(c.history) <= c.history && 0 !in c.infants.entries
  {
    ghost var before := c.infants.data;
    var _, gone := c.Evaluate(input, vm, true, false);
    FirstGoes(before, c.infants.data, n, gone);
  }

  /** Without its parent a trace is printed as the error line alone. */
  method PrintOrphan<V, T>(c: Campaign<V, T>, trace: Trace<T>, begin: string, show: T -> Option<string>)
    returns (text: Option<string>)
    requires c.Valid() && Rooted(c.history, trace) && trace.fromIdx.Some? && trace.fromIdx.value !in c.infants.entries
    ensures text == Some(LOST)
  {
    ghost var h, step, j := c.history, c.step, trace.fromIdx.value;
    ParentOf(h, step, trace, j);
    ghost var a, ts := Ancestors(h, step, h[j].trace), Chain(h, step, h[j].trace);
    PrunedParent(a, j, c.infants.entries.Keys, ts, trace.transactions);
    text := c.Print(trace, begin, show);
    HeadingOnly(LOST);
  }

  /** A campaign with one seed, and a stored input that the mutator bound to the initial snapshot. */
  method Begin<V, T>(initial: V, txn: T, vm: V, ghost step: (V, T, V) -> bool)
    returns (c: Campaign<V, T>, bound: Input<V, T>)
    ensures c.Valid() && fresh(c) && fresh(c.infants) && c.step == step && |c.history| == 1
    ensures c.infants.data.tallies == Tallied(1)
    ensures bound == Input(initial, true, 0, txn) && |c.inputs| == 2 && c.inputs[1] == bound && Bound(c.history, bound)
  {
    c := new Campaign(initial, step);
    c.AddSeed(vm, txn);
    ghost var d := c.infants.data;
    bound := c.Mutate(0, 0, [], txn);
    FirstVisited(d, bound.stateIdx);
  }

  lemma FirstVisited(d: VoteData, idx: nat)
    requires d.tallies == map[0 := Tally(INCREMENT, 1)] && idx in d.tallies
    ensures idx == 0 && Visited(d, idx).tallies == Tallied(1)
  {}
}
