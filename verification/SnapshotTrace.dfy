/** How snapshots remember where they came from, and what can be printed of it. */
module SnapshotTrace {
  import opened Words
  import InfantCorpus

  /** `TxnTrace`: the transactions since snapshot `fromIdx`; the initial snapshot has none. */
  datatype Trace<T> = Trace(transactions: seq<T>, fromIdx: Option<nat>)

  /** `StagedVMState`. */
  datatype Snapshot<V, T> = Snapshot(vm: V, trace: Trace<T>)

  /** An input of the fuzzer: a transaction to run on the snapshot it is bound to. */
  datatype Input<V, T> = Input(vm: V, initialized: bool, stateIdx: nat, txn: T)

  // ---- the history of all snapshots, pruned or not ----

  /** Snapshot `k` came from running its one transaction on an earlier snapshot. */
  ghost predicate GenuineAt<V, T>(h: seq<Snapshot<V, T>>, step: (V, T, V) -> bool, k: nat)
    requires k < |h|
  {
    match h[k].trace.fromIdx
    case None => k == 0 && h[k].trace.transactions == []
    case Some(j) => j < k && |h[k].trace.transactions| == 1 && step(h[j].vm, h[k].trace.transactions[0], h[k].vm)
  }

  ghost predicate Genuine<V, T>(h: seq<Snapshot<V, T>>, step: (V, T, V) -> bool) {
    |h| > 0 && forall k :: 0 <= k < |h| ==> GenuineAt(h, step, k)
  }

  /** A trace whose back-pointer names a recorded snapshot. */
  ghost predicate Rooted<V, T>(h: seq<Snapshot<V, T>>, t: Trace<T>) {
    match t.fromIdx
    case None => t.transactions == []
    case Some(j) => j < |h| && |t.transactions| == 1
  }

  lemma StoredRooted<V, T>(h: seq<Snapshot<V, T>>, step: (V, T, V) -> bool, k: nat)
    requires Genuine(h, step) && k < |h|
    ensures Rooted(h, h[k].trace) && Height(h[k].trace) <= k
  {
    assert GenuineAt(h, step, k);
  }

  function Height<T>(t: Trace<T>): nat {
    match t.fromIdx
    case None => 0
    case Some(j) => j + 1
  }

  /** The indices of the snapshots a trace went through, the oldest first. */
  ghost function Ancestors<V, T>(h: seq<Snapshot<V, T>>, step: (V, T, V) -> bool, t: Trace<T>): (a: seq<nat>)
    requires Genuine(h, step) && Rooted(h, t)
    ensures forall i :: 0 <= i < |a| ==> a[i] < |h|
    decreases Height(t)
  {
    match t.fromIdx
    case None => []
    case Some(j) => StoredRooted(h, step, j); Ancestors(h, step, h[j].trace) + [j]
  }

  /** The transactions along them. */
  ghost function Chain<V, T>(h: seq<Snapshot<V, T>>, step: (V, T, V) -> bool, t: Trace<T>): (ts: seq<T>)
    requires Genuine(h, step) && Rooted(h, t)
    ensures |ts| == |Ancestors(h, step, t)|
    decreases Height(t)
  {
    match t.fromIdx
    case None => []
    case Some(j) => StoredRooted(h, step, j); Chain(h, step, h[j].trace) + t.transactions
  }

  /** `ts` leads from state to state. */
  ghost predicate IsRun<V, T>(step: (V, T, V) -> bool, vs: seq<V>, ts: seq<T>) {
    |vs| == |ts| + 1 && forall i :: 0 <= i < |ts| ==> step(vs[i], ts[i], vs[i + 1])
  }

  ghost function StatesOf<V, T>(h: seq<Snapshot<V, T>>, a: seq<nat>): (vs: seq<V>)
    requires forall i :: 0 <= i < |a| ==> a[i] < |h|
    ensures |vs| == |a| && forall i :: 0 <= i < |a| ==> vs[i] == h[a[i]].vm
  {
    seq(|a|, i requires 0 <= i < |a| => h[a[i]].vm)
  }

  /**
   * The chain behind a snapshot is a real run: it starts at the initial snapshot, goes through
   * strictly increasing indices and executes the recorded transactions one by one.
   */
  lemma {:induction false} ChainIsRun<V, T>(h: seq<Snapshot<V, T>>, step: (V, T, V) -> bool, t: Trace<T>, v: V)
    requires Genuine(h, step) && Rooted(h, t)
    requires t.fromIdx.None? ==> v == h[0].vm
    requires t.fromIdx.Some? ==> step(h[t.fromIdx.value].vm, t.transactions[0], v)
    ensures IsRun(step, StatesOf(h, Ancestors(h, step, t)) + [v], Chain(h, step, t))
    ensures (StatesOf(h, Ancestors(h, step, t)) + [v])[0] == h[0].vm
    ensures forall i, j :: 0 <= i < j < |Ancestors(h, step, t)| ==> Ancestors(h, step, t)[i] < Ancestors(h, step, t)[j]
    ensures forall i :: 0 <= i < |Ancestors(h, step, t)| ==> Ancestors(h, step, t)[i] < Height(t)
    decreases Height(t)
  {
    if t.fromIdx.Some? {
      var j := t.fromIdx.value;
      StoredRooted(h, step, j);
      assert GenuineAt(h, step, j);
      ChainIsRun(h, step, h[j].trace, h[j].vm);
      var before := StatesOf(h, Ancestors(h, step, h[j].trace)) + [h[j].vm];
      assert StatesOf(h, Ancestors(h, step, t)) == before;
    }
  }

  lemma StoredIsRun<V, T>(h: seq<Snapshot<V, T>>, step: (V, T, V) -> bool, k: nat)
    requires Genuine(h, step) && k < |h|
    ensures Rooted(h, h[k].trace)
    ensures IsRun(step, StatesOf(h, Ancestors(h, step, h[k].trace)) + [h[k].vm], Chain(h, step, h[k].trace))
    ensures (StatesOf(h, Ancestors(h, step, h[k].trace)) + [h[k].vm])[0] == h[0].vm
  {
    StoredRooted(h, step, k);
    assert GenuineAt(h, step, k);
    ChainIsRun(h, step, h[k].trace, h[k].vm);
  }

  /** With a deterministic VM, running the recorded transactions again gives the same states. */
  lemma {:induction false} RunsAgree<V, T>(step: (V, T, V) -> bool, vs: seq<V>, ws: seq<V>, ts: seq<T>, k: nat)
    requires forall v, t, a, b :: step(v, t, a) && step(v, t, b) ==> a == b
    requires IsRun(step, vs, ts) && IsRun(step, ws, ts) && vs[0] == ws[0] && k <= |ts|
    ensures vs[k] == ws[k]
  {
    if k > 0 {
      RunsAgree(step, vs, ws, ts, k - 1);
      assert step(vs[k - 1], ts[k - 1], vs[k]) && step(ws[k - 1], ts[k - 1], ws[k]);
    }
  }

  // ---- printing a trace ----

  /** Every back-pointer stored in the corpus points down. */
  predicate PointsDown<V, T>(entries: map<nat, Snapshot<V, T>>) {
    forall k :: k in entries ==> Height(entries[k].trace) <= k
  }

  /** The text that stands for a pruned ancestor: three words. */
  const LOST_LINE := "Corpus" + " " + ("returning" + " " + "error")
  const LOST := LOST_LINE + "\n"

  /** The lines of some transactions; `None` when one of them cannot be printed. */
  function Lines<T>(ts: seq<T>, show: T -> Option<string>): Option<string> {
    if ts == [] then Some("")
    else
      match (Lines(ts[..|ts| - 1], show), show(ts[|ts| - 1]))
      case (Some(s), Some(l)) => Some(s + l)
      case _ => None
  }

  /** The transactions that reach the text, and whether it starts with the error line. */
  function Printed<V, T>(entries: map<nat, Snapshot<V, T>>, t: Trace<T>): (bool, seq<T>)
    requires PointsDown(entries)
    decreases Height(t)
  {
    match t.fromIdx
    case None => (false, [])
    case Some(j) =>
      if j !in entries then (true, [])
      else
        var (lost, ts) := Printed(entries, entries[j].trace);
        (lost, ts + t.transactions)
  }

  /** `to_string` and `to_file_str`: they differ in what stands for the initial state and in `show`. */
  method Render<V, T>(entries: map<nat, Snapshot<V, T>>, t: Trace<T>, begin: string, show: T -> Option<string>)
    returns (text: Option<string>)
    requires PointsDown(entries)
    ensures text == Rendered(entries, t, begin, show)
    decreases Height(t)
  {
    if t.fromIdx.None? {
      HeadingOnly(begin);
      return Some(begin);
    }
    var current := t.fromIdx.value;
    if current !in entries {
      HeadingOnly(LOST);
      return Some(LOST);
    }
    var front := Render(entries, entries[current].trace, begin, show);
    ghost var before := Printed(entries, entries[current].trace).1;
    text := Dump(front, t.transactions, show, before, Heading(entries, entries[current].trace, begin));
  }

  lemma HeadingOnly(prefix: string)
    ensures Prefixed(prefix, Some("")) == Some(prefix)
  {
    assert prefix + "" == prefix;
  }

  /** The loop that appends the lines of a trace's own transactions. */
  method Dump<T>(
      front: Option<string>, txns: seq<T>, show: T -> Option<string>, ghost before: seq<T>, ghost prefix: string)
    returns (text: Option<string>)
    requires front == Prefixed(prefix, Lines(before, show))
    ensures text == Prefixed(prefix, Lines(before + txns, show))
  {
    text := front;
    assert before + txns[..0] == before;
    for i := 0 to |txns|
      invariant text == Prefixed(prefix, Lines(before + txns[..i], show))
    {
      PrefixedSnoc(prefix, before + txns[..i], txns[i], show);
      assert before + txns[..i + 1] == before + txns[..i] + [txns[i]];
      var line := show(txns[i]);
      text := if text.Some? && line.Some? then Some(text.value + line.value) else None;
    }
    assert txns[..|txns|] == txns;
  }

  lemma PrefixedSnoc<T>(prefix: string, ts: seq<T>, t: T, show: T -> Option<string>)
    ensures var text := Prefixed(prefix, Lines(ts, show));
            Prefixed(prefix, Lines(ts + [t], show)) ==
            if text.Some? && show(t).Some? then Some(text.value + show(t).value) else None
  {
    assert (ts + [t])[..|ts|] == ts;
    if Lines(ts, show).Some? && show(t).Some? {
      assert prefix + (Lines(ts, show).value + show(t).value) == prefix + Lines(ts, show).value + show(t).value;
    }
  }

  function Prefixed(prefix: string, text: Option<string>): Option<string> {
    if text.Some? then Some(prefix + text.value) else None
  }

  function Heading<V, T>(entries: map<nat, Snapshot<V, T>>, t: Trace<T>, begin: string): string
    requires PointsDown(entries)
  {
    if Printed(entries, t).0 then LOST else begin
  }

  function Rendered<V, T>(
      entries: map<nat, Snapshot<V, T>>, t: Trace<T>, begin: string, show: T -> Option<string>): Option<string>
    requires PointsDown(entries)
  {
    Prefixed(Heading(entries, t, begin), Lines(Printed(entries, t).1, show))
  }

  // ---- what pruning costs ----

  /** The corpus holds part of the history. */
  ghost predicate Holds<V, T>(h: seq<Snapshot<V, T>>, entries: map<nat, Snapshot<V, T>>) {
    forall k :: k in entries ==> k < |h| && entries[k] == h[k]
  }

  lemma HoldsPointsDown<V, T>(h: seq<Snapshot<V, T>>, step: (V, T, V) -> bool, entries: map<nat, Snapshot<V, T>>)
    requires Genuine(h, step) && Holds(h, entries)
    ensures PointsDown(entries)
  {
    forall k | k in entries ensures Height(entries[k].trace) <= k {
      StoredRooted(h, step, k);
    }
  }

  /** How many transactions of the chain are lost: all up to and including the one run on the last pruned ancestor. */
  ghost function LostCount(a: seq<nat>, live: set<nat>): (n: nat)
    ensures n <= |a|
    ensures n > 0 ==> a[n - 1] !in live
    ensures forall i :: n <= i < |a| ==> a[i] in live
  {
    if a == [] then 0
    else if a[|a| - 1] !in live then |a|
    else LostCount(a[..|a| - 1], live)
  }

  lemma LostSnoc(a: seq<nat>, j: nat, live: set<nat>)
    ensures LostCount(a + [j], live) == if j in live then LostCount(a, live) else |a| + 1
  {
    assert (a + [j])[..|a|] == a;
  }

  /** The text holds exactly the end of the run after its last pruned ancestor. */
  lemma {:induction false} PrintedIsSuffix<V, T>(
      h: seq<Snapshot<V, T>>, step: (V, T, V) -> bool, entries: map<nat, Snapshot<V, T>>, t: Trace<T>)
    requires Genuine(h, step) && Holds(h, entries) && PointsDown(entries) && Rooted(h, t)
    ensures var n := LostCount(Ancestors(h, step, t), entries.Keys);
            Printed(entries, t) == (n > 0, Chain(h, step, t)[n..])
    decreases Height(t)
  {
    if t.fromIdx.Some? {
      var j := t.fromIdx.value;
      ParentOf(h, step, t, j);
      var a, ts := Ancestors(h, step, h[j].trace), Chain(h, step, h[j].trace);
      if j in entries {
        PrintedIsSuffix(h, step, entries, h[j].trace);
        LiveParent(a, j, entries.Keys, ts, t.transactions);
      } else {
        PrunedParent(a, j, entries.Keys, ts, t.transactions);
      }
    }
  }

  lemma ParentOf<V, T>(h: seq<Snapshot<V, T>>, step: (V, T, V) -> bool, t: Trace<T>, j: nat)
    requires Genuine(h, step) && Rooted(h, t) && t.fromIdx == Some(j)
    ensures Rooted(h, h[j].trace) && Height(h[j].trace) < Height(t)
    ensures Ancestors(h, step, t) == Ancestors(h, step, h[j].trace) + [j]
    ensures Chain(h, step, t) == Chain(h, step, h[j].trace) + t.transactions
  {
    StoredRooted(h, step, j);
  }

  lemma LiveParent<T>(a: seq<nat>, j: nat, live: set<nat>, ts: seq<T>, last: seq<T>)
    requires |ts| == |a| && |last| == 1 && j in live
    ensures LostCount(a + [j], live) == LostCount(a, live)
    ensures (ts + last)[LostCount(a, live)..] == ts[LostCount(a, live)..] + last
  {
    LostSnoc(a, j, live);
  }

  lemma PrunedParent<T>(a: seq<nat>, j: nat, live: set<nat>, ts: seq<T>, last: seq<T>)
    requires |ts| == |a| && |last| == 1 && j !in live
    ensures LostCount(a + [j], live) > 0 && (ts + last)[LostCount(a + [j], live)..] == []
  {
    LostSnoc(a, j, live);
  }

  lemma NoneLostIff(a: seq<nat>, live: set<nat>)
    ensures LostCount(a, live) == 0 <==> forall j :: j in a ==> j in live
  {
    var n := LostCount(a, live);
    if n > 0 {
      assert a[n - 1] in a;
    }
  }

  /** The whole run is printed, without the error line, exactly when no ancestor was pruned. */
  lemma WholeRunPrintedIff<V, T>(
      h: seq<Snapshot<V, T>>, step: (V, T, V) -> bool, entries: map<nat, Snapshot<V, T>>, t: Trace<T>)
    requires Genuine(h, step) && Holds(h, entries) && PointsDown(entries) && Rooted(h, t)
    ensures Printed(entries, t).0 <==> exists j :: j in Ancestors(h, step, t) && j !in entries
    ensures Printed(entries, t).1 == Chain(h, step, t) <==> forall j :: j in Ancestors(h, step, t) ==> j in entries
  {
    PrintedIsSuffix(h, step, entries, t);
    NoneLostIff(Ancestors(h, step, t), entries.Keys);
  }

  // ---- the campaign ----

  ghost predicate Bound<V, T>(h: seq<Snapshot<V, T>>, input: Input<V, T>) {
    input.initialized ==> input.stateIdx < |h| && input.vm == h[input.stateIdx].vm
  }

  /** What every step of a fuzzing campaign keeps. */
  ghost predicate Consistent<V, T>(
      h: seq<Snapshot<V, T>>, step: (V, T, V) -> bool, entries: map<nat, Snapshot<V, T>>, inputs: seq<Input<V, T>>)
  {
    Genuine(h, step) && Holds(h, entries) && forall i :: 0 <= i < |inputs| ==> Bound(h, inputs[i])
  }

  /** A new snapshot is recorded under the next index; pruning may follow. */
  lemma ConsistentGrows<V, T>(
      h: seq<Snapshot<V, T>>, step: (V, T, V) -> bool, entries: map<nat, Snapshot<V, T>>, inputs: seq<Input<V, T>>,
      input: Input<V, T>, vm: V, entries': map<nat, Snapshot<V, T>>)
    requires Consistent(h, step, entries, inputs) && Bound(h, input) && input.initialized
             && step(input.vm, input.txn, vm)
    requires forall k :: k in entries' ==>
             k in entries[|h| := Recorded(input, vm)] && entries'[k] == entries[|h| := Recorded(input, vm)][k]
    ensures Consistent(h + [Recorded(input, vm)], step, entries', inputs)
  {
    var h' := h + [Recorded(input, vm)];
    forall k | 0 <= k < |h'| ensures GenuineAt(h', step, k) {
      if k < |h| {
        assert GenuineAt(h, step, k);
      }
    }
  }

  /** What `evaluate_input_events` records: where the input stood and what it did. */
  function Recorded<V, T>(input: Input<V, T>, vm: V): Snapshot<V, T> {
    Snapshot(vm, Trace([input.txn], Some(input.stateIdx)))
  }

  /**
   * The fuzzer's state. `step` is what the virtual machine may do; `history` remembers every
   * snapshot ever recorded, also the pruned ones.
   */
  class Campaign<V, T> {
    const infants: InfantCorpus.InfantStates<Snapshot<V, T>>
    var inputs: seq<Input<V, T>>
    ghost var history: seq<Snapshot<V, T>>
    ghost const step: (V, T, V) -> bool

    ghost predicate Valid()
      reads this, infants
    {
      infants.Valid() && infants.currentIdx == |history| && Consistent(history, step, infants.entries, inputs)
    }

    /** The corpus initializer: one snapshot of the deployed state, with an empty trace. */
    constructor (initial: V, ghost step: (V, T, V) -> bool)
      ensures Valid() && fresh(infants) && inputs == [] && this.step == step
      ensures history == [Snapshot(initial, Trace([], None))]
      ensures infants.data.tallies == map[0 := InfantCorpus.Tally(InfantCorpus.INCREMENT, 1)]
    {
      var corpus := new InfantCorpus.InfantStates();
      var first := Snapshot(initial, Trace([], None));
      var idx, gone := corpus.AddInfantState(first);
      infants, inputs := corpus, [];
      history, this.step := [first], step;
      new;
      assert GenuineAt(history, step, 0);
    }

    /** A seed input is not bound to any snapshot yet. */
    method AddSeed(vm: V, txn: T)
      requires Valid()
      modifies this`inputs
      ensures Valid() && inputs == old(inputs) + [Input(vm, false, 0, txn)]
    {
      Store(Input(vm, false, 0, txn));
    }

    method Store(input: Input<V, T>)
      requires Valid() && Bound(history, input)
      modifies this`inputs
      ensures Valid() && inputs == old(inputs) + [input]
    {
      inputs := inputs + [input];
    }

    /** If wanted, `get_infant_state` and then `set_staged_state`, unless the input stands there already. */
    method Place(input: Input<V, T>, wanted: bool, roll: nat) returns (placed: Input<V, T>)
      requires Valid() && roll < 1000 && Bound(history, input)
      modifies infants`data
      ensures Valid() && infants.entries == old(infants.entries) && Bound(history, placed)
      ensures if wanted then placed.initialized && placed.txn == input.txn && placed.stateIdx in infants.entries
              else placed == input
      ensures infants.data ==
              if wanted then InfantCorpus.Visited(old(infants.data), placed.stateIdx) else old(infants.data)
    {
      placed := input;
      if wanted {
        var idx, snapshot := infants.GetInfantState(roll);
        if !(input.initialized && idx == input.stateIdx) {
          placed := Input(snapshot.vm, true, idx, input.txn);
        }
      }
    }

    /**
     * The mutator on a copy of input `i`: bind it if need be, move it as often as the havoc loop
     * asks for, change the transaction.
     */
    method Mutate(i: nat, roll: nat, swaps: seq<nat>, txn: T) returns (input: Input<V, T>)
      requires Valid() && i < |inputs| && roll < 1000 && forall k :: 0 <= k < |swaps| ==> swaps[k] < 1000
      modifies this`inputs, infants`data
      ensures Valid() && input.initialized && input.txn == txn && inputs == old(inputs) + [input]
      ensures Bound(history, input) && infants.entries == old(infants.entries)
      ensures input.stateIdx in infants.entries || input == old(inputs)[i].(txn := txn)
      ensures swaps == [] && old(inputs)[i].initialized ==>
              input == old(inputs)[i].(txn := txn) && infants.data == old(infants.data)
      ensures swaps == [] && !old(inputs)[i].initialized ==>
              input.stateIdx in infants.entries
              && infants.data == InfantCorpus.Visited(old(infants.data), input.stateIdx)
    {
      input := Place(inputs[i], !inputs[i].initialized, roll);
      for k := 0 to |swaps|
        invariant Valid() && Bound(history, input) && input.initialized
        invariant infants.entries == old(infants.entries) && inputs == old(inputs)
        invariant input.stateIdx in infants.entries || input == old(inputs)[i]
        invariant k == 0 ==> infants.data == if old(inputs)[i].initialized then old(infants.data)
                                             else InfantCorpus.Visited(old(infants.data), input.stateIdx)
        invariant k == 0 && old(inputs)[i].initialized ==> input == old(inputs)[i]
      {
        input := Place(input, true, swaps[k]);
      }
      input := input.(txn := txn);
      Store(input);
    }

    /** The recording part of `evaluate_input_events`, once `input` was run and gave `vm`. */
    method Evaluate(input: Input<V, T>, vm: V, interesting: bool, reverted: bool)
      returns (trace: Trace<T>, ghost gone: set<nat>)
      requires Valid() && Bound(history, input) && input.initialized && step(input.vm, input.txn, vm)
      modifies this`history, infants
      ensures Valid() && trace == Recorded(input, vm).trace
      ensures history == old(history) + if interesting && !reverted then [Recorded(input, vm)] else []
      ensures if interesting && !reverted
              then InfantCorpus.Grown(old(infants.data), infants.data, |old(history)|, gone)
              else infants.entries == old(infants.entries) && infants.data == old(infants.data)
    {
      trace, gone := Trace([input.txn], Some(input.stateIdx)), {};
      if interesting && !reverted {
        var idx;
        idx, gone := infants.AddInfantState(Snapshot(vm, trace));
        ConsistentGrows(history, step, old(infants.entries), inputs, input, vm, infants.entries);
        history := history + [Recorded(input, vm)];
      }
    }

    /** The scheduler's vote for a snapshot, which may be gone. */
    method Vote(idx: nat)
      requires Valid()
      modifies infants`data, infants`absent
      ensures Valid() && infants.entries == old(infants.entries)
    {
      infants.Vote(idx);
    }

    /** Printing a trace of this campaign terminates and tells the end of its run. */
    method Print(trace: Trace<T>, begin: string, show: T -> Option<string>) returns (text: Option<string>)
      requires Valid() && Rooted(history, trace)
      ensures var n := LostCount(Ancestors(history, step, trace), infants.entries.Keys);
              text == Prefixed(if n > 0 then LOST else begin, Lines(Chain(history, step, trace)[n..], show))
    {
      HoldsPointsDown(history, step, infants.entries);
      PrintedIsSuffix(history, step, infants.entries, trace);
      text := Render(infants.entries, trace, begin, show);
    }
  }
}
