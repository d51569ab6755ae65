/** Sequences put together from pieces, and where each piece ends up. */
module Pieces {
  ghost predicate NoRepeats<T>(s: seq<T>) {
    forall i, j :: 0 <= i < j < |s| ==> s[i] != s[j]
  }

  ghost function Elements<T>(s: seq<T>): set<T> { set x | x in s }

  lemma ElementsSnoc<T>(s: seq<T>, x: T)
    ensures Elements(s + [x]) == Elements(s) + {x}
  {}

  /** `p` occurs in `b` at position `k`. */
  ghost predicate At<T>(b: seq<T>, k: nat, p: seq<T>) {
    k + |p| <= |b| && b[k..k + |p|] == p
  }

  function Concat<T>(pieces: seq<seq<T>>): seq<T> {
    if pieces == [] then [] else pieces[0] + Concat(pieces[1..])
  }

  /** Where piece `k` starts. */
  function StartOf<T>(pieces: seq<seq<T>>, k: nat): nat
    requires k <= |pieces|
  {
    |Concat(pieces[..k])|
  }

  lemma {:induction false} ConcatAppend<T>(xs: seq<seq<T>>, ys: seq<seq<T>>)
    ensures Concat(xs + ys) == Concat(xs) + Concat(ys)
  {
    if xs == [] {
      assert xs + ys == ys;
    } else {
      ConcatAppend(xs[1..], ys);
      assert (xs + ys)[1..] == xs[1..] + ys;
      assert (xs + ys)[0] == xs[0];
    }
  }

  lemma ConcatOne<T>(x: seq<T>)
    ensures Concat([x]) == x
  {
    assert [x][1..] == [];
  }

  /** Splitting around piece `k`. */
  lemma ConcatSplit<T>(pieces: seq<seq<T>>, k: nat)
    requires k < |pieces|
    ensures Concat(pieces) == Concat(pieces[..k]) + pieces[k] + Concat(pieces[k + 1..])
    ensures StartOf(pieces, k + 1) == StartOf(pieces, k) + |pieces[k]|
  {
    assert pieces == pieces[..k] + ([pieces[k]] + pieces[k + 1..]);
    assert pieces[..k + 1] == pieces[..k] + [pieces[k]];
    ConcatAppend(pieces[..k], [pieces[k]] + pieces[k + 1..]);
    ConcatAppend([pieces[k]], pieces[k + 1..]);
    ConcatAppend(pieces[..k], [pieces[k]]);
    ConcatOne(pieces[k]);
  }

  lemma MiddleAt<T>(a: seq<T>, p: seq<T>, c: seq<T>)
    ensures At(a + p + c, |a|, p)
  {
    assert (a + p + c)[|a|..|a| + |p|] == p;
  }

  lemma ConcatAt<T>(pieces: seq<seq<T>>, k: nat)
    requires k < |pieces|
    ensures At(Concat(pieces), StartOf(pieces, k), pieces[k])
  {
    ConcatSplit(pieces, k);
    MiddleAt(Concat(pieces[..k]), pieces[k], Concat(pieces[k + 1..]));
  }

  lemma StartOfAppend<T>(xs: seq<seq<T>>, ys: seq<seq<T>>, k: nat)
    requires k <= |ys|
    ensures StartOf(xs + ys, |xs| + k) == |Concat(xs)| + StartOf(ys, k)
  {
    assert (xs + ys)[..|xs| + k] == xs + ys[..k];
    ConcatAppend(xs, ys[..k]);
  }

  lemma StartOfPrefix<T>(xs: seq<seq<T>>, ys: seq<seq<T>>, k: nat)
    requires k <= |xs|
    ensures StartOf(xs + ys, k) == StartOf(xs, k)
  {
    assert (xs + ys)[..k] == xs[..k];
  }

  lemma StartOfEnd<T>(pieces: seq<seq<T>>)
    ensures StartOf(pieces, |pieces|) == |Concat(pieces)|
  {
    assert pieces[..|pieces|] == pieces;
  }

  /** Every position belongs to a piece. */
  lemma {:induction false} OwnerOf<T>(pieces: seq<seq<T>>, at: nat, k: nat) returns (j: nat)
    requires k <= |pieces| && StartOf(pieces, k) <= at < |Concat(pieces)|
    ensures k <= j < |pieces| && StartOf(pieces, j) <= at < StartOf(pieces, j) + |pieces[j]|
    decreases |pieces| - k
  {
    if k == |pieces| {
      StartOfEnd(pieces);
    }
    ConcatSplit(pieces, k);
    if at < StartOf(pieces, k) + |pieces[k]| {
      j := k;
    } else {
      j := OwnerOf(pieces, at, k + 1);
    }
  }

  /** If each piece of one list is `w` times as long as its counterpart, all positions scale by `w`. */
  lemma {:induction false} Scaled<S, T>(xs: seq<seq<S>>, ys: seq<seq<T>>, w: nat, k: nat)
    requires |xs| == |ys| && k <= |xs|
    requires forall i :: 0 <= i < |xs| ==> |xs[i]| == w * |ys[i]|
    ensures StartOf(xs, k) == w * StartOf(ys, k)
  {
    if k > 0 {
      Scaled(xs, ys, w, k - 1);
      ConcatSplit(xs, k - 1);
      ConcatSplit(ys, k - 1);
      Distribute(w, StartOf(ys, k - 1), |ys[k - 1]|);
    }
  }

  lemma Distribute(w: nat, a: nat, b: nat)
    ensures w * (a + b) == w * a + w * b
  {}

  lemma AtShift<T>(a: seq<T>, b: seq<T>, k: nat, p: seq<T>)
    requires At(b, k, p)
    ensures At(a + b, |a| + k, p)
  {
    assert (a + b)[|a| + k..|a| + k + |p|] == b[k..k + |p|];
  }

  lemma AtPrefix<T>(a: seq<T>, b: seq<T>, k: nat, p: seq<T>)
    requires At(a, k, p) && a <= b
    ensures At(b, k, p)
  {
    assert a[k..k + |p|] == b[k..k + |p|];
  }

  lemma AtDrop<T>(b: seq<T>, k: nat, p: seq<T>)
    requires At(b, k, p)
    ensures p <= b[k..]
  {
    assert b[k..][..|p|] == b[k..k + |p|];
  }

  lemma AtIndex<T>(b: seq<T>, k: nat, p: seq<T>, j: nat)
    requires At(b, k, p) && j < |p|
    ensures b[k + j] == p[j]
  {
    assert b[k..k + |p|][j] == b[k + j];
  }
}
