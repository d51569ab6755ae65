/** The structural mutator `mutate_with_vm_slots`, for every stream of random numbers. */
module AbiMutation {
  import opened Words
  import opened AbiCodec
  import opened AbiLayout
  import opened AbiGaps
  import opened AbiRoundTrip
  import opened AbiLoops

  /**
   * What a mutation draws on: the random stream, the address pool, the byte mutators of the
   * fuzzing library and the configured `max_size`.
   */
  datatype Source = Source(
    rand: nat -> nat,
    address: nat -> WordData,
    mutateWord: (WordData, nat) -> WordData,
    mutateBytes: (Bytes, nat) -> Bytes,
    maxSize: nat)

  /** Pool addresses have 20 bytes and the word mutators keep the length. */
  ghost predicate Sound(e: Source) {
    && (forall n :: |e.address(n)| == ADDRESS_BYTES)
    && (forall d, n :: |e.mutateWord(d, n)| == |d|)
  }

  /** One mutation that reads the random stream from position `at`. */
  function Mutate(v: Abi, e: Source, at: nat): Abi {
    match v
    case AEmpty => v
    case A256(w, isAddress, dont, isBytes) =>
      if dont then v
      else if isAddress then
        A256(if e.rand(at) % 100 < 90 then e.address(at + 1) else Zeros(ADDRESS_BYTES), isAddress, dont, isBytes)
      else A256(e.mutateWord(w, at), isAddress, dont, isBytes)
    case ADynamic(d) => ADynamic(e.mutateBytes(d, at))
    case AArray(xs, dyn) =>
      if xs == [] then v
      else if !dyn then
        var i := e.rand(at) % |xs|;
        AArray(xs[i := Mutate(xs[i], e, at + 1)], dyn)
      else
        var i := e.rand(at + 1) % |xs|;
        if e.rand(at) % 100 <= 80 then AArray(xs[i := Mutate(xs[i], e, at + 2)], dyn)
        else if e.rand(at) % 100 <= 90 then
          if e.maxSize <= |xs| then v
          else AArray(xs + seq(e.rand(at + 1) % e.maxSize, _ => xs[0]), dyn)
        else AArray(xs[..i] + xs[i + 1..], dyn)
  }

  /** Any number of mutations, each with its own stream. */
  function MutateAll(v: Abi, es: seq<Source>): Abi {
    if es == [] then v else Mutate(MutateAll(v, es[..|es| - 1]), es[|es| - 1], 0)
  }

  /**
   * Every word of `m` comes from a word of `v` with the same marks, and is that word if it must not be
   * mutated. Every list of `m` comes from a list of `v` and is at most as long as the larger of that
   * list and `n`; its elements come from that list's elements.
   */
  ghost predicate Descends(m: Abi, v: Abi, n: int)
    decreases m, 0, 0
  {
    && (m.A256? ==>
          && v.A256? && m.isAddress == v.isAddress && m.dontMutate == v.dontMutate && m.isBytes == v.isBytes
          && (v.dontMutate ==> m == v))
    && (m.ADynamic? ==> v.ADynamic?) && (m.AEmpty? ==> v.AEmpty?)
    && (m.AArray? ==>
      && v.AArray? && m.dynamicSize == v.dynamicSize
      && if m.dynamicSize then
           && (|m.items| <= |v.items| || |m.items| <= n)
           && forall i :: 0 <= i < |m.items| ==> DescendsFromOne(m.items[i], v.items, n)
         else
           |m.items| == |v.items| && forall i :: 0 <= i < |m.items| ==> Descends(m.items[i], v.items[i], n))
  }

  ghost predicate DescendsFromOne(m: Abi, vs: seq<Abi>, n: int)
    decreases m, 1, |vs|
  {
    vs != [] && (Descends(m, vs[0], n) || DescendsFromOne(m, vs[1..], n))
  }

  lemma {:induction false} OneOf(m: Abi, vs: seq<Abi>, n: int, j: nat)
    requires j < |vs| && Descends(m, vs[j], n)
    ensures DescendsFromOne(m, vs, n)
    decreases |vs|
  {
    if j > 0 {
      OneOf(m, vs[1..], n, j - 1);
    }
  }

  lemma {:induction false} Ancestor(m: Abi, vs: seq<Abi>, n: int) returns (j: nat)
    requires DescendsFromOne(m, vs, n)
    ensures j < |vs| && Descends(m, vs[j], n)
    decreases |vs|
  {
    if Descends(m, vs[0], n) {
      j := 0;
    } else {
      var k := Ancestor(m, vs[1..], n);
      j := k + 1;
    }
  }

  lemma {:induction false} DescendsItself(v: Abi, n: int)
    ensures Descends(v, v, n)
  {
    if v.AArray? {
      forall i | 0 <= i < |v.items|
        ensures Descends(v.items[i], v.items[i], n) && DescendsFromOne(v.items[i], v.items, n)
      {
        DescendsItself(v.items[i], n);
        OneOf(v.items[i], v.items, n, i);
      }
    }
  }

  lemma {:induction false} DescendsOn(a: Abi, b: Abi, c: Abi, n: int)
    requires Descends(a, b, n) && Descends(b, c, n)
    ensures Descends(a, c, n)
    decreases a
  {
    if a.AArray? && a.dynamicSize {
      forall i | 0 <= i < |a.items| ensures DescendsFromOne(a.items[i], c.items, n) {
        var j := Ancestor(a.items[i], b.items, n);
        var k := Ancestor(b.items[j], c.items, n);
        DescendsOn(a.items[i], b.items[j], c.items[k], n);
        OneOf(a.items[i], c.items, n, k);
      }
    } else if a.AArray? {
      forall i | 0 <= i < |a.items| ensures Descends(a.items[i], c.items[i], n) {
        DescendsOn(a.items[i], b.items[i], c.items[i], n);
      }
    }
  }

  lemma {:induction false} MutateKeepsType(v: Abi, t: AbiType, e: Source, at: nat)
    requires Typed(v, t) && Sound(e)
    ensures Typed(Mutate(v, e, at), t)
    decreases v
  {
    if v.AArray? && v.items != [] {
      var i, next := e.rand(if v.dynamicSize then at + 1 else at) % |v.items|, if v.dynamicSize then at + 2 else at + 1;
      MemberTyped(v, t, i);
      MutateKeepsType(v.items[i], MemberType(t, i), e, next);
    }
  }

  /** One mutation: elements change in place, are cloned from the first, or go. */
  lemma {:induction false} MutateDescends(v: Abi, e: Source, at: nat, n: int)
    requires 2 * e.maxSize - 2 <= n
    ensures Descends(Mutate(v, e, at), v, n)
    decreases v
  {
    if v.AArray? && v.items != [] {
      var i := e.rand(if v.dynamicSize then at + 1 else at) % |v.items|;
      MutateDescends(v.items[i], e, if v.dynamicSize then at + 2 else at + 1, n);
      forall k | 0 <= k < |v.items| ensures Descends(v.items[k], v.items[k], n) {
        DescendsItself(v.items[k], n);
      }
      if v.dynamicSize {
        ListDescends(v, Mutate(v, e, at), e, at, i, n);
      }
    } else {
      DescendsItself(v, n);
    }
  }

  lemma ListDescends(v: Abi, m: Abi, e: Source, at: nat, i: nat, n: int)
    requires v.AArray? && v.dynamicSize && |v.items| > 0 && 2 * e.maxSize - 2 <= n && m == Mutate(v, e, at)
    requires i == e.rand(at + 1) % |v.items| && Descends(Mutate(v.items[i], e, at + 2), v.items[i], n)
    requires forall k :: 0 <= k < |v.items| ==> Descends(v.items[k], v.items[k], n)
    ensures Descends(m, v, n)
  {
    if e.rand(at) % 100 > 80 && e.rand(at) % 100 <= 90 && e.maxSize > |v.items| {
      assert e.rand(at + 1) % e.maxSize <= e.maxSize - 1;
    }
    forall k | 0 <= k < |m.items| ensures DescendsFromOne(m.items[k], v.items, n) {
      OneOf(m.items[k], v.items, n, Origin(v, e, at, k));
    }
  }

  /** Which element of `v` element `k` of its mutation comes from. */
  function Origin(v: Abi, e: Source, at: nat, k: nat): (j: nat)
    requires v.AArray? && v.dynamicSize && |v.items| > 0 && Mutate(v, e, at).AArray? && k < |Mutate(v, e, at).items|
    ensures j < |v.items|
  {
    var i := e.rand(at + 1) % |v.items|;
    if e.rand(at) % 100 <= 90 then (if k < |v.items| then k else 0)
    else if k < i then k else k + 1
  }

  // ---- what one mutation does to an array ----

  /** Only element `i` changes, to `y`. */
  ghost predicate ChangedAt(xs: seq<Abi>, ys: seq<Abi>, i: nat, y: Abi) {
    |xs| == |ys| && i < |ys| && ys[i] == y && forall k :: 0 <= k < |xs| && k != i ==> ys[k] == xs[k]
  }

  /** Copies of the first element at the end. */
  ghost predicate Cloned(xs: seq<Abi>, ys: seq<Abi>) {
    |xs| > 0 && xs <= ys && forall k :: |xs| <= k < |ys| ==> ys[k] == xs[0]
  }

  /** Only element `i` is missing. */
  ghost predicate GoneAt(xs: seq<Abi>, ys: seq<Abi>, i: nat) {
    && i <= |ys| == |xs| - 1
    && (forall k :: 0 <= k < i ==> ys[k] == xs[k]) && forall k :: i <= k < |ys| ==> ys[k] == xs[k + 1]
  }

  /** Of a fixed array one element is mutated. */
  lemma {:induction false} FixedMutation(v: Abi, e: Source, at: nat)
    requires v.AArray? && !v.dynamicSize && v.items != []
    ensures var m, i := Mutate(v, e, at), e.rand(at) % |v.items|;
            m.AArray? && !m.dynamicSize && ChangedAt(v.items, m.items, i, Mutate(v.items[i], e, at + 1))
  {}

  /**
   * Of a list one element is mutated, in 81 of 100 cases; in 10 it grows by fewer than `max_size`
   * copies of its first element, if it is shorter than `max_size`; in 9 it loses one element.
   */
  lemma {:induction false} ListMutation(v: Abi, e: Source, at: nat)
    requires v.AArray? && v.dynamicSize && v.items != []
    ensures var m, roll, i := Mutate(v, e, at), e.rand(at) % 100, e.rand(at + 1) % |v.items|;
            && m.AArray? && m.dynamicSize
            && (roll < 81 ==> ChangedAt(v.items, m.items, i, Mutate(v.items[i], e, at + 2)))
            && (81 <= roll < 91 ==> Cloned(v.items, m.items))
            && (81 <= roll < 91 ==>
                  |m.items| - |v.items| == if |v.items| < e.maxSize then e.rand(at + 1) % e.maxSize else 0)
            && (91 <= roll ==> GoneAt(v.items, m.items, i))
  {}

  /** An address is replaced, nine times in ten by one of the pool, otherwise by zeros; no other word by either. */
  lemma WordMutation(v: Abi, e: Source, at: nat)
    requires v.A256?
    ensures var m := Mutate(v, e, at);
            && (v.dontMutate ==> m == v)
            && (!v.dontMutate ==>
                  m == v.(word := if !v.isAddress then e.mutateWord(v.word, at)
                                  else if e.rand(at) % 100 < 90 then e.address(at + 1) else Zeros(20)))
  {}

  /** Whatever is mutated, however often, the value stays inside its ABI type. */
  lemma {:induction false} MutationRunKeepsType(v: Abi, t: AbiType, es: seq<Source>)
    requires Typed(v, t) && forall k :: 0 <= k < |es| ==> Sound(es[k])
    ensures Typed(MutateAll(v, es), t)
  {
    if es != [] {
      var last := |es| - 1;
      assert forall k :: 0 <= k < last ==> es[..last][k] == es[k];
      MutationRunKeepsType(v, t, es[..last]);
      MutateKeepsType(MutateAll(v, es[..last]), t, es[last], 0);
    }
  }

  /**
   * Over any run of mutations every list comes from a list of the starting value, and is at most as
   * long as the larger of that list and `2 * max_size - 2`.
   */
  lemma {:induction false} MutationRunKeepsBound(v: Abi, es: seq<Source>, n: int)
    requires forall k :: 0 <= k < |es| ==> 2 * es[k].maxSize - 2 <= n
    ensures Descends(MutateAll(v, es), v, n)
  {
    if es == [] {
      DescendsItself(v, n);
    } else {
      var last := |es| - 1;
      assert forall k :: 0 <= k < last ==> es[..last][k] == es[k];
      MutationRunKeepsBound(v, es[..last], n);
      MutateDescends(MutateAll(v, es[..last]), es[last], 0, n);
      DescendsOn(MutateAll(v, es), MutateAll(v, es[..last]), v, n);
    }
  }

  /** The bound is reached: a list one short of `max_size` can grow by `max_size - 1`. */
  lemma BoundIsReached(x: Abi, m: nat, e: Source)
    requires m >= 2 && e.maxSize == m && e.rand(0) == 85 && e.rand(1) == m - 1
    ensures |Mutate(AArray(seq(m - 1, _ => x), true), e, 0).items| == 2 * m - 2
  {
    assert (m - 1) % m == m - 1;
  }

  /** The mutated input of any run still reads back its own calldata. */
  lemma MutantReadsItself(v: Abi, t: AbiType, es: seq<Source>, trailing: Bytes)
    requires Typed(v, t) && forall k :: 0 <= k < |es| ==> Sound(es[k])
    requires |Encode(MutateAll(v, es)) + trailing| < USIZE
    ensures var m := MutateAll(v, es);
            var d := Decode(m, Encode(m) + trailing);
            d.Some? && SameContent(d.value, m) && Encode(d.value) == Encode(m)
  {
    MutationRunKeepsType(v, t, es);
    FitsItself(MutateAll(v, es));
    GoodIsSane(t);
    DecodeThenEncode(MutateAll(v, es), MutateAll(v, es), t, trailing);
  }

  /** The mutation as the program runs it, cloning the first element in a loop. */
  method MutateValue(v: Abi, e: Source, at: nat) returns (m: Abi)
    ensures m == Mutate(v, e, at)
    decreases v
  {
    match v
    case AEmpty => m := v;
    case A256(w, isAddress, dont, isBytes) =>
      var data: WordData := w;
      if !dont {
        if isAddress {
          if e.rand(at) % 100 < 90 {
            data := e.address(at + 1);
          } else {
            data := Zeros(ADDRESS_BYTES);
          }
        } else {
          data := e.mutateWord(w, at);
        }
      }
      m := A256(data, isAddress, dont, isBytes);
    case ADynamic(d) => m := ADynamic(e.mutateBytes(d, at));
    case AArray(xs, dyn) =>
      var items := xs;
      if |items| == 0 {
        return v;
      }
      if dyn {
        var roll := e.rand(at) % 100;
        var index := e.rand(at + 1) % |xs|;
        if roll <= 80 {
          var child := MutateValue(items[index], e, at + 2);
          items := items[index := child];
        } else if roll <= 90 {
          if e.maxSize <= |items| {
            return v;
          }
          for k := 0 to e.rand(at + 1) % e.maxSize
            invariant items == xs + seq(k, _ => xs[0])
          {
            items := items + [items[0]];
          }
        } else {
          items := items[..index] + items[index + 1..];
        }
      } else {
        var index := e.rand(at) % |xs|;
        var child := MutateValue(items[index], e, at + 1);
        items := items[index := child];
      }
      m := AArray(items, dyn);
  }

  /** `BoxedABI`: the arguments with their function selector, updated in place. */
  class BoxedAbi {
    var b: Abi
    var selector: Bytes

    ghost predicate Valid()
      reads this
    {
      |selector| == 4
    }

    constructor (b: Abi, selector: Bytes)
      requires |selector| == 4
      ensures Valid() && this.b == b && this.selector == selector
    {
      this.b, this.selector := b, selector;
    }

    /** The selector, then the encoded arguments. */
    method GetBytes() returns (bytes: Bytes)
      requires Valid() && NoHoles(b)
      ensures bytes == selector + Encode(b)
    {
      var args := AbiLoops.GetBytes(b);
      bytes := selector + args;
    }

    /** Skips the four selector bytes and decodes; `ok` is false where the program panics. */
    method SetBytes(bytes: Bytes) returns (ok: bool)
      requires Valid()
      modifies this`b
      ensures ok <==> |bytes| >= 4 && Decode(old(b), bytes[4..]).Some?
      ensures b == if ok then Decode(old(b), bytes[4..]).value else old(b)
    {
      if |bytes| < 4 {
        return false;
      }
      var decoded := AbiLoops.SetBytes(b, bytes[4..]);
      ok := decoded.Some?;
      if ok {
        b := decoded.value;
      }
    }

    method MutateWithVmSlots(e: Source, at: nat)
      requires Valid()
      modifies this`b
      ensures b == Mutate(old(b), e, at)
    {
      b := MutateValue(b, e, at);
    }

    /** The GPU stage's write-back: calldata of any value of this type, decoded in place, is read out unchanged. */
    method WriteBack(ghost v: Abi, ghost t: AbiType, calldata: Bytes)
      requires Valid() && Typed(b, t) && Typed(v, t) && Fits(b, v)
      requires calldata == selector + Encode(v) && |calldata| < USIZE
      modifies this`b
      ensures SameContent(b, v) && selector + Encode(b) == calldata && TypesOf(b) == TypesOf(v)
    {
      assert calldata[4..] == Encode(v) + [];
      GoodIsSane(t);
      DecodeThenEncode(b, v, t, []);
      var ok := SetBytes(calldata);
    }
  }
}
